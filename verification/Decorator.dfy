/** SecureTransportDecorator: TransportSecurity between an application and a carrier. */
module Decorators {
  import opened Bytes
  import opened Buffers
  import opened TransportModel
  import Model = TransportModel
  import opened TransportSecurities

  /** What the carrier was given to transmit: protocol and bytes of every call it accepted or refused. */
  datatype Transmission = Transmission(protocol: byte, bytes: seq<byte>)

  /**
   An ITransportSecurityCarrier that records what it is given and answers as scripted. `receiver` is
   the decorator whose receive callback is installed, if any.
   */
  class Carrier {
    var transmitted: seq<Transmission>
    var receiver: SecureTransportDecorator?

    constructor ()
      ensures transmitted == [] && receiver == null
    {
      transmitted, receiver := [], null;
    }

    method SetReceiver(receiver: SecureTransportDecorator?)
      modifies this`receiver
      ensures this.receiver == receiver
    {
      this.receiver := receiver;
    }

    /** Bytes arrive: they go to the installed callback, or nowhere. */
    method Arrive(protocol: byte, data: Span)
      modifies if receiver == null then {} else {receiver, receiver.security, receiver.security.replay}
      ensures receiver == old(receiver)
      ensures receiver != null ==>
        receiver.HasHandled(old(receiver.security.Value()), old(receiver.security.Around(true)),
                            old(receiver.handedUp), old(receiver.complaints), protocol, data)
    {
      if receiver != null {
        receiver.HandleReceive(protocol, data);
      }
    }

    method Send(protocol: byte, bytes: seq<byte>, accepts: bool) returns (accepted: bool)
      modifies this`transmitted
      ensures accepted == accepts && transmitted == old(transmitted) + [Transmission(protocol, bytes)]
    {
      transmitted := transmitted + [Transmission(protocol, bytes)];
      return accepts;
    }
  }

  /** A payload handed to the application, with the protocol it arrived under. */
  datatype Handover = Handover(protocol: byte, payload: UnprotectedPayload)

  datatype Complaint = Complaint(protocol: byte, result: SecurityResult)

  /** The receiver and the error observer are callbacks that may be absent; what they are given is logged. */
  class SecureTransportDecorator {
    const carrier: Carrier
    const security: TransportSecurity
    var hasReceiver: bool
    var hasErrorObserver: bool
    var handedUp: seq<Handover>
    var complaints: seq<Complaint>

    /** Installs itself as the receiver of the carrier. */
    constructor (carrier: Carrier, security: TransportSecurity)
      modifies carrier`receiver
      ensures this.carrier == carrier && this.security == security
      ensures !hasReceiver && !hasErrorObserver && handedUp == [] && complaints == []
      ensures carrier.receiver == this
    {
      this.carrier, this.security := carrier, security;
      hasReceiver, hasErrorObserver := false, false;
      handedUp, complaints := [], [];
      new;
      carrier.SetReceiver(this);
    }

    /** The destructor: whatever callback is installed is taken off the carrier. */
    method Detach()
      modifies carrier`receiver
      ensures carrier.receiver == null
    {
      carrier.SetReceiver(null);
    }

    method SetReceiver(present: bool)
      modifies this`hasReceiver
      ensures hasReceiver == present
    {
      hasReceiver := present;
    }

    method SetErrorObserver(present: bool)
      modifies this`hasErrorObserver
      ensures hasErrorObserver == present
    {
      hasErrorObserver := present;
    }

    /** Nothing reaches the carrier unless Protect succeeds; then exactly the bytes it returned do. */
    method Send(protocol: byte, data: Span, canAllocate: bool, carrierAccepts: bool) returns (sent: bool, result: SecurityResult)
      modifies security`sessionID, security`sessionReady, security`nextSequence, security`observed, security.random, carrier`transmitted
      ensures var outcome := Model.Protect(old(security.Value()), old(security.Around(canAllocate)), protocol, data);
              security.Value() == outcome.state && result == outcome.result &&
              carrier.transmitted == old(carrier.transmitted) +
                (if outcome.result.success then [Transmission(protocol, outcome.output)] else []) &&
              (sent <==> outcome.result.success && carrierAccepts)
    {
      var secured := new SecurityBuffer();
      result := security.Protect(protocol, data, canAllocate, secured);
      if !result.success {
        return false, result;
      }
      sent := carrier.Send(protocol, secured.bytes, carrierAccepts);
    }

    /** The state after handling `data`, in terms of what security, environment and logs were before. */
    ghost predicate HasHandled(st: State, env: Environment, handovers: seq<Handover>, complained: seq<Complaint>,
                               protocol: byte, data: Span)
      reads this, security, security.replay
    {
      var outcome := Model.Unprotect(st, env, protocol, data);
      security.Value() == outcome.state &&
      handedUp == handovers +
        (if outcome.result.success && hasReceiver then [Handover(protocol, outcome.payload)] else []) &&
      complaints == complained +
        (if !outcome.result.success && hasErrorObserver then [Complaint(protocol, outcome.result)] else [])
    }

    /** A payload goes up only if Unprotect succeeds, and then unchanged; a failure goes to the error observer. */
    method HandleReceive(protocol: byte, data: Span)
      modifies this`handedUp, this`complaints, security`observed, security.replay
      ensures HasHandled(old(security.Value()), old(security.Around(true)), old(handedUp), old(complaints), protocol, data)
    {
      var result, payload := security.Unprotect(protocol, data);
      if !result.success {
        if hasErrorObserver {
          complaints := complaints + [Complaint(protocol, result)];
        }
        return;
      }
      if hasReceiver {
        handedUp := handedUp + [Handover(protocol, payload)];
      }
    }
  }
}
