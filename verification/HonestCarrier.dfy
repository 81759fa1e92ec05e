/**
 A carrier that drops, duplicates and reorders but injects nothing, with one key per (key ID,
 algorithm): Law B then holds of itself, so the channel theorem needs no assumption on forgeries.
 */
module HonestCarrier {
  import opened Bytes
  import opened Aead
  import opened ReplayWindows
  import opened TransportHeader
  import opened TransportModel
  import opened TransportProperties
  import opened TransportRuns
  import opened DataModel
  import opened Channel

  /** Every key any node resolves for a reference is the one the binding gives it. */
  ghost predicate UsesBinding(env: Environment, binding: KeyTable) {
    forall ref :: ref in env.keys ==> ref in binding && binding[ref] == env.keys[ref]
  }

  ghost predicate EventUsesBinding(e: Event, binding: KeyTable) {
    match e
    case Send(_, _, _, env) => UsesBinding(env, binding)
    case Receive(_, _, _, env) => UsesBinding(env, binding)
    case _ => true
  }

  /** What arrives was sent before. */
  ghost predicate Carries(w: World, e: Event) {
    e.Receive? ==> exists j :: 0 <= j < |w.sent| && w.sent[j].envelope == e.bytes
  }

  /** `call` sealed `letter` under the bound key, and its parts have the sizes the header declares. */
  ghost predicate BoundCall(call: CipherCall, letter: Letter, binding: KeyTable) {
    SealedLetter(call, letter) &&
    var h := Decode(call.aad);
    var ref := KeyRef(h.keyID, h.algorithm);
    call.algorithm == h.algorithm && ref in binding && call.key == binding[ref] &&
    |call.nonce| == h.nonceLength && |call.ciphertext| == h.ciphertextLength && |call.tag| == h.tagLength
  }

  ghost predicate IsLogged(w: World, letter: Letter, binding: KeyTable) {
    exists k :: 0 <= k < |w.log| && BoundCall(w.log[k], letter, binding)
  }

  ghost predicate LettersAreLogged(w: World, binding: KeyTable) {
    forall j :: 0 <= j < |w.sent| ==> IsLogged(w, w.sent[j], binding)
  }

  ghost predicate IsHonest(w: World, binding: KeyTable) {
    LettersAreLogged(w, binding) && forall i :: 0 <= i < |w.nodes| ==> Reachable(w.nodes[i].security)
  }

  /** A call that opened took its inputs from the envelope, cut where the header says, and the key from the provider. */
  lemma UnsealedShape(st: State, env: Environment, protocol: byte, bytes: seq<byte>) returns (h: Header)
    requires Unprotect(st, env, protocol, Span(bytes)).unsealed.Some?
    ensures |bytes| >= FIXED_HEADER_SIZE && |bytes| == ExpectedSize(h) && h == Decode(bytes)
    ensures var call := Unprotect(st, env, protocol, Span(bytes)).unsealed.value;
            KeyRef(h.keyID, h.algorithm) in env.keys && call.algorithm == h.algorithm &&
            call.key == env.keys[KeyRef(h.keyID, h.algorithm)] && call.nonce == NonceOf(bytes, h) &&
            call.aad == bytes[..FIXED_HEADER_SIZE] && call.ciphertext == CiphertextOf(bytes, h) && call.tag == TagOf(bytes, h)
  {
    hide Decode, Accepts;
    h := Decode(bytes);
  }

  /** Bytes that were sent open only on the call that sealed them. */
  lemma CarriedIsLogged(w: World, e: Event, binding: KeyTable)
    requires LettersAreLogged(w, binding) && EventUsesBinding(e, binding) && Carries(w, e)
    ensures LawB(w, e)
  {
    hide Unprotect, Encode, Decode, LooksProtected;
    if e.Receive? && e.node < |w.nodes| {
      var st := w.nodes[e.node].security;
      var outcome := Unprotect(st, e.env, e.protocol, Span(e.bytes));
      if outcome.unsealed.Some? {
        var j :| 0 <= j < |w.sent| && w.sent[j].envelope == e.bytes;
        assert IsLogged(w, w.sent[j], binding);
        var k :| 0 <= k < |w.log| && BoundCall(w.log[k], w.sent[j], binding);
        var call := w.log[k];
        var h := UnsealedShape(st, e.env, e.protocol, e.bytes);
        EncodeInvertsDecode(call.aad);
        assert call.aad[..FIXED_HEADER_SIZE] == call.aad;
        SlicesOfParts(Decode(call.aad), call.nonce, call.ciphertext, call.tag);
        assert SameInputs(call, outcome.unsealed.value);
      }
    }
  }

  lemma SendBinds(st: State, env: Environment, protocol: byte, plaintext: Span, binding: KeyTable)
    requires Reachable(st) && UsesBinding(env, binding)
    requires Protect(st, env, protocol, plaintext).result == Ok(true)
    ensures var outcome := Protect(st, env, protocol, plaintext);
            outcome.sealed.Some? &&
            BoundCall(outcome.sealed.value, Letter(Intended(st, env, protocol, plaintext), outcome.output), binding)
  {
    hide Protect, Encode, Decode;
    var h, cipher := EnvelopeShape(st, env, protocol, plaintext);
    assert Encode(h) + [] == Encode(h);
    DecodeInvertsEncode(h, []);
    MagicLooksProtected(h, []);
  }

  lemma LoggedLettersRemain(w: World, w': World, binding: KeyTable)
    requires LettersAreLogged(w, binding) && w.log <= w'.log
    requires w'.sent == w.sent ||
             (|w'.sent| == |w.sent| + 1 && w.sent <= w'.sent &&
              |w'.log| > 0 && BoundCall(w'.log[|w'.log| - 1], w'.sent[|w.sent|], binding))
    ensures LettersAreLogged(w', binding)
  {
    forall j | 0 <= j < |w'.sent|
      ensures IsLogged(w', w'.sent[j], binding)
    {
      if j < |w.sent| {
        assert IsLogged(w, w.sent[j], binding);
        var k :| 0 <= k < |w.log| && BoundCall(w.log[k], w.sent[j], binding);
        assert w'.log[k] == w.log[k] && w'.sent[j] == w.sent[j];
      } else {
        var k := |w'.log| - 1;
        assert BoundCall(w'.log[k], w'.sent[j], binding);
      }
    }
  }

  lemma HappenKeepsHonest(w: World, e: Event, binding: KeyTable)
    requires IsHonest(w, binding) && EventUsesBinding(e, binding)
    ensures IsHonest(Happen(w, e), binding)
  {
    hide Protect, Unprotect, ProtectData, BoundCall, LettersAreLogged, UsesBinding, Reachable;
    var w' := Happen(w, e);
    if e.Send? && e.node < |w.nodes| {
      var st := w.nodes[e.node].security;
      ProtectKeepsReachable(st, e.env, e.protocol, e.plaintext);
      SealedIffProtected(st, e.env, e.protocol, e.plaintext);
      if Protect(st, e.env, e.protocol, e.plaintext).result == Ok(true) {
        SendBinds(st, e.env, e.protocol, e.plaintext, binding);
      }
    } else if e.Receive? && e.node < |w.nodes| {
      UnprotectKeepsReachable(w.nodes[e.node].security, e.env, e.protocol, Span(e.bytes));
    } else if e.Reconfigure? && e.node < |w.nodes| {
      StepKeepsReachable(w.nodes[e.node].security, SetConfigCall(e.config));
    } else if e.ResetReplay? && e.node < |w.nodes| {
      StepKeepsReachable(w.nodes[e.node].security, ResetReplayCall);
    }
    LoggedLettersRemain(w, w', binding);
  }

  /** Over a whole run: if keys are bound and everything that arrives was sent, Law B holds at every step. */
  lemma {:induction false} HonestCarrierMeetsLawB(w: World, events: seq<Event>, binding: KeyTable)
    requires Pristine(w)
    requires forall k :: 0 <= k < |events| ==>
      EventUsesBinding(events[k], binding) && Carries(History(w, events[..k]), events[k])
    ensures IsHonest(History(w, events), binding)
    ensures LawBThroughout(w, events)
  {
    hide Happen, LawB, Carries, EventUsesBinding, IsHonest, Pristine;
    if events == [] {
      PristineIsHonest(w, binding);
    } else {
      var init, last := events[..|events| - 1], events[|events| - 1];
      forall k | 0 <= k < |init|
        ensures EventUsesBinding(init[k], binding) && Carries(History(w, init[..k]), init[k])
      {
        assert init[..k] == events[..k] && init[k] == events[k];
      }
      HonestCarrierMeetsLawB(w, init, binding);
      assert events[..|init|] == init;
      HonestCarriesLogged(History(w, init), last, binding);
      HappenKeepsHonest(History(w, init), last, binding);
      forall k | 0 <= k < |events|
        ensures LawB(History(w, events[..k]), events[k])
      {
        if k < |init| {
          assert init[..k] == events[..k] && init[k] == events[k];
        }
      }
    }
  }

  lemma HonestCarriesLogged(w: World, e: Event, binding: KeyTable)
    requires IsHonest(w, binding) && EventUsesBinding(e, binding) && Carries(w, e)
    ensures LawB(w, e)
  {
    CarriedIsLogged(w, e, binding);
  }

  lemma PristineIsHonest(w: World, binding: KeyTable)
    requires Pristine(w)
    ensures IsHonest(w, binding)
  {
    forall i | 0 <= i < |w.nodes|
      ensures Reachable(w.nodes[i].security)
    {
      InitialIsReachable(w.nodes[i].security.config);
    }
  }
}
