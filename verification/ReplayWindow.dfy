/**
 The sliding anti-replay window kept for every (sender, key, session) domain, and its reference
 specification: the set of all sequences ever committed.
 */
module ReplayWindows {
  import opened Bytes
  import opened Bitmap

  datatype Domain = Domain(senderID: uint64, keyID: uint32, sessionID: uint64)

  datatype DomainState = DomainState(domain: Domain, highest: uint64, bitmap: uint64)

  datatype Packet = Packet(domain: Domain, sequence: uint64)

  type WindowSize = n: nat | 1 <= n <= 64 witness 64

  /** The value of a ReplayWindow object. */
  datatype Window = Window(size: WindowSize, states: seq<DomainState>)

  function Clamp(requested: nat): (size: WindowSize)
    ensures size == requested || (requested == 0 && size == 1) || (requested > 64 && size == 64)
  {
    if requested < 1 then 1 else if requested > 64 then 64 else requested
  }

  /** The position of the first entry of `domain`, or the number of entries when there is none. */
  function FindIndex(states: seq<DomainState>, domain: Domain): (i: nat)
    ensures i <= |states|
    ensures i < |states| ==> states[i].domain == domain
    ensures forall j :: 0 <= j < i ==> states[j].domain != domain
  {
    if states == [] then 0
    else if states[0].domain == domain then 0
    else 1 + FindIndex(states[1..], domain)
  }

  predicate Accepts(w: Window, p: Packet) {
    p.domain.sessionID != 0 && p.sequence != 0 &&
    var i := FindIndex(w.states, p.domain);
    i == |w.states| || AcceptsIn(w.size, w.states[i], p.sequence)
  }

  predicate AcceptsIn(size: WindowSize, s: DomainState, sequence: uint64) {
    sequence > s.highest ||
    (s.highest - sequence < size && And(s.bitmap, ShiftLeft(1, s.highest - sequence)) == 0)
  }

  function Record(w: Window, p: Packet): Window {
    var i := FindIndex(w.states, p.domain);
    w.(states :=
      if i == |w.states| then w.states + [DomainState(p.domain, p.sequence, 1)]
      else w.states[i := Advance(w.states[i], p.sequence)])
  }

  function Advance(s: DomainState, sequence: uint64): DomainState {
    if sequence > s.highest then
      var shift := sequence - s.highest;
      if shift >= 64 then s.(highest := sequence, bitmap := 1)
      else
        SlidBit(s.bitmap, shift, 0);
        s.(highest := sequence, bitmap := Or(ShiftLeft(s.bitmap, shift), 1))
    else
      var delta := s.highest - sequence;
      if delta < 64 then
        MarkedBit(s.bitmap, delta, 0);
        s.(bitmap := Or(s.bitmap, ShiftLeft(1, delta)))
      else s
  }

  /** The window after a history of commits, oldest first. */
  function After(size: WindowSize, history: seq<Packet>): Window {
    if history == [] then Window(size, [])
    else Record(After(size, history[..|history| - 1]), history[|history| - 1])
  }

  // ----- The reference specification -----

  /** Every sequence of `domain` the history committed. */
  ghost function Committed(history: seq<Packet>, domain: Domain): set<int> {
    set p | p in history && p.domain == domain :: p.sequence
  }

  /** Not yet committed, and above the highest committed sequence less the window size. */
  ghost predicate Fresh(size: WindowSize, history: seq<Packet>, p: Packet) {
    p.domain.sessionID != 0 && p.sequence != 0 &&
    p.sequence !in Committed(history, p.domain) &&
    forall c :: c in Committed(history, p.domain) ==> p.sequence > c - size
  }

  /** The state of one domain describes the set `committed`: bit `d` iff `highest - d` is in it. */
  ghost predicate Describes(s: DomainState, committed: set<int>) {
    s.highest in committed &&
    (forall c :: c in committed ==> c <= s.highest) &&
    forall d :: 0 <= d < 64 ==> (Bit(s.bitmap, d) <==> s.highest - d in committed)
  }

  ghost predicate UniqueDomains(states: seq<DomainState>) {
    forall i, j :: 0 <= i < j < |states| ==> states[i].domain != states[j].domain
  }

  ghost predicate Represents(w: Window, history: seq<Packet>) {
    UniqueDomains(w.states) &&
    (forall i :: 0 <= i < |w.states| ==> Describes(w.states[i], Committed(history, w.states[i].domain))) &&
    forall p :: p in history ==> FindIndex(w.states, p.domain) < |w.states|
  }

  lemma CommittedExtends(history: seq<Packet>, p: Packet, domain: Domain)
    ensures Committed(history + [p], domain) ==
            Committed(history, domain) + if p.domain == domain then {p.sequence} else {}
  {
    forall c | c in Committed(history, domain)
      ensures c in Committed(history + [p], domain)
    {
      var q :| q in history && q.domain == domain && q.sequence == c;
      assert q in history + [p];
    }
    assert p in history + [p];
  }

  /** One commit adds one sequence to the set a domain's state describes. */
  lemma AdvanceDescribes(s: DomainState, committed: set<int>, sequence: uint64)
    requires Describes(s, committed)
    ensures Describes(Advance(s, sequence), committed + {sequence})
  {
    var s' := Advance(s, sequence);
    forall d | 0 <= d < 64
      ensures Bit(s'.bitmap, d) <==> s'.highest - d in committed + {sequence}
    {
      if sequence > s.highest {
        if sequence - s.highest < 64 {
          SlidBit(s.bitmap, sequence - s.highest, d);
        } else {
          FreshBit(d);
        }
      } else if s.highest - sequence < 64 {
        MarkedBit(s.bitmap, s.highest - sequence, d);
      }
    }
  }

  lemma IndexAfterRecord(w: Window, p: Packet, domain: Domain)
    ensures FindIndex(Record(w, p).states, domain) < |Record(w, p).states| <==>
            domain == p.domain || FindIndex(w.states, domain) < |w.states|
  {
    var states, states' := w.states, Record(w, p).states;
    var i, k := FindIndex(states, p.domain), FindIndex(states, domain);
    assert i < |states'| && states'[i].domain == p.domain;
    if k < |states| {
      assert states'[k].domain == domain;
    }
  }

  lemma RecordDescribes(w: Window, history: seq<Packet>, p: Packet, j: nat)
    requires Represents(w, history)
    requires j < |Record(w, p).states|
    ensures var s := Record(w, p).states[j]; Describes(s, Committed(history + [p], s.domain))
  {
    var i := FindIndex(w.states, p.domain);
    CommittedExtends(history, p, Record(w, p).states[j].domain);
    if j == |w.states| {
      assert Committed(history, p.domain) == {};
      forall d | 0 <= d < 64
        ensures Bit(1, d) <==> d == 0
      {
        FreshBit(d);
      }
    } else if j == i {
      AdvanceDescribes(w.states[i], Committed(history, p.domain), p.sequence);
    }
  }

  lemma RecordKeepsUnique(w: Window, p: Packet)
    requires UniqueDomains(w.states)
    ensures UniqueDomains(Record(w, p).states)
  {
  }

  lemma RecordRepresents(w: Window, history: seq<Packet>, p: Packet)
    requires Represents(w, history)
    ensures Represents(Record(w, p), history + [p])
  {
    var states' := Record(w, p).states;
    RecordKeepsUnique(w, p);
    forall j | 0 <= j < |states'|
      ensures Describes(states'[j], Committed(history + [p], states'[j].domain))
    {
      RecordDescribes(w, history, p, j);
    }
    forall q | q in history + [p]
      ensures FindIndex(states', q.domain) < |states'|
    {
      IndexAfterRecord(w, p, q.domain);
    }
  }

  lemma {:induction false} AfterRepresents(size: WindowSize, history: seq<Packet>)
    ensures After(size, history).size == size
    ensures Represents(After(size, history), history)
  {
    if history == [] {
    } else {
      var init, last := history[..|history| - 1], history[|history| - 1];
      AfterRepresents(size, init);
      RecordRepresents(After(size, init), init, last);
      assert init + [last] == history;
    }
  }

  /**
   The bitmap refines the set: after any history of commits on any mix of domains, the window
   accepts exactly the fresh packets.
   */
  lemma WindowRefinesSet(size: WindowSize, history: seq<Packet>, p: Packet)
    ensures Accepts(After(size, history), p) <==> Fresh(size, history, p)
  {
    var w := After(size, history);
    AfterRepresents(size, history);
    var i := FindIndex(w.states, p.domain);
    if i < |w.states| {
      var s := w.states[i];
      if p.sequence <= s.highest && s.highest - p.sequence < 64 {
        MaskReadsBit(s.bitmap, s.highest - p.sequence);
      }
      assert s.highest in Committed(history, p.domain);
    } else {
      assert Committed(history, p.domain) == {};
    }
  }

  lemma CommittedGrows(history: seq<Packet>, later: seq<Packet>, domain: Domain)
    ensures Committed(history, domain) <= Committed(history + later, domain)
  {
    forall c | c in Committed(history, domain)
      ensures c in Committed(history + later, domain)
    {
      var q :| q in history && q.domain == domain && q.sequence == c;
      assert q in history + later;
    }
  }

  /** A rejected packet stays rejected whatever is committed later. */
  lemma RejectionIsPermanent(size: WindowSize, history: seq<Packet>, later: seq<Packet>, p: Packet)
    requires !Accepts(After(size, history), p)
    ensures !Accepts(After(size, history + later), p)
  {
    WindowRefinesSet(size, history, p);
    WindowRefinesSet(size, history + later, p);
    CommittedGrows(history, later, p.domain);
  }

  /** The packets of one domain, in order. */
  function Restrict(history: seq<Packet>, domain: Domain): seq<Packet> {
    if history == [] then []
    else (if history[0].domain == domain then [history[0]] else []) + Restrict(history[1..], domain)
  }

  lemma {:induction false} RestrictKeeps(history: seq<Packet>, domain: Domain, p: Packet)
    ensures p in Restrict(history, domain) <==> p in history && p.domain == domain
  {
    if history == [] {
    } else {
      RestrictKeeps(history[1..], domain, p);
      assert history == [history[0]] + history[1..];
    }
  }

  /** The answers of one domain depend on the commits of that domain alone. */
  lemma DomainsAreIndependent(size: WindowSize, history: seq<Packet>, p: Packet)
    ensures Accepts(After(size, history), p) <==>
            Accepts(After(size, Restrict(history, p.domain)), p)
  {
    WindowRefinesSet(size, history, p);
    WindowRefinesSet(size, Restrict(history, p.domain), p);
    forall q
      ensures q in Restrict(history, p.domain) <==> q in history && q.domain == p.domain
    {
      RestrictKeeps(history, p.domain, q);
    }
    assert Committed(history, p.domain) == Committed(Restrict(history, p.domain), p.domain);
  }

  // ----- The object -----

  class ReplayWindow {
    const windowSize: WindowSize
    var states: seq<DomainState>

    function Value(): Window
      reads this
    {
      Window(windowSize, states)
    }

    constructor (requested: nat)
      ensures Value() == Window(Clamp(requested), [])
    {
      windowSize := Clamp(requested);
      states := [];
    }

    method Find(domain: Domain) returns (found: nat)
      ensures found == FindIndex(states, domain)
    {
      found := 0;
      while found < |states| && states[found].domain != domain
        invariant found <= |states|
        invariant FindIndex(states, domain) == found + FindIndex(states[found..], domain)
      {
        assert states[found..][1..] == states[found + 1..];
        found := found + 1;
      }
    }

    method WouldAccept(senderID: uint64, keyID: uint32, sessionID: uint64, sequence: uint64) returns (accept: bool)
      ensures accept == Accepts(Value(), Packet(Domain(senderID, keyID, sessionID), sequence))
    {
      if sessionID == 0 || sequence == 0 {
        return false;
      }
      var found := Find(Domain(senderID, keyID, sessionID));
      if found == |states| {
        return true;
      }
      var state := states[found];
      if sequence > state.highest {
        return true;
      }
      var delta := state.highest - sequence;
      if delta >= windowSize {
        return false;
      }
      return And(state.bitmap, ShiftLeft(1, delta)) == 0;
    }

    method Commit(senderID: uint64, keyID: uint32, sessionID: uint64, sequence: uint64)
      modifies this
      ensures Value() == Record(old(Value()), Packet(Domain(senderID, keyID, sessionID), sequence))
    {
      var domain := Domain(senderID, keyID, sessionID);
      var found := Find(domain);
      if found == |states| {
        states := states + [DomainState(domain, sequence, 1)];
        return;
      }
      var state := states[found];
      if sequence > state.highest {
        var shift := sequence - state.highest;
        SlidBit(state.bitmap, if shift < 64 then shift else 1, 0);
        state := state.(bitmap := if shift >= 64 then 1 else Or(ShiftLeft(state.bitmap, shift), 1));
        state := state.(highest := sequence);
        states := states[found := state];
        return;
      }
      var delta := state.highest - sequence;
      if delta < 64 {
        MarkedBit(state.bitmap, delta, 0);
        states := states[found := state.(bitmap := Or(state.bitmap, ShiftLeft(1, delta)))];
      }
    }

    method Reset()
      modifies this
      ensures Value() == Window(windowSize, [])
    {
      states := [];
    }
  }
}
