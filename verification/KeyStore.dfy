/** The entry list of the static key provider, over any kind of reference to key storage. */
module KeyEntries {
  import opened Bytes
  import opened TransportModel

  datatype Entry<S> = Entry(ref: KeyRef, storage: S)

  /** FindLocked: the position of the entry for `ref`, or the number of entries. */
  function FindEntry<S>(entries: seq<Entry<S>>, ref: KeyRef): (i: nat)
    ensures i <= |entries|
    ensures i < |entries| ==> entries[i].ref == ref
    ensures forall j :: 0 <= j < i ==> entries[j].ref != ref
  {
    if entries == [] || entries[0].ref == ref then 0 else 1 + FindEntry(entries[1..], ref)
  }

  /** The entries after the storage is published under `ref`: replaced in place, or added at the end. */
  function Published<S>(entries: seq<Entry<S>>, ref: KeyRef, storage: S): seq<Entry<S>> {
    var i := FindEntry(entries, ref);
    if i < |entries| then entries[i := Entry(ref, storage)] else entries + [Entry(ref, storage)]
  }

  function Without<S>(entries: seq<Entry<S>>, i: nat): seq<Entry<S>>
    requires i < |entries|
  {
    entries[..i] + entries[i + 1..]
  }

  ghost predicate UniqueRefs<S>(entries: seq<Entry<S>>) {
    forall i, j :: 0 <= i < j < |entries| ==> entries[i].ref != entries[j].ref
  }

  /** What the list stores under `ref`. */
  function StoredAt<S>(entries: seq<Entry<S>>, ref: KeyRef): Option<S> {
    var i := FindEntry(entries, ref);
    if i < |entries| then Some(entries[i].storage) else None
  }

  lemma StoredWhereListed<S>(entries: seq<Entry<S>>, k: nat)
    requires UniqueRefs(entries) && k < |entries|
    ensures FindEntry(entries, entries[k].ref) == k
  {
  }

  /** Publishing is a map update. */
  lemma PublishUpdates<S>(entries: seq<Entry<S>>, ref: KeyRef, storage: S, other: KeyRef)
    requires UniqueRefs(entries)
    ensures UniqueRefs(Published(entries, ref, storage))
    ensures StoredAt(Published(entries, ref, storage), other) ==
            if other == ref then Some(storage) else StoredAt(entries, other)
  {
    var entries' := Published(entries, ref, storage);
    var i, k := FindEntry(entries, ref), FindEntry(entries, other);
    assert entries'[i] == Entry(ref, storage);
    StoredWhereListed(entries', i);
    if other != ref && k < |entries| {
      assert entries'[k] == entries[k];
      StoredWhereListed(entries', k);
    }
  }

  lemma WithoutKeepsUnique<S>(entries: seq<Entry<S>>, i: nat)
    requires UniqueRefs(entries) && i < |entries|
    ensures UniqueRefs(Without(entries, i))
  {
  }

  /** Erasing an entry is a map removal. */
  lemma EraseRemoves<S>(entries: seq<Entry<S>>, ref: KeyRef, other: KeyRef)
    requires UniqueRefs(entries) && FindEntry(entries, ref) < |entries|
    ensures StoredAt(Without(entries, FindEntry(entries, ref)), other) ==
            if other == ref then None else StoredAt(entries, other)
  {
    var i, k := FindEntry(entries, ref), FindEntry(entries, other);
    var entries' := Without(entries, i);
    WithoutKeepsUnique(entries, i);
    if other != ref && k < |entries| {
      var k' := if k < i then k else k - 1;
      assert entries'[k'] == entries[k];
      StoredWhereListed(entries', k');
    }
  }
}

/** Sums of references held by the members of a sequence. */
module References {

  ghost function Total<T>(xs: seq<T>, held: T -> multiset<nat>): multiset<nat> {
    if xs == [] then multiset{} else Total(xs[..|xs| - 1], held) + held(xs[|xs| - 1])
  }

  lemma TotalAppend<T>(xs: seq<T>, held: T -> multiset<nat>, x: T)
    ensures Total(xs + [x], held) == Total(xs, held) + held(x)
  {
    assert (xs + [x])[..|xs|] == xs;
  }

  lemma {:induction false} TotalUpdate<T>(xs: seq<T>, held: T -> multiset<nat>, i: nat, x: T)
    requires i < |xs|
    ensures Total(xs[i := x], held) + held(xs[i]) == Total(xs, held) + held(x)
  {
    var last := |xs| - 1;
    if i == last {
      assert xs[i := x][..last] == xs[..last];
    } else {
      assert xs[i := x][..last] == xs[..last][i := x];
      TotalUpdate(xs[..last], held, i, x);
      CommonTerm(Total(xs[..last][i := x], held), Total(xs[..last], held), held(xs[i]), held(x), held(xs[last]));
    }
  }

  lemma CommonTerm(a: multiset<nat>, b: multiset<nat>, c: multiset<nat>, d: multiset<nat>, common: multiset<nat>)
    requires a + c == b + d
    ensures a + common + c == b + common + d
  {
    assert a + common + c == a + c + common;
    assert b + common + d == b + d + common;
  }

  lemma {:induction false} TotalRemove<T>(xs: seq<T>, held: T -> multiset<nat>, i: nat)
    requires i < |xs|
    ensures Total(xs[..i] + xs[i + 1..], held) + held(xs[i]) == Total(xs, held)
  {
    var last := |xs| - 1;
    if i == last {
      assert xs[..i] + xs[i + 1..] == xs[..last];
    } else {
      var fewer := xs[..i] + xs[i + 1..];
      assert fewer[..|fewer| - 1] == xs[..last][..i] + xs[..last][i + 1..];
      TotalRemove(xs[..last], held, i);
    }
  }

  lemma Rearranged(x: multiset<nat>, t: multiset<nat>, a: multiset<nat>, b: multiset<nat>)
    requires x + a == t + b && a <= t
    ensures x == t - a + b
  {
    forall e: nat
      ensures x[e] == (t - a + b)[e]
    {
      assert (x + a)[e] == (t + b)[e];
    }
  }

  /** Replacing one member trades what it held for what the new one holds. */
  lemma TotalTrade<T>(xs: seq<T>, held: T -> multiset<nat>, i: nat, x: T)
    requires i < |xs|
    ensures held(xs[i]) <= Total(xs, held)
    ensures Total(xs[i := x], held) == Total(xs, held) - held(xs[i]) + held(x)
  {
    hide Total;
    TotalHas(xs, held, i);
    TotalUpdate(xs, held, i, x);
    Rearranged(Total(xs[i := x], held), Total(xs, held), held(xs[i]), held(x));
  }

  lemma {:induction false} TotalHas<T>(xs: seq<T>, held: T -> multiset<nat>, i: nat)
    requires i < |xs|
    ensures held(xs[i]) <= Total(xs, held)
  {
    TotalRemove(xs, held, i);
  }
}

/**
 Threads sharing one key provider: every step is a lock-delimited section of an operation or a
 step on storage only the thread can reach, and the steps of different threads interleave freely.
 */
module KeyStore {
  import opened Bytes
  import opened TransportModel
  import opened KeyEntries
  import opened References

  /** KeyMaterialStorage behind shared pointers: its bytes, the pointer count, and whether its destructor ran. */
  datatype Storage = Storage(given: seq<byte>, bytes: seq<byte>, count: nat, destroyed: bool)

  /** A bound KeyMaterialView. */
  datatype Binding = Binding(keyID: uint32, storage: nat)

  /** What a thread holds in local variables between two sections. */
  datatype Local = Idle | Adding(ref: KeyRef, storage: nat) | Clearing(removed: seq<nat>)

  datatype Store = Store(heap: seq<Storage>, entries: seq<Entry<nat>>, views: seq<Option<Binding>>, locals: seq<Local>)

  datatype Step =
    | AddAllocates(thread: nat, ref: KeyRef, key: Span, canAllocate: bool)
    | AddPublishes(thread: nat, canGrow: bool)
    | Removes(ref: KeyRef)
    | ClearSwaps(thread: nat)
    | ClearReleases(thread: nat)
    | GetsKey(view: nat, ref: KeyRef)
    | CopiesView(from: nat, to: nat)
    | DropsView(view: nat)

  /** One more shared pointer. */
  function Retain(heap: seq<Storage>, s: nat): seq<Storage> {
    if s < |heap| then heap[s := heap[s].(count := heap[s].count + 1)] else heap
  }

  /** One shared pointer less; the last one runs the destructor, which overwrites the bytes. */
  function Release(heap: seq<Storage>, s: nat): seq<Storage> {
    if s < |heap| && heap[s].count > 1 then heap[s := heap[s].(count := heap[s].count - 1)]
    else if s < |heap| && heap[s].count == 1 then heap[s := Destroy(heap[s])]
    else heap
  }

  function Destroy(storage: Storage): Storage {
    storage.(count := 0, bytes := Zeros(|storage.bytes|), destroyed := true)
  }

  /** What the caller of an operation learns from the section that completes it; Clear returns nothing. */
  datatype Answer =
    | Silent
    | Added(ok: bool)
    | Removed(ok: bool)
    | Found(keyID: uint32, key: seq<byte>)
    | Missing

  datatype Outcome = Outcome(store: Store, answer: Answer)

  /** Add goes on to publish: its arguments are legal and there is memory for the storage. */
  predicate Acceptable(ref: KeyRef, key: Span, canAllocate: bool) {
    ref.keyID != 0 && !key.NullSpan? && key.Size() != 0 && canAllocate
  }

  /** Whether the step can be taken: the thread is at that point, the view in that condition. */
  predicate Enabled(st: Store, step: Step) {
    match step
    case AddAllocates(t, _, _, _) => t < |st.locals| && st.locals[t].Idle?
    case AddPublishes(t, _) => t < |st.locals| && st.locals[t].Adding?
    case ClearSwaps(t) => t < |st.locals| && st.locals[t].Idle?
    case ClearReleases(t) => t < |st.locals| && st.locals[t].Clearing?
    case GetsKey(v, _) => v < |st.views| && st.views[v].None?
    case CopiesView(from, to) => from < |st.views| && to < |st.views| && st.views[from].Some? && st.views[to].None?
    case DropsView(v) => v < |st.views| && st.views[v].Some?
    case Removes(_) => true
  }

  function Perform(st: Store, step: Step): Outcome
    requires Enabled(st, step)
  {
    match step
    case AddAllocates(t, ref, key, canAllocate) =>
      if !Acceptable(ref, key, canAllocate) then Outcome(st, Added(false))
      else Outcome(st.(heap := st.heap + [Storage(key.bytes, key.bytes, 1, false)],
                       locals := st.locals[t := Adding(ref, |st.heap|)]), Silent)
    case AddPublishes(t, canGrow) =>
      var Adding(ref, s) := st.locals[t];
      var i := FindEntry(st.entries, ref);
      if i < |st.entries| then
        Outcome(st.(entries := Published(st.entries, ref, s), locals := st.locals[t := Idle],
                    heap := Release(st.heap, st.entries[i].storage)), Added(true))
      else if canGrow then
        Outcome(st.(entries := Published(st.entries, ref, s), locals := st.locals[t := Idle]), Added(true))
      else
        Outcome(st.(locals := st.locals[t := Idle], heap := Release(st.heap, s)), Added(false))
    case Removes(ref) =>
      var i := FindEntry(st.entries, ref);
      if i == |st.entries| then Outcome(st, Removed(false))
      else Outcome(st.(entries := Without(st.entries, i), heap := Release(st.heap, st.entries[i].storage)), Removed(true))
    case ClearSwaps(t) =>
      Outcome(st.(entries := [], locals := st.locals[t := Clearing(Storages(st.entries))]), Silent)
    case ClearReleases(t) =>
      var removed := st.locals[t].removed;
      if removed == [] then Outcome(st.(locals := st.locals[t := Idle]), Silent)
      else Outcome(st.(locals := st.locals[t := Clearing(removed[1..])], heap := Release(st.heap, removed[0])), Silent)
    case GetsKey(v, ref) =>
      var i := FindEntry(st.entries, ref);
      if i == |st.entries| then Outcome(st, Missing)
      else
        var view := Binding(st.entries[i].ref.keyID, st.entries[i].storage);
        Outcome(st.(views := st.views[v := Some(view)], heap := Retain(st.heap, view.storage)), Reads(st.heap, view))
    case CopiesView(from, to) =>
      Outcome(st.(views := st.views[to := st.views[from]], heap := Retain(st.heap, st.views[from].value.storage)), Silent)
    case DropsView(v) =>
      Outcome(st.(views := st.views[v := None], heap := Release(st.heap, st.views[v].value.storage)), Silent)
  }

  /** What a view shows: its key ID and the bytes of its storage; an empty key is no key. */
  function Reads(heap: seq<Storage>, view: Binding): Answer {
    if view.storage < |heap| && heap[view.storage].bytes != [] then Found(view.keyID, heap[view.storage].bytes) else Missing
  }

  function Take(st: Store, step: Step): Store
    requires Enabled(st, step)
  {
    Perform(st, step).store
  }

  function Storages(entries: seq<Entry<nat>>): (storages: seq<nat>)
    ensures |storages| == |entries|
    ensures forall i :: 0 <= i < |entries| ==> storages[i] == entries[i].storage
  {
    seq(|entries|, i requires 0 <= i < |entries| => entries[i].storage)
  }

  // ----- Who holds what -----

  ghost function HeldByEntry(e: Entry<nat>): multiset<nat> {
    multiset{e.storage}
  }

  ghost function HeldByView(v: Option<Binding>): multiset<nat> {
    if v.None? then multiset{} else multiset{v.value.storage}
  }

  ghost function HeldByLocal(l: Local): multiset<nat> {
    match l
    case Idle => multiset{}
    case Adding(_, s) => multiset{s}
    case Clearing(removed) => multiset(removed)
  }

  /** Every shared pointer there is: of entries, of views, and of locals in flight. */
  ghost function Holders(st: Store): multiset<nat> {
    Total(st.entries, HeldByEntry) + Total(st.views, HeldByView) + Total(st.locals, HeldByLocal)
  }

  ghost predicate StorageIsSound(storage: Storage) {
    |storage.given| > 0 &&
    (storage.destroyed <==> storage.count == 0) &&
    storage.bytes == if storage.destroyed then Zeros(|storage.given|) else storage.given
  }

  /** The invariant: counts are exact, nothing dangles, and only unreferenced storage is destroyed. */
  ghost predicate Safe(st: Store) {
    UniqueRefs(st.entries) && HeapMatches(st.heap, Holders(st))
  }

  ghost predicate HeapMatches(heap: seq<Storage>, holders: multiset<nat>) {
    (forall s :: s in holders ==> s < |heap|) &&
    forall s :: 0 <= s < |heap| ==> heap[s].count == holders[s] && StorageIsSound(heap[s])
  }

  lemma ReleaseMatches(heap: seq<Storage>, holders: multiset<nat>, s: nat)
    requires HeapMatches(heap, holders) && s in holders
    ensures HeapMatches(Release(heap, s), holders - multiset{s})
  {
  }

  lemma RetainMatches(heap: seq<Storage>, holders: multiset<nat>, s: nat)
    requires HeapMatches(heap, holders) && s in holders
    ensures HeapMatches(Retain(heap, s), holders + multiset{s})
  {
  }

  lemma AllocateMatches(heap: seq<Storage>, holders: multiset<nat>, key: seq<byte>)
    requires HeapMatches(heap, holders) && |key| > 0
    ensures HeapMatches(heap + [Storage(key, key, 1, false)], holders + multiset{|heap|})
  {
    assert |heap| !in holders;
  }

  lemma EntryIsHolder(st: Store, i: nat)
    requires i < |st.entries|
    ensures st.entries[i].storage in Holders(st)
  {
    TotalHas(st.entries, HeldByEntry, i);
  }

  lemma ViewIsHolder(st: Store, v: nat)
    requires v < |st.views| && st.views[v].Some?
    ensures st.views[v].value.storage in Holders(st)
  {
    TotalHas(st.views, HeldByView, v);
  }

  lemma NoEntriesHoldNothing()
    ensures Total<Entry<nat>>([], HeldByEntry) == multiset{}
  {
  }

  lemma ViewChanges(views: seq<Option<Binding>>, v: nat, view: Option<Binding>)
    requires v < |views|
    ensures HeldByView(views[v]) <= Total(views, HeldByView)
    ensures Total(views[v := view], HeldByView) == Total(views, HeldByView) - HeldByView(views[v]) + HeldByView(view)
  {
    hide Total;
    TotalTrade(views, HeldByView, v, view);
  }

  lemma LocalChanges(locals: seq<Local>, t: nat, l: Local)
    requires t < |locals|
    ensures HeldByLocal(locals[t]) <= Total(locals, HeldByLocal)
    ensures Total(locals[t := l], HeldByLocal) == Total(locals, HeldByLocal) - HeldByLocal(locals[t]) + HeldByLocal(l)
  {
    hide Total;
    TotalTrade(locals, HeldByLocal, t, l);
  }

  lemma EntryChanges(entries: seq<Entry<nat>>, i: nat, e: Entry<nat>)
    requires i < |entries|
    ensures HeldByEntry(entries[i]) <= Total(entries, HeldByEntry)
    ensures Total(entries[i := e], HeldByEntry) == Total(entries, HeldByEntry) - HeldByEntry(entries[i]) + HeldByEntry(e)
  {
    hide Total;
    TotalTrade(entries, HeldByEntry, i, e);
  }

  lemma {:induction false} EntriesHoldStorages(entries: seq<Entry<nat>>)
    ensures Total(entries, HeldByEntry) == multiset(Storages(entries))
  {
    if entries != [] {
      var init, last := entries[..|entries| - 1], entries[|entries| - 1];
      EntriesHoldStorages(init);
      assert Storages(entries) == Storages(init) + [last.storage];
    }
  }

  /** Who holds what after a step: each one gives up, takes or hands on the shared pointers its operation is about. */
  ghost function HoldersAfter(st: Store, step: Step): multiset<nat>
    requires Enabled(st, step)
  {
    match step
    case AddAllocates(_, ref, key, canAllocate) =>
      if Acceptable(ref, key, canAllocate) then Holders(st) + multiset{|st.heap|} else Holders(st)
    case AddPublishes(t, canGrow) =>
      var i := FindEntry(st.entries, st.locals[t].ref);
      if i < |st.entries| then Holders(st) - multiset{st.entries[i].storage}
      else if canGrow then Holders(st) else Holders(st) - multiset{st.locals[t].storage}
    case Removes(ref) =>
      var i := FindEntry(st.entries, ref);
      if i < |st.entries| then Holders(st) - multiset{st.entries[i].storage} else Holders(st)
    case ClearSwaps(_) => Holders(st)
    case ClearReleases(t) =>
      if st.locals[t].removed == [] then Holders(st) else Holders(st) - multiset{st.locals[t].removed[0]}
    case GetsKey(_, ref) =>
      var i := FindEntry(st.entries, ref);
      if i < |st.entries| then Holders(st) + multiset{st.entries[i].storage} else Holders(st)
    case CopiesView(from, _) => Holders(st) + multiset{st.views[from].value.storage}
    case DropsView(v) => Holders(st) - multiset{st.views[v].value.storage}
  }

  ghost predicate Succeeds(st: Store, step: Step)
    requires Enabled(st, step)
  {
    Safe(Take(st, step)) && Holders(Take(st, step)) == HoldersAfter(st, step)
  }

  // ----- Every step keeps the invariant -----

  lemma AddAllocatesIsSafe(st: Store, t: nat, ref: KeyRef, key: Span, canAllocate: bool)
    requires Safe(st) && Enabled(st, AddAllocates(t, ref, key, canAllocate))
    ensures Succeeds(st, AddAllocates(t, ref, key, canAllocate))
  {
    hide Total, HeapMatches, UniqueRefs;
    var st' := Take(st, AddAllocates(t, ref, key, canAllocate));
    if st' != st {
      LocalChanges(st.locals, t, Adding(ref, |st.heap|));
      AllocateMatches(st.heap, Holders(st), key.bytes);
      assert Holders(st') == Holders(st) + multiset{|st.heap|};
    }
  }

  lemma AddPublishesIsSafe(st: Store, t: nat, canGrow: bool)
    requires Safe(st) && Enabled(st, AddPublishes(t, canGrow))
    ensures Succeeds(st, AddPublishes(t, canGrow))
  {
    hide Safe, Succeeds;
    if FindEntry(st.entries, st.locals[t].ref) < |st.entries| {
      ReplacesIsSafe(st, t, canGrow);
    } else if canGrow {
      AppendsIsSafe(st, t);
    } else {
      GivesUpIsSafe(st, t);
    }
  }

  /** The shared pointer of a local moves into a new entry. */
  lemma AppendsIsSafe(st: Store, t: nat)
    requires Safe(st) && Enabled(st, AddPublishes(t, true))
    requires FindEntry(st.entries, st.locals[t].ref) == |st.entries|
    ensures Succeeds(st, AddPublishes(t, true))
  {
    hide Total, HeapMatches, UniqueRefs, Release;
    var Adding(ref, s) := st.locals[t];
    PublishUpdates(st.entries, ref, s, ref);
    LocalChanges(st.locals, t, Idle);
    TotalAppend(st.entries, HeldByEntry, Entry(ref, s));
    assert Holders(Take(st, AddPublishes(t, true))) == Holders(st);
  }

  /** The shared pointer of a local is given up. */
  lemma GivesUpIsSafe(st: Store, t: nat)
    requires Safe(st) && Enabled(st, AddPublishes(t, false))
    requires FindEntry(st.entries, st.locals[t].ref) == |st.entries|
    ensures Succeeds(st, AddPublishes(t, false))
  {
    hide Total, HeapMatches, UniqueRefs, Release;
    var s := st.locals[t].storage;
    LocalChanges(st.locals, t, Idle);
    assert s in HeldByLocal(st.locals[t]);
    ReleaseMatches(st.heap, Holders(st), s);
    assert Holders(Take(st, AddPublishes(t, false))) == Holders(st) - multiset{s};
  }

  /** The shared pointer of a local moves into an entry, and the one it replaces is given up. */
  lemma MovesIntoEntry(entries: multiset<nat>, views: multiset<nat>, locals: multiset<nat>, replaced: nat, s: nat)
    requires multiset{replaced} <= entries && multiset{s} <= locals
    ensures (entries - multiset{replaced} + multiset{s}) + views + (locals - multiset{s} + multiset{}) ==
            entries + views + locals - multiset{replaced}
  {
  }

  lemma ReplacementHolders(st: Store, t: nat, i: nat)
    requires t < |st.locals| && st.locals[t].Adding? && i < |st.entries|
    ensures var Adding(ref, s) := st.locals[t];
            Total(st.entries[i := Entry(ref, s)], HeldByEntry) + Total(st.views, HeldByView)
            + Total(st.locals[t := Idle], HeldByLocal) == Holders(st) - multiset{st.entries[i].storage}
  {
    hide Total;
    var Adding(ref, s) := st.locals[t];
    LocalChanges(st.locals, t, Idle);
    EntryChanges(st.entries, i, Entry(ref, s));
    MovesIntoEntry(Total(st.entries, HeldByEntry), Total(st.views, HeldByView), Total(st.locals, HeldByLocal),
                   st.entries[i].storage, s);
  }

  lemma ReplacesIsSafe(st: Store, t: nat, canGrow: bool)
    requires Safe(st) && Enabled(st, AddPublishes(t, canGrow))
    requires FindEntry(st.entries, st.locals[t].ref) < |st.entries|
    ensures Succeeds(st, AddPublishes(t, canGrow))
  {
    hide Total, HeapMatches, UniqueRefs, Release, HeldByEntry, HeldByView, HeldByLocal;
    var Adding(ref, s) := st.locals[t];
    var i := FindEntry(st.entries, ref);
    PublishUpdates(st.entries, ref, s, ref);
    EntryIsHolder(st, i);
    ReplacementHolders(st, t, i);
    ReleaseMatches(st.heap, Holders(st), st.entries[i].storage);
  }

  lemma RemovesIsSafe(st: Store, ref: KeyRef)
    requires Safe(st)
    ensures Succeeds(st, Removes(ref))
  {
    hide Total, HeapMatches, UniqueRefs, Release;
    var st' := Take(st, Removes(ref));
    var i := FindEntry(st.entries, ref);
    if i < |st.entries| {
      WithoutKeepsUnique(st.entries, i);
      EntryIsHolder(st, i);
      TotalRemove(st.entries, HeldByEntry, i);
      ReleaseMatches(st.heap, Holders(st), st.entries[i].storage);
      assert Holders(st') == Holders(st) - multiset{st.entries[i].storage};
    }
  }

  lemma ClearSwapsIsSafe(st: Store, t: nat)
    requires Safe(st) && Enabled(st, ClearSwaps(t))
    ensures Succeeds(st, ClearSwaps(t))
  {
    hide HeapMatches, Total;
    var st' := Take(st, ClearSwaps(t));
    LocalChanges(st.locals, t, Clearing(Storages(st.entries)));
    EntriesHoldStorages(st.entries);
    NoEntriesHoldNothing();
    assert Holders(st') == Holders(st);
  }

  lemma FirstReleased(removed: seq<nat>)
    requires removed != []
    ensures multiset(removed) == multiset{removed[0]} + multiset(removed[1..])
  {
    assert removed == [removed[0]] + removed[1..];
  }

  lemma ClearReleasesIsSafe(st: Store, t: nat)
    requires Safe(st) && Enabled(st, ClearReleases(t))
    ensures Succeeds(st, ClearReleases(t))
  {
    hide Total, HeapMatches, UniqueRefs, Release;
    var st' := Take(st, ClearReleases(t));
    var removed := st.locals[t].removed;
    if removed == [] {
      LocalChanges(st.locals, t, Idle);
      assert Holders(st') == Holders(st);
    } else {
      LocalChanges(st.locals, t, Clearing(removed[1..]));
      FirstReleased(removed);
      ReleaseMatches(st.heap, Holders(st), removed[0]);
      assert Holders(st') == Holders(st) - multiset{removed[0]};
    }
  }

  lemma GetsKeyIsSafe(st: Store, v: nat, ref: KeyRef)
    requires Safe(st) && Enabled(st, GetsKey(v, ref))
    ensures Succeeds(st, GetsKey(v, ref))
  {
    hide Total, HeapMatches, UniqueRefs, Retain;
    var st' := Take(st, GetsKey(v, ref));
    var i := FindEntry(st.entries, ref);
    if i < |st.entries| {
      EntryIsHolder(st, i);
      ViewChanges(st.views, v, Some(Binding(st.entries[i].ref.keyID, st.entries[i].storage)));
      RetainMatches(st.heap, Holders(st), st.entries[i].storage);
      assert Holders(st') == Holders(st) + multiset{st.entries[i].storage};
    }
  }

  lemma CopiesViewIsSafe(st: Store, from: nat, to: nat)
    requires Safe(st) && Enabled(st, CopiesView(from, to))
    ensures Succeeds(st, CopiesView(from, to))
  {
    hide Total, HeapMatches, UniqueRefs, Retain;
    var st' := Take(st, CopiesView(from, to));
    var s := st.views[from].value.storage;
    ViewIsHolder(st, from);
    ViewChanges(st.views, to, st.views[from]);
    RetainMatches(st.heap, Holders(st), s);
    assert Holders(st') == Holders(st) + multiset{s};
  }

  lemma DropsViewIsSafe(st: Store, v: nat)
    requires Safe(st) && Enabled(st, DropsView(v))
    ensures Succeeds(st, DropsView(v))
  {
    hide Total, HeapMatches, UniqueRefs, Release;
    var st' := Take(st, DropsView(v));
    var s := st.views[v].value.storage;
    ViewIsHolder(st, v);
    ViewChanges(st.views, v, None);
    ReleaseMatches(st.heap, Holders(st), s);
    assert Holders(st') == Holders(st) - multiset{s};
  }

  lemma TakeIsSafe(st: Store, step: Step)
    requires Safe(st) && Enabled(st, step)
    ensures Safe(Take(st, step)) && Holders(Take(st, step)) == HoldersAfter(st, step)
  {
    hide Safe, Take, Holders, HoldersAfter;
    match step
    case AddAllocates(t, ref, key, canAllocate) => AddAllocatesIsSafe(st, t, ref, key, canAllocate);
    case AddPublishes(t, canGrow) => AddPublishesIsSafe(st, t, canGrow);
    case Removes(ref) => RemovesIsSafe(st, ref);
    case ClearSwaps(t) => ClearSwapsIsSafe(st, t);
    case ClearReleases(t) => ClearReleasesIsSafe(st, t);
    case GetsKey(v, ref) => GetsKeyIsSafe(st, v, ref);
    case CopiesView(from, to) => CopiesViewIsSafe(st, from, to);
    case DropsView(v) => DropsViewIsSafe(st, v);
  }

  // ----- Runs -----

  /** An interleaving: a step that is not enabled waits, that is, changes nothing. */
  function Interleave(st: Store, steps: seq<Step>): Store {
    if steps == [] then st
    else
      var mid := Interleave(st, steps[..|steps| - 1]);
      if Enabled(mid, steps[|steps| - 1]) then Take(mid, steps[|steps| - 1]) else mid
  }

  /** A provider nobody has used yet, with `threads` threads and `views` empty views around it. */
  function Unused(threads: nat, views: nat): Store {
    Store([], [], seq(views, i => None), seq(threads, i => Idle))
  }

  lemma {:induction false} NothingHeld(threads: nat, views: nat)
    ensures Total(seq(views, i => None), HeldByView) == multiset{}
    ensures Total(seq(threads, i => Idle), HeldByLocal) == multiset{}
    decreases threads + views
  {
    if views > 0 {
      NothingHeld(threads, views - 1);
      var empty: seq<Option<Binding>> := seq(views, i => None);
      assert empty[..views - 1] == seq(views - 1, i => None);
    }
    if threads > 0 {
      NothingHeld(threads - 1, views);
      var idle: seq<Local> := seq(threads, i => Idle);
      assert idle[..threads - 1] == seq(threads - 1, i => Idle);
    }
  }

  lemma {:induction false} InterleaveIsSafe(st: Store, steps: seq<Step>)
    requires Safe(st)
    ensures Safe(Interleave(st, steps))
  {
    if steps != [] {
      hide Safe, Take, Enabled;
      InterleaveIsSafe(st, steps[..|steps| - 1]);
      var mid := Interleave(st, steps[..|steps| - 1]);
      if Enabled(mid, steps[|steps| - 1]) {
        TakeIsSafe(mid, steps[|steps| - 1]);
      }
    }
  }

  lemma TakeKeepsGiven(st: Store, step: Step, s: nat)
    requires Enabled(st, step) && s < |st.heap|
    ensures s < |Take(st, step).heap| && Take(st, step).heap[s].given == st.heap[s].given
  {
    hide Published, Without, Storages;
  }

  lemma {:induction false} InterleaveKeepsGiven(st: Store, steps: seq<Step>, s: nat)
    requires s < |st.heap|
    ensures s < |Interleave(st, steps).heap| && Interleave(st, steps).heap[s].given == st.heap[s].given
  {
    if steps != [] {
      hide Take, Enabled;
      InterleaveKeepsGiven(st, steps[..|steps| - 1], s);
      var mid := Interleave(st, steps[..|steps| - 1]);
      if Enabled(mid, steps[|steps| - 1]) {
        TakeKeepsGiven(mid, steps[|steps| - 1], s);
      }
    }
  }

  // ----- Where storage comes from -----

  /** What a caller of Add asked for. */
  datatype Request = Request(ref: KeyRef, key: seq<byte>)

  /** The storage of a run, one request for each: the arguments of the accepted Add calls, in order. */
  function Births(st: Store, steps: seq<Step>): seq<Request> {
    if steps == [] then []
    else
      var init, last := steps[..|steps| - 1], steps[|steps| - 1];
      Births(st, init) + if Enabled(Interleave(st, init), last) then Born(last) else []
  }

  function Born(step: Step): seq<Request> {
    if step.AddAllocates? && Acceptable(step.ref, step.key, step.canAllocate) then [Request(step.ref, step.key.bytes)] else []
  }

  /** The storage `s` serves the reference `ref`. */
  predicate Serves(births: seq<Request>, s: nat, ref: KeyRef) {
    s < |births| && births[s].ref == ref
  }

  /** Storage `s` was given the bytes of request `s`, and entries, views and adding threads hold it for its reference only. */
  ghost predicate BornFrom(st: Store, births: seq<Request>) {
    GivenBy(st.heap, births) && EntriesServe(st.entries, births) && ViewsServe(st.views, births) && LocalsServe(st.locals, births)
  }

  ghost predicate GivenBy(heap: seq<Storage>, births: seq<Request>) {
    |heap| == |births| && forall s :: 0 <= s < |births| ==> heap[s].given == births[s].key
  }

  ghost predicate EntriesServe(entries: seq<Entry<nat>>, births: seq<Request>) {
    forall i :: 0 <= i < |entries| ==> Serves(births, entries[i].storage, entries[i].ref)
  }

  ghost predicate ViewsServe(views: seq<Option<Binding>>, births: seq<Request>) {
    forall v :: 0 <= v < |views| && views[v].Some? ==> ViewServes(births, views[v].value)
  }

  ghost predicate LocalsServe(locals: seq<Local>, births: seq<Request>) {
    forall t :: 0 <= t < |locals| && locals[t].Adding? ==> Serves(births, locals[t].storage, locals[t].ref)
  }

  predicate ViewServes(births: seq<Request>, view: Binding) {
    view.storage < |births| && births[view.storage].ref.keyID == view.keyID
  }

  lemma TakeGives(st: Store, step: Step, births: seq<Request>)
    requires Enabled(st, step) && GivenBy(st.heap, births)
    ensures GivenBy(Take(st, step).heap, births + Born(step))
  {
    hide Published, Without, Storages, FindEntry;
  }

  lemma TakeServesEntries(st: Store, step: Step, births: seq<Request>)
    requires Enabled(st, step) && EntriesServe(st.entries, births) && LocalsServe(st.locals, births)
    ensures EntriesServe(Take(st, step).entries, births + Born(step))
  {
    hide Published, Retain, Release;
    if step.AddPublishes? {
      PublishedFrom(st.entries, st.locals[step.thread].ref, st.locals[step.thread].storage);
    }
  }

  lemma TakeServesViews(st: Store, step: Step, births: seq<Request>)
    requires Enabled(st, step) && EntriesServe(st.entries, births) && ViewsServe(st.views, births)
    ensures ViewsServe(Take(st, step).views, births + Born(step))
  {
    hide Published, Without, Storages, Retain, Release;
  }

  lemma TakeServesLocals(st: Store, step: Step, births: seq<Request>)
    requires Enabled(st, step) && |st.heap| == |births| && LocalsServe(st.locals, births)
    ensures LocalsServe(Take(st, step).locals, births + Born(step))
  {
    hide Published, Without, Storages, Retain, Release;
  }

  lemma TakeKeepsBirths(st: Store, step: Step, births: seq<Request>)
    requires Enabled(st, step) && BornFrom(st, births)
    ensures BornFrom(Take(st, step), births + Born(step))
  {
    hide Take, Enabled, EntriesServe, ViewsServe, LocalsServe;
    TakeGives(st, step, births);
    TakeServesEntries(st, step, births);
    TakeServesViews(st, step, births);
    TakeServesLocals(st, step, births);
  }

  /** Every published entry is a former one or the new one. */
  lemma PublishedFrom(entries: seq<Entry<nat>>, ref: KeyRef, s: nat)
    ensures forall i :: 0 <= i < |Published(entries, ref, s)| ==>
      Published(entries, ref, s)[i] == Entry(ref, s) || (i < |entries| && Published(entries, ref, s)[i] == entries[i])
  {
  }

  lemma {:induction false} RunKeepsBirths(threads: nat, views: nat, steps: seq<Step>)
    ensures BornFrom(Interleave(Unused(threads, views), steps), Births(Unused(threads, views), steps))
  {
    if steps != [] {
      hide Take, Enabled, BornFrom;
      var mid := Interleave(Unused(threads, views), steps[..|steps| - 1]);
      var births := Births(Unused(threads, views), steps[..|steps| - 1]);
      RunKeepsBirths(threads, views, steps[..|steps| - 1]);
      if Enabled(mid, steps[|steps| - 1]) {
        TakeKeepsBirths(mid, steps[|steps| - 1], births);
      } else {
        assert births + [] == births;
      }
    }
  }

  /** Step `k` of the run takes place and brings storage `s` into being. */
  ghost predicate Creates(st: Store, steps: seq<Step>, k: nat, s: nat) {
    k < |steps| &&
    var before := Interleave(st, steps[..k]);
    Enabled(before, steps[k]) && |before.heap| == s && |Take(before, steps[k]).heap| == s + 1
  }

  lemma HeapNeverShrinks(st: Store, step: Step)
    requires Enabled(st, step)
    ensures |st.heap| <= |Take(st, step).heap|
  {
  }

  lemma {:induction false} HeapGrows(st: Store, steps: seq<Step>, k: nat)
    requires k <= |steps|
    ensures |Interleave(st, steps[..k]).heap| <= |Interleave(st, steps).heap|
  {
    if k == |steps| {
      assert steps[..k] == steps;
    } else {
      hide Take, Enabled;
      var init, last := steps[..|steps| - 1], steps[|steps| - 1];
      HeapGrows(st, init, k);
      assert init[..k] == steps[..k];
      if Enabled(Interleave(st, init), last) {
        HeapNeverShrinks(Interleave(st, init), last);
      }
    }
  }

  lemma CreationGrows(st: Store, steps: seq<Step>, k: nat, s: nat)
    requires Creates(st, steps, k, s)
    ensures |Interleave(st, steps[..k + 1]).heap| == s + 1
  {
    hide Take, Enabled;
    assert steps[..k + 1][..k] == steps[..k];
  }

  lemma CreationLasts(st: Store, steps: seq<Step>, j: nat, k: nat, s: nat)
    requires Creates(st, steps, j, s) && j < k <= |steps|
    ensures |Interleave(st, steps[..k]).heap| > s
  {
    hide Take, Enabled;
    CreationGrows(st, steps, j, s);
    HeapGrows(st, steps[..k], j + 1);
    assert steps[..k][..j + 1] == steps[..j + 1];
  }

  lemma CreatedOnce(st: Store, steps: seq<Step>, j: nat, k: nat, s: nat)
    requires Creates(st, steps, j, s) && Creates(st, steps, k, s)
    ensures j == k
  {
    hide Take, Enabled, Interleave;
    if j < k {
      CreationLasts(st, steps, j, k, s);
    } else if k < j {
      CreationLasts(st, steps, k, j, s);
    }
  }

  /** The one step that created a storage, and what its caller asked for. */
  ghost predicate IsOrigin(st: Store, steps: seq<Step>, k: nat, s: nat) {
    Creates(st, steps, k, s) && steps[k].AddAllocates? && steps[k].key.Span? &&
    forall j :: Creates(st, steps, j, s) ==> j == k
  }

  lemma {:induction false} BornAtStep(threads: nat, views: nat, steps: seq<Step>, s: nat) returns (k: nat)
    requires s < |Births(Unused(threads, views), steps)|
    ensures Creates(Unused(threads, views), steps, k, s) && steps[k].AddAllocates? && steps[k].key.Span?
    ensures Births(Unused(threads, views), steps)[s] == Request(steps[k].ref, steps[k].key.bytes)
  {
    hide Interleave, Enabled, Perform;
    var st, n := Unused(threads, views), |steps| - 1;
    if s < |Births(st, steps[..n])| {
      k := BornAtStep(threads, views, steps[..n], s);
      assert steps[..n][..k] == steps[..k] && steps[..n][k] == steps[k];
    } else {
      k := n;
      RunKeepsBirths(threads, views, steps[..n]);
      TakeKeepsBirths(Interleave(st, steps[..n]), steps[n], Births(st, steps[..n]));
    }
  }

  /**
   Every storage of a run was created by exactly one step, the first section of an Add call; it was
   given that call's bytes, and every entry and view that holds it holds it for that call's key.
   */
  lemma StorageHasOneOrigin(threads: nat, views: nat, steps: seq<Step>, s: nat) returns (k: nat)
    requires s < |Interleave(Unused(threads, views), steps).heap|
    ensures IsOrigin(Unused(threads, views), steps, k, s)
    ensures var st := Interleave(Unused(threads, views), steps);
            st.heap[s].given == steps[k].key.bytes &&
            (forall e :: e in st.entries && e.storage == s ==> e.ref == steps[k].ref) &&
            forall v :: 0 <= v < |st.views| && st.views[v].Some? && st.views[v].value.storage == s ==>
              st.views[v].value.keyID == steps[k].ref.keyID
  {
    hide Interleave, Births, Creates;
    RunKeepsBirths(threads, views, steps);
    k := BornAtStep(threads, views, steps, s);
    forall j | Creates(Unused(threads, views), steps, j, s)
      ensures j == k
    {
      CreatedOnce(Unused(threads, views), steps, j, k, s);
    }
  }

  /**
   Erase on last release: in every interleaving, storage has been overwritten and destroyed if and
   only if no entry, view or in-flight local holds it; until then its bytes are those given to the
   one Add call that created it.
   */
  lemma ErasedIffUnheld(threads: nat, views: nat, steps: seq<Step>, s: nat) returns (k: nat)
    requires s < |Interleave(Unused(threads, views), steps).heap|
    ensures IsOrigin(Unused(threads, views), steps, k, s)
    ensures var st := Interleave(Unused(threads, views), steps);
            (st.heap[s].destroyed <==> s !in Holders(st)) &&
            st.heap[s].bytes == if s in Holders(st) then steps[k].key.bytes else Zeros(|steps[k].key.bytes|)
  {
    hide Interleave, IsOrigin;
    UnusedIsSafe(threads, views);
    InterleaveIsSafe(Unused(threads, views), steps);
    k := StorageHasOneOrigin(threads, views, steps, s);
  }

  lemma UnusedIsSafe(threads: nat, views: nat)
    ensures Safe(Unused(threads, views))
  {
    NothingHeld(threads, views);
  }

  lemma {:induction false} NoViewsHold(views: seq<Option<Binding>>)
    requires forall v :: 0 <= v < |views| ==> views[v].None?
    ensures Total(views, HeldByView) == multiset{}
  {
    if views != [] {
      NoViewsHold(views[..|views| - 1]);
    }
  }

  lemma {:induction false} IdleHoldsNothing(locals: seq<Local>)
    requires forall t :: 0 <= t < |locals| ==> locals[t].Idle?
    ensures Total(locals, HeldByLocal) == multiset{}
  {
    if locals != [] {
      IdleHoldsNothing(locals[..|locals| - 1]);
    }
  }

  /** When all keys are removed, all views dropped and all calls finished, no key byte is left in memory. */
  lemma NothingIsLeft(threads: nat, views: nat, steps: seq<Step>)
    requires var st := Interleave(Unused(threads, views), steps);
             st.entries == [] && (forall v :: 0 <= v < |st.views| ==> st.views[v].None?) &&
             forall t :: 0 <= t < |st.locals| ==> st.locals[t].Idle?
    ensures forall storage :: storage in Interleave(Unused(threads, views), steps).heap ==>
              storage.destroyed && storage.bytes == Zeros(|storage.bytes|)
  {
    hide Interleave, Unused, Total;
    var st := Interleave(Unused(threads, views), steps);
    NoEntriesHoldNothing();
    NoViewsHold(st.views);
    IdleHoldsNothing(st.locals);
    forall s | 0 <= s < |st.heap|
      ensures st.heap[s].destroyed && st.heap[s].bytes == Zeros(|st.heap[s].bytes|)
    {
      var k := ErasedIffUnheld(threads, views, steps, s);
    }
  }

  /** Dropping a view empties it, and erases its storage if nothing else holds it. */
  lemma LastDropErases(st: Store, v: nat)
    requires Safe(st) && Enabled(st, DropsView(v))
    ensures var s, st' := st.views[v].value.storage, Take(st, DropsView(v));
            st'.views == st.views[v := None] && s < |st'.heap| &&
            (st'.heap[s].destroyed <==> Holders(st)[s] == 1) &&
            (st'.heap[s].destroyed ==> st'.heap[s].bytes == Zeros(|st.heap[s].bytes|))
  {
    hide Holders;
    TakeIsSafe(st, DropsView(v));
    ViewIsLive(st, v);
  }

  function Releases(t: nat, n: nat): (steps: seq<Step>)
    ensures |steps| == n
  {
    seq(n, i => ClearReleases(t))
  }

  lemma {:induction false} ReleasesOneByOne(st: Store, t: nat, n: nat)
    requires Safe(st) && t < |st.locals| && st.locals[t].Clearing? && n <= |st.locals[t].removed|
    ensures var st', removed := Interleave(st, Releases(t, n)), st.locals[t].removed;
            Safe(st') && t < |st'.locals| && st'.locals[t] == Clearing(removed[n..]) &&
            Holders(st') == Holders(st) - multiset(removed[..n])
  {
    hide Safe, Holders;
    var removed := st.locals[t].removed;
    if n > 0 {
      ReleasesOneByOne(st, t, n - 1);
      assert Releases(t, n)[..n - 1] == Releases(t, n - 1);
      var mid := Interleave(st, Releases(t, n - 1));
      TakeIsSafe(mid, ClearReleases(t));
      assert removed[..n] == removed[..n - 1] + [removed[n - 1]];
    }
  }

  /** A thread that cleared the provider gives up every storage it took out, and is done. */
  lemma ClearFinishes(st: Store, t: nat)
    requires Safe(st) && t < |st.locals| && st.locals[t].Clearing?
    ensures var removed := st.locals[t].removed;
            var st' := Interleave(st, Releases(t, |removed| + 1));
            Safe(st') && t < |st'.locals| && st'.locals[t] == Idle && Holders(st') == Holders(st) - multiset(removed)
  {
    hide Safe, Holders, Release, Retain;
    var removed := st.locals[t].removed;
    var n := |removed|;
    ReleasesOneByOne(st, t, n);
    assert Releases(t, n + 1)[..n] == Releases(t, n);
    assert removed[..n] == removed;
    var mid := Interleave(st, Releases(t, n));
    TakeIsSafe(mid, ClearReleases(t));
  }

  lemma TakeKeepsView(st: Store, step: Step, v: nat)
    requires Enabled(st, step) && step != DropsView(v)
    requires v < |st.views| && st.views[v].Some?
    ensures v < |Take(st, step).views| && Take(st, step).views[v] == st.views[v]
  {
  }

  /** Only dropping a view changes it. */
  lemma {:induction false} ViewStays(st: Store, more: seq<Step>, v: nat)
    requires v < |st.views| && st.views[v].Some?
    requires DropsView(v) !in more
    ensures v < |Interleave(st, more).views| && Interleave(st, more).views[v] == st.views[v]
  {
    if more != [] {
      hide Take, Enabled;
      var mid := Interleave(st, more[..|more| - 1]);
      ViewStays(st, more[..|more| - 1], v);
      if Enabled(mid, more[|more| - 1]) {
        TakeKeepsView(mid, more[|more| - 1], v);
      }
    }
  }

  lemma {:induction false} InterleaveThen(st: Store, steps: seq<Step>, more: seq<Step>)
    ensures Interleave(st, steps + more) == Interleave(Interleave(st, steps), more)
  {
    if more == [] {
      assert steps + more == steps;
    } else {
      hide Interleave, Take, Perform, Enabled;
      var init, last := more[..|more| - 1], more[|more| - 1];
      InterleaveThen(st, steps, init);
      assert more == init + [last] && steps + more == (steps + init) + [last];
      OneMoreStep(st, steps + init, last);
      OneMoreStep(Interleave(st, steps), init, last);
    }
  }

  lemma ViewIsLive(st: Store, v: nat)
    requires Safe(st) && v < |st.views| && st.views[v].Some?
    ensures var s := st.views[v].value.storage;
            s < |st.heap| && s in Holders(st) && !st.heap[s].destroyed && st.heap[s].bytes == st.heap[s].given
  {
    hide Total;
    ViewIsHolder(st, v);
  }

  /**
   Snapshot stability: a view that is bound at some point of a run stays bound as it is, whatever
   steps any threads take, until the view itself is dropped. All that time it reads the bytes, and
   carries the key ID, that were given to the one Add call that created its storage.
   */
  lemma SnapshotIsStable(threads: nat, views: nat, steps: seq<Step>, more: seq<Step>, v: nat) returns (k: nat)
    requires v < |Interleave(Unused(threads, views), steps).views|
    requires Interleave(Unused(threads, views), steps).views[v].Some?
    requires DropsView(v) !in more
    ensures var st, st' := Interleave(Unused(threads, views), steps), Interleave(Unused(threads, views), steps + more);
            var s := st.views[v].value.storage;
            IsOrigin(Unused(threads, views), steps, k, s) &&
            v < |st'.views| && st'.views[v] == st.views[v] && st'.views[v].value.keyID == steps[k].ref.keyID &&
            s < |st.heap| && s < |st'.heap| && !st'.heap[s].destroyed &&
            st'.heap[s].bytes == st.heap[s].bytes == steps[k].key.bytes
  {
    hide Interleave, IsOrigin, Safe;
    var unused := Unused(threads, views);
    var st := Interleave(unused, steps);
    UnusedIsSafe(threads, views);
    InterleaveIsSafe(unused, steps);
    InterleaveIsSafe(unused, steps + more);
    InterleaveThen(unused, steps, more);
    ViewStays(st, more, v);
    ViewIsLive(st, v);
    ViewIsLive(Interleave(unused, steps + more), v);
    InterleaveKeepsGiven(st, more, st.views[v].value.storage);
    k := StorageHasOneOrigin(threads, views, steps, st.views[v].value.storage);
  }

  // ----- Linearization -----

  /** The operations of an atomic map from (key ID, algorithm) to bytes; a new key may find no room. */
  datatype MapStep =
    | Put(ref: KeyRef, key: seq<byte>, canGrow: bool)
    | Refuse
    | Delete(ref: KeyRef)
    | DeleteAll
    | Get(ref: KeyRef)
    | Skip

  function TakeMap(m: KeyTable, step: MapStep): KeyTable {
    match step
    case Put(ref, key, canGrow) => if ref in m || canGrow then m[ref := key] else m
    case Delete(ref) => m - {ref}
    case DeleteAll => map[]
    case _ => m
  }

  /** What the caller of the map learns. */
  function MapAnswer(m: KeyTable, step: MapStep): Answer {
    match step
    case Put(ref, _, canGrow) => Added(ref in m || canGrow)
    case Refuse => Added(false)
    case Delete(ref) => Removed(ref in m)
    case Get(ref) => if ref in m then Found(ref.keyID, m[ref]) else Missing
    case _ => Silent
  }

  /** What the Add call that thread `t` is in was asked, taken from the call itself. */
  function Pending(st: Store, steps: seq<Step>, t: nat): Option<Request> {
    if steps == [] then None
    else
      var init, last := steps[..|steps| - 1], steps[|steps| - 1];
      if !Enabled(Interleave(st, init), last) then Pending(st, init, t)
      else if last.AddAllocates? && last.thread == t && Born(last) != [] then Some(Born(last)[0])
      else if last.AddPublishes? && last.thread == t then None
      else Pending(st, init, t)
  }

  /** The map operation that takes effect in a section, in terms of what the callers asked. */
  function Atomic(step: Step, pending: Option<Request>): MapStep {
    match step
    case AddAllocates(_, ref, key, canAllocate) => if Acceptable(ref, key, canAllocate) then Skip else Refuse
    case AddPublishes(_, canGrow) => if pending.Some? then Put(pending.value.ref, pending.value.key, canGrow) else Skip
    case Removes(ref) => Delete(ref)
    case ClearSwaps(_) => DeleteAll
    case GetsKey(_, ref) => Get(ref)
    case _ => Skip
  }

  function ThreadOf(step: Step): nat {
    if step.AddPublishes? then step.thread else 0
  }

  function Lookup(st: Store, ref: KeyRef): Option<seq<byte>> {
    var stored := StoredAt(st.entries, ref);
    if stored.Some? && stored.value < |st.heap| then Some(st.heap[stored.value].bytes) else None
  }

  ghost predicate Agrees(st: Store, m: KeyTable) {
    forall ref :: Lookup(st, ref) == if ref in m then Some(m[ref]) else None
  }

  lemma EntryIsLive(st: Store, i: nat)
    requires Safe(st) && i < |st.entries|
    ensures var s := st.entries[i].storage; s < |st.heap| && st.heap[s].bytes == st.heap[s].given && |st.heap[s].given| > 0
  {
    hide Total;
    EntryIsHolder(st, i);
  }

  lemma LookupIsGiven(st: Store, ref: KeyRef)
    requires Safe(st)
    ensures var stored := StoredAt(st.entries, ref);
            (stored.None? ==> Lookup(st, ref) == None) &&
            (stored.Some? ==> stored.value < |st.heap| && Lookup(st, ref) == Some(st.heap[stored.value].given))
  {
    hide Safe;
    var i := FindEntry(st.entries, ref);
    if i < |st.entries| {
      EntryIsLive(st, i);
    }
  }

  /** The thread that is about to publish holds storage with the bytes of its pending request, under its reference. */
  ghost predicate PublishesPending(st: Store, step: Step, pending: Option<Request>) {
    step.AddPublishes? && step.thread < |st.locals| && st.locals[step.thread].Adding? ==>
      var Adding(ref, s) := st.locals[step.thread];
      s < |st.heap| && pending == Some(Request(ref, st.heap[s].given))
  }

  /** What the entry list stores after a section is what the map operation makes of it. */
  lemma TakeStores(st: Store, step: Step, pending: Option<Request>, other: KeyRef)
    requires Safe(st) && Enabled(st, step) && PublishesPending(st, step, pending)
    ensures var before, after := StoredAt(st.entries, other), StoredAt(Take(st, step).entries, other);
            match Atomic(step, pending)
            case Put(ref, key, canGrow) =>
              if other == ref && (before.Some? || canGrow)
              then after.Some? && after.value < |st.heap| && st.heap[after.value].given == key else after == before
            case Delete(ref) => after == if other == ref then None else before
            case DeleteAll => after == None
            case _ => after == before
  {
    hide Safe, Retain, Release, UniqueRefs;
    UniqueInSafe(st);
    if step.AddPublishes? {
      PublishUpdates(st.entries, st.locals[step.thread].ref, st.locals[step.thread].storage, other);
    } else if step.Removes? && FindEntry(st.entries, step.ref) < |st.entries| {
      EraseRemoves(st.entries, step.ref, other);
    }
  }

  lemma UniqueInSafe(st: Store)
    requires Safe(st)
    ensures UniqueRefs(st.entries)
  {
  }

  lemma TakeAgrees(st: Store, step: Step, pending: Option<Request>, m: KeyTable)
    requires Safe(st) && Enabled(st, step) && PublishesPending(st, step, pending) && Agrees(st, m)
    ensures Agrees(Take(st, step), TakeMap(m, Atomic(step, pending)))
  {
    hide Safe, Take, Atomic, Lookup, StoredAt, PublishesPending;
    var st', m' := Take(st, step), TakeMap(m, Atomic(step, pending));
    TakeIsSafe(st, step);
    forall ref
      ensures Lookup(st', ref) == if ref in m' then Some(m'[ref]) else None
    {
      LookupIsGiven(st, ref);
      LookupIsGiven(st', ref);
      TakeStores(st, step, pending, ref);
      var stored := StoredAt(st'.entries, ref);
      if stored.Some? && stored.value < |st.heap| {
        TakeKeepsGiven(st, step, stored.value);
      }
    }
  }

  /** A reference is listed exactly when the map has it, and then with the map's bytes. */
  lemma ListedIffMapped(st: Store, m: KeyTable, ref: KeyRef)
    requires Safe(st) && Agrees(st, m)
    ensures FindEntry(st.entries, ref) < |st.entries| <==> ref in m
    ensures ref in m ==>
              var s := st.entries[FindEntry(st.entries, ref)].storage;
              s < |st.heap| && st.heap[s].bytes == m[ref] && m[ref] != []
  {
    hide Safe;
    assert Lookup(st, ref) == if ref in m then Some(m[ref]) else None;
    LookupIsGiven(st, ref);
    if FindEntry(st.entries, ref) < |st.entries| {
      EntryIsLive(st, FindEntry(st.entries, ref));
    }
  }

  /** Every section answers its caller as the map does: Add and Remove with their outcome, GetKey with key ID and bytes. */
  lemma AnswerAgrees(st: Store, step: Step, pending: Option<Request>, m: KeyTable)
    requires Safe(st) && Enabled(st, step) && PublishesPending(st, step, pending) && Agrees(st, m)
    ensures Perform(st, step).answer == MapAnswer(m, Atomic(step, pending))
  {
    hide Safe, Release, Retain, Agrees, Published, Without, Storages;
    match step
    case AddPublishes(t, _) => ListedIffMapped(st, m, st.locals[t].ref);
    case Removes(ref) => ListedIffMapped(st, m, ref);
    case GetsKey(_, ref) => ListedIffMapped(st, m, ref);
    case _ =>
  }

  /** What the callers of an interleaving really learn, section by section. */
  function Answers(st: Store, steps: seq<Step>): seq<Answer> {
    if steps == [] then []
    else
      var init, last := steps[..|steps| - 1], steps[|steps| - 1];
      var mid := Interleave(st, init);
      Answers(st, init) + [if Enabled(mid, last) then Perform(mid, last).answer else Silent]
  }

  /** The atomic operations of an interleaving, each at the section where it takes effect. */
  function LinearHistory(st: Store, steps: seq<Step>): (history: seq<MapStep>)
    ensures |history| == |steps|
  {
    if steps == [] then []
    else
      var init, last := steps[..|steps| - 1], steps[|steps| - 1];
      LinearHistory(st, init) +
      [if Enabled(Interleave(st, init), last) then Atomic(last, Pending(st, init, ThreadOf(last))) else Skip]
  }

  function RunMap(m: KeyTable, history: seq<MapStep>): KeyTable {
    if history == [] then m else TakeMap(RunMap(m, history[..|history| - 1]), history[|history| - 1])
  }

  function MapAnswers(m: KeyTable, history: seq<MapStep>): seq<Answer> {
    if history == [] then []
    else MapAnswers(m, history[..|history| - 1]) + [MapAnswer(RunMap(m, history[..|history| - 1]), history[|history| - 1])]
  }

  /** A thread between the sections of Add holds what its call asked for. */
  ghost predicate HoldsPending(st: Store, t: nat, pending: Option<Request>) {
    t < |st.locals| && st.locals[t].Adding? ==>
      st.locals[t].storage < |st.heap| &&
      pending == Some(Request(st.locals[t].ref, st.heap[st.locals[t].storage].given))
  }

  lemma TakeKeepsPending(st: Store, step: Step, t: nat, pending: Option<Request>)
    requires Enabled(st, step) && HoldsPending(st, t, pending)
    ensures HoldsPending(Take(st, step), t,
              if step.AddAllocates? && step.thread == t && Born(step) != [] then Some(Born(step)[0])
              else if step.AddPublishes? && step.thread == t then None else pending)
  {
    hide Published, Without, Storages;
  }

  lemma {:induction false} RunKeepsPending(threads: nat, views: nat, steps: seq<Step>, t: nat)
    ensures HoldsPending(Interleave(Unused(threads, views), steps), t, Pending(Unused(threads, views), steps, t))
  {
    if steps != [] {
      hide Take, Enabled, HoldsPending, Born;
      var init, last := steps[..|steps| - 1], steps[|steps| - 1];
      var mid := Interleave(Unused(threads, views), init);
      RunKeepsPending(threads, views, init, t);
      if Enabled(mid, last) {
        TakeKeepsPending(mid, last, t, Pending(Unused(threads, views), init, t));
      }
    }
  }

  /**
   Linearizability: in every interleaving of a provider's life, callers of Add, Remove and GetKey
   learn what they would learn from a sequential map from (key ID, algorithm) to bytes that runs
   one atomic operation per effective section, with the arguments the callers gave.
   */
  lemma {:induction false} LookupsLinearize(threads: nat, views: nat, steps: seq<Step>)
    ensures var unused := Unused(threads, views);
            Agrees(Interleave(unused, steps), RunMap(map[], LinearHistory(unused, steps))) &&
            Answers(unused, steps) == MapAnswers(map[], LinearHistory(unused, steps))
  {
    hide Take, Perform, Enabled, Safe, Agrees, Unused, Atomic, Pending, TakeMap, MapAnswer;
    UnusedAgrees(threads, views);
    if steps != [] {
      hide Interleave, Answers, LinearHistory, RunMap, MapAnswers;
      var init, last := steps[..|steps| - 1], steps[|steps| - 1];
      LookupsLinearize(threads, views, init);
      assert steps == init + [last];
      OneMoreLinearizes(threads, views, init, last);
    }
  }

  lemma OneMoreLinearizes(threads: nat, views: nat, init: seq<Step>, last: Step)
    requires var unused := Unused(threads, views);
             Agrees(Interleave(unused, init), RunMap(map[], LinearHistory(unused, init))) &&
             Answers(unused, init) == MapAnswers(map[], LinearHistory(unused, init))
    ensures var unused, steps := Unused(threads, views), init + [last];
            Agrees(Interleave(unused, steps), RunMap(map[], LinearHistory(unused, steps))) &&
            Answers(unused, steps) == MapAnswers(map[], LinearHistory(unused, steps))
  {
    hide Interleave, Answers, LinearHistory, RunMap, MapAnswers, Agrees, Unused, Safe, Take, Perform, Enabled,
         TakeMap, MapAnswer, Atomic, HoldsPending, PublishesPending, Pending;
    var unused := Unused(threads, views);
    var mid, history := Interleave(unused, init), LinearHistory(unused, init);
    var pending := Pending(unused, init, ThreadOf(last));
    OneMoreStep(unused, init, last);
    OneMoreOperation(history, if Enabled(mid, last) then Atomic(last, pending) else Skip);
    SkipIsSilent(RunMap(map[], history));
    if Enabled(mid, last) {
      UnusedIsSafe(threads, views);
      InterleaveIsSafe(unused, init);
      RunKeepsPending(threads, views, init, ThreadOf(last));
      PendingIsPublished(mid, last, pending);
      AnswerAgrees(mid, last, pending, RunMap(map[], history));
      TakeAgrees(mid, last, pending, RunMap(map[], history));
    }
  }

  lemma OneMoreStep(st: Store, init: seq<Step>, last: Step)
    ensures var mid := Interleave(st, init);
            Interleave(st, init + [last]) == (if Enabled(mid, last) then Take(mid, last) else mid) &&
            Answers(st, init + [last]) == Answers(st, init) + [if Enabled(mid, last) then Perform(mid, last).answer else Silent] &&
            LinearHistory(st, init + [last]) ==
              LinearHistory(st, init) + [if Enabled(mid, last) then Atomic(last, Pending(st, init, ThreadOf(last))) else Skip]
  {
    hide Take, Perform, Enabled, Atomic, Pending;
    assert (init + [last])[..|init|] == init;
  }

  lemma OneMoreOperation(history: seq<MapStep>, last: MapStep)
    ensures RunMap(map[], history + [last]) == TakeMap(RunMap(map[], history), last)
    ensures MapAnswers(map[], history + [last]) == MapAnswers(map[], history) + [MapAnswer(RunMap(map[], history), last)]
  {
    hide TakeMap, MapAnswer;
    assert (history + [last])[..|history|] == history;
  }

  lemma SkipIsSilent(m: KeyTable)
    ensures TakeMap(m, Skip) == m && MapAnswer(m, Skip) == Silent
  {
  }

  lemma PendingIsPublished(st: Store, step: Step, pending: Option<Request>)
    requires HoldsPending(st, ThreadOf(step), pending)
    ensures PublishesPending(st, step, pending)
  {
  }

  lemma UnusedAgrees(threads: nat, views: nat)
    ensures Safe(Unused(threads, views)) && Agrees(Unused(threads, views), map[])
  {
    NothingHeld(threads, views);
  }

  // ----- No zero key IDs -----

  ghost predicate LegalRefs(st: Store) {
    (forall i :: 0 <= i < |st.entries| ==> st.entries[i].ref.keyID != 0) &&
    forall t :: 0 <= t < |st.locals| && st.locals[t].Adding? ==> st.locals[t].ref.keyID != 0
  }

  /** The provider never resolves key ID zero, which receivers reject, nor an empty key. */
  lemma {:induction false} KeyIDsAreNeverZero(threads: nat, views: nat, steps: seq<Step>, ref: KeyRef)
    ensures LegalRefs(Interleave(Unused(threads, views), steps))
    ensures var found := Lookup(Interleave(Unused(threads, views), steps), ref);
            found.Some? ==> ref.keyID != 0 && |found.value| > 0
  {
    hide Take, Enabled, Safe, Lookup;
    UnusedAgrees(threads, views);
    InterleaveIsSafe(Unused(threads, views), steps);
    RefsStayLegal(Unused(threads, views), steps);
    LookupIsLegal(Interleave(Unused(threads, views), steps), ref);
  }

  lemma LookupIsLegal(st: Store, ref: KeyRef)
    requires Safe(st) && LegalRefs(st)
    ensures Lookup(st, ref).Some? ==> ref.keyID != 0 && |Lookup(st, ref).value| > 0
  {
    hide Safe;
    var i := FindEntry(st.entries, ref);
    if i < |st.entries| {
      EntryIsLive(st, i);
    }
  }

  lemma {:induction false} RefsStayLegal(st: Store, steps: seq<Step>)
    requires LegalRefs(st)
    ensures LegalRefs(Interleave(st, steps))
  {
    if steps != [] {
      hide Take, Enabled, LegalRefs;
      RefsStayLegal(st, steps[..|steps| - 1]);
      var mid := Interleave(st, steps[..|steps| - 1]);
      if Enabled(mid, steps[|steps| - 1]) {
        TakeKeepsLegal(mid, steps[|steps| - 1]);
      }
    }
  }

  lemma TakeKeepsLegal(st: Store, step: Step)
    requires LegalRefs(st) && Enabled(st, step)
    ensures LegalRefs(Take(st, step))
  {
    hide Release, Retain;
  }
}
