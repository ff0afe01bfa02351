/**
 * The consistency invariant of the page-streaming state machine and its
 * preservation by every step: no request is in flight twice, no slot is
 * claimed twice (by two loads, two table cells, or a load and a cell), and
 * every upload lands inside the atlas.
 */
module StreamingInvariant {
  import opened Wrappers
  import opened Permutations
  import opened Requests
  import opened Entries
  import opened Streaming

  /** The request and slot a queued upload carries. */
  function Ticket(e: PendingUpload): Dispatch {
    Dispatch(e.request, e.allocX, e.allocY)
  }

  function Tickets(q: seq<PendingUpload>): multiset<Dispatch>
    decreases |q|
  {
    if q == [] then multiset{} else Tickets(q[..|q| - 1]) + multiset{Ticket(q[|q| - 1])}
  }

  /** Every load that holds a slot: still loading, or loaded and queued. */
  function Claims(m: PageManager): multiset<Dispatch> {
    multiset(m.loads) + Tickets(m.uploadQueue)
  }

  /** Slot (x, y) lies in the grid and has already been handed out by `alloc_arr`. */
  predicate Handed(m: PageManager, x: int, y: int) {
    && InSlotGrid(x, y)
    && m.allocIdx <= |m.allocArr|
    && SlotIndex(x, y) in m.allocArr[..m.allocIdx]
  }

  /** A nonzero entry encodes a handed-out slot. */
  predicate ValidEntry(m: PageManager, e: bv32) {
    e == PackEntry(EntryX(e), EntryY(e)) && Handed(m, EntryX(e), EntryY(e))
  }

  predicate ClaimsSingle(m: PageManager) {
    forall d | d in Claims(m) :: Claims(m)[d] == 1
  }

  predicate ClaimsInFlight(m: PageManager) {
    forall d | d in Claims(m) :: d.request in m.processing && Handed(m, d.allocX, d.allocY)
  }

  predicate ClaimsSeparate(m: PageManager) {
    forall d, d' | d in Claims(m) && d' in Claims(m) && d != d' ::
      d.request != d'.request && SlotIndex(d.allocX, d.allocY) != SlotIndex(d'.allocX, d'.allocY)
  }

  predicate TableValid(m: PageManager) {
    forall c | c in m.table && m.table[c] != 0 :: ValidEntry(m, m.table[c])
  }

  predicate TableSeparate(m: PageManager) {
    forall c, c' | c in m.table && c' in m.table && c != c' && m.table[c] != 0 :: m.table[c] != m.table[c']
  }

  predicate TableClaimsSeparate(m: PageManager) {
    forall c, d | c in m.table && m.table[c] != 0 && d in Claims(m) :: m.table[c] != PackEntry(d.allocX, d.allocY)
  }

  predicate AtlasInside(m: PageManager) {
    forall u | u in m.atlas :: InsideAtlas(u)
  }

  predicate Inv(m: PageManager) {
    && Wf(m)
    && ClaimsSingle(m)
    && ClaimsInFlight(m)
    && ClaimsSeparate(m)
    && TableValid(m)
    && TableSeparate(m)
    && TableClaimsSeparate(m)
    && AtlasInside(m)
  }

  /** The constructor's state satisfies the invariant. */
  lemma InitialInv(m: PageManager)
    requires Wf(m) && m.allocIdx == 0 && m.table == map[]
    requires m.loads == [] && m.uploadQueue == [] && m.atlas == []
    ensures Inv(m)
  {
  }

  lemma PrefixFacts(s: seq<int>, k: nat)
    requires Distinct(s) && k < |s|
    ensures s[k] !in s[..k]
    ensures forall x | x in s[..k] :: x in s[..k + 1]
  {
    assert s[..k + 1] == s[..k] + [s[k]];
  }

  /** Slots in the grid with different indices have different entries. */
  lemma EntriesDiffer(x: int, y: int, x': int, y': int)
    requires InSlotGrid(x, y) && InSlotGrid(x', y')
    requires SlotIndex(x, y) != SlotIndex(x', y')
    ensures PackEntry(x, y) != PackEntry(x', y')
  {
    if PackEntry(x, y) == PackEntry(x', y') {
      PackEntryInjective(x, y, x', y');
    }
  }

  /** Dispatching one request (the body of the ingest loop) keeps the invariant. */
  lemma RequestKeepsInv(m: PageManager, q: PageRequest)
    requires Inv(m) && m.allocIdx < Slots
    requires Dispatchable(m.table, m.processing, q)
    ensures var d := RequestPage(m, q);
      Inv(m.(processing := m.processing + {q}, allocIdx := m.allocIdx + 1, loads := m.loads + [d]))
  {
    var d := RequestPage(m, q);
    var m1 := m.(processing := m.processing + {q}, allocIdx := m.allocIdx + 1, loads := m.loads + [d]);
    PrefixFacts(m.allocArr, m.allocIdx);
    assert Claims(m1) == Claims(m) + multiset{d};
    assert d !in Claims(m);
    forall x, y | Handed(m, x, y)
      ensures Handed(m1, x, y)
    {
    }
    assert Handed(m1, d.allocX, d.allocY);
    forall d' | d' in Claims(m)
      ensures d'.request != q && SlotIndex(d'.allocX, d'.allocY) != SlotIndex(d.allocX, d.allocY)
    {
    }
    assert ClaimsSeparate(m1);
    forall c | c in m1.table && m1.table[c] != 0
      ensures ValidEntry(m1, m1.table[c]) && m1.table[c] != PackEntry(d.allocX, d.allocY)
    {
      var e := m.table[c];
      EntriesDiffer(EntryX(e), EntryY(e), d.allocX, d.allocY);
    }
  }

  /** The ingest loop keeps the invariant. */
  lemma {:induction false} DispatchAllKeepsInv(m: PageManager, reqs: seq<PageRequest>)
    requires Inv(m)
    requires StrictlySorted(reqs)
    requires m.allocIdx + |Fresh(m.table, m.processing, reqs)| <= Slots
    ensures Inv(DispatchAll(m, reqs).0)
    decreases |reqs|
  {
    if reqs != [] {
      var q := reqs[0];
      assert q !in reqs[1..];
      FreshIgnoresAbsent(m.table, m.processing, q, reqs[1..]);
      if Dispatchable(m.table, m.processing, q) {
        RequestKeepsInv(m, q);
        var d := RequestPage(m, q);
        var m1 := m.(processing := m.processing + {q}, allocIdx := m.allocIdx + 1, loads := m.loads + [d]);
        DispatchAllKeepsInv(m1, reqs[1..]);
      } else {
        DispatchAllKeepsInv(m, reqs[1..]);
      }
    }
  }

  lemma IngestKeepsInv(m: PageManager, buf: seq<bv32>)
    requires Inv(m)
    requires m.allocIdx + DispatchCount(m, buf) <= Slots
    ensures Inv(IngestFeedback(m, buf).0)
  {
    DispatchAllKeepsInv(m, DecodeFeedback(buf));
  }

  /**
   * Losing or rearranging claims, with nothing else changing, keeps the
   * invariant.
   */
  lemma FewerClaimsKeepInv(m: PageManager, m': PageManager)
    requires Inv(m)
    requires m'.table == m.table && m'.processing == m.processing && m'.atlas == m.atlas
    requires m'.allocArr == m.allocArr && m'.allocIdx == m.allocIdx
    requires Claims(m') <= Claims(m)
    ensures Inv(m')
  {
    forall d | d in Claims(m')
      ensures d in Claims(m) && Claims(m')[d] <= Claims(m)[d]
    {
    }
  }

  lemma TicketsAppend(q: seq<PendingUpload>, e: PendingUpload)
    ensures Tickets(q + [e]) == Tickets(q) + multiset{Ticket(e)}
  {
    assert (q + [e])[..|q|] == q;
  }

  /** A load completion, successful or not, keeps the invariant. */
  lemma CompleteKeepsInv(m: PageManager, i: nat, result: Option<Image>)
    requires Inv(m) && i < |m.loads|
    ensures Inv(Complete(m, i, result))
  {
    var m' := Complete(m, i, result);
    var d := m.loads[i];
    assert m.loads == m.loads[..i] + [d] + m.loads[i + 1..];
    assert multiset(m.loads) == multiset(m'.loads) + multiset{d};
    if result.Some? {
      TicketsAppend(m.uploadQueue, PendingUpload(d.request, d.allocX, d.allocY, result.value));
      assert Claims(m') == Claims(m);
    } else {
      assert Claims(m') <= Claims(m);
    }
    FewerClaimsKeepInv(m, m');
  }

  /** A failed load leaves its request in `processing` with no load left to clear it. */
  lemma FailedLoadIsStranded(m: PageManager, i: nat)
    requires Inv(m) && i < |m.loads|
    ensures var m', r := Complete(m, i, None), m.loads[i].request;
      r in m'.processing && forall d | d in Claims(m') :: d.request != r
  {
    var m' := Complete(m, i, None);
    var d := m.loads[i];
    assert m.loads == m.loads[..i] + [d] + m.loads[i + 1..];
    assert Claims(m) == Claims(m') + multiset{d};
    assert d in Claims(m);
    forall d' | d' in Claims(m')
      ensures d'.request != d.request
    {
      assert Claims(m)[d] == 1;
      assert d' != d;
    }
  }

  /** The queue record at the back is claimed once, by itself. */
  lemma BackClaim(m: PageManager)
    requires Inv(m) && m.uploadQueue != []
    ensures var t := Ticket(m.uploadQueue[|m.uploadQueue| - 1]);
      && Claims(m) == Claims(UploadBack(m)) + multiset{t}
      && t in Claims(m)
      && t !in Claims(UploadBack(m))
      && Handed(m, t.allocX, t.allocY)
      && forall c | c in m.table && m.table[c] != 0 :: m.table[c] != PackEntry(t.allocX, t.allocY)
  {
    var t := Ticket(m.uploadQueue[|m.uploadQueue| - 1]);
    assert Claims(m) == Claims(UploadBack(m)) + multiset{t};
    assert Claims(m)[t] == 1;
  }

  /** Handling the back record keeps the claims consistent. */
  lemma UploadBackKeepsClaims(m: PageManager)
    requires Inv(m) && m.uploadQueue != []
    ensures ClaimsSingle(UploadBack(m)) && ClaimsInFlight(UploadBack(m)) && ClaimsSeparate(UploadBack(m))
  {
    var e := m.uploadQueue[|m.uploadQueue| - 1];
    var m1 := UploadBack(m);
    BackClaim(m);
    forall d | d in Claims(m1)
      ensures d.request in m1.processing && Claims(m1)[d] == 1
    {
      assert d != Ticket(e);
    }
  }

  /** The entry written for the back record is valid and differs from every remaining claim's. */
  lemma BackEntry(m: PageManager)
    requires Inv(m) && m.uploadQueue != []
    ensures var e := m.uploadQueue[|m.uploadQueue| - 1];
      && UploadBack(m).table == m.table[CellOf(e.request) := PackEntry(e.allocX, e.allocY)]
      && ValidEntry(UploadBack(m), PackEntry(e.allocX, e.allocY))
      && forall d | d in Claims(UploadBack(m)) :: PackEntry(e.allocX, e.allocY) != PackEntry(d.allocX, d.allocY)
  {
    var e := m.uploadQueue[|m.uploadQueue| - 1];
    var m1 := UploadBack(m);
    BackClaim(m);
    assert Handed(m, e.allocX, e.allocY);
    PackEntryRoundTrip(e.allocX, e.allocY);
    forall d | d in Claims(m1)
      ensures PackEntry(e.allocX, e.allocY) != PackEntry(d.allocX, d.allocY)
    {
      assert d != Ticket(e);
      EntriesDiffer(e.allocX, e.allocY, d.allocX, d.allocY);
    }
  }

  lemma UploadBackKeepsTableValid(m: PageManager)
    requires Inv(m) && m.uploadQueue != []
    ensures TableValid(UploadBack(m))
  {
    BackEntry(m);
  }

  lemma UploadBackKeepsTableSeparate(m: PageManager)
    requires Inv(m) && m.uploadQueue != []
    ensures TableSeparate(UploadBack(m))
  {
    var e := m.uploadQueue[|m.uploadQueue| - 1];
    BackClaim(m);
    NewEntrySeparate(m.table, CellOf(e.request), PackEntry(e.allocX, e.allocY));
  }

  /** Writing an entry that no other cell holds keeps the cells' entries apart. */
  lemma NewEntrySeparate(t: Table, ce: Cell, pe: bv32)
    requires pe != 0
    requires forall c, c' | c in t && c' in t && c != c' && t[c] != 0 :: t[c] != t[c']
    requires forall c | c in t && c != ce && t[c] != 0 :: t[c] != pe
    ensures var t1 := t[ce := pe];
      forall c, c' | c in t1 && c' in t1 && c != c' && t1[c] != 0 :: t1[c] != t1[c']
  {
    var t1 := t[ce := pe];
    forall c, c' | c in t1 && c' in t1 && c != c' && t1[c] != 0
      ensures t1[c] != t1[c']
    {
      if c == ce {
        assert t1[c'] == t[c'];
      } else if c' == ce {
        assert t1[c] == t[c];
      } else {
        assert t1[c] == t[c] && t1[c'] == t[c'];
      }
    }
  }

  lemma UploadBackKeepsTableClaims(m: PageManager)
    requires Inv(m) && m.uploadQueue != []
    ensures TableClaimsSeparate(UploadBack(m))
  {
    var m1 := UploadBack(m);
    BackClaim(m);
    BackEntry(m);
    assert Claims(m1) <= Claims(m);
  }

  /** One iteration of the flush loop keeps the invariant. */
  lemma UploadBackKeepsInv(m: PageManager)
    requires Inv(m) && m.uploadQueue != []
    ensures Inv(UploadBack(m))
  {
    var e := m.uploadQueue[|m.uploadQueue| - 1];
    UploadBackKeepsClaims(m);
    UploadBackKeepsTableValid(m);
    UploadBackKeepsTableSeparate(m);
    UploadBackKeepsTableClaims(m);
    BackClaim(m);
    assert InsideAtlas(UploadRegion(e.allocX, e.allocY));
  }

  lemma {:induction false} FlushKeepsInv(m: PageManager)
    requires Inv(m)
    ensures Inv(FlushUploadQueue(m))
    decreases |m.uploadQueue|
  {
    if m.uploadQueue != [] {
      UploadBackKeepsInv(m);
      FlushKeepsInv(UploadBack(m));
    }
  }

  /** A flush leaves no claim in the queue: every remaining claim is a running load. */
  lemma FlushLeavesOnlyLoads(m: PageManager)
    ensures Claims(FlushUploadQueue(m)) == multiset(m.loads)
  {
  }
}

/**
 * The page manager as a transition system: frames ingest feedback and
 * flush, while loader callbacks complete in between in any order.
 */
module StreamingEvents {
  import opened Wrappers
  import opened Requests
  import opened Streaming
  import opened StreamingInvariant

  datatype Event =
    | Ingest(buf: seq<bv32>)
    | LoadDone(i: nat, result: Option<Image>)
    | Flush

  /** The event can happen without overrunning `alloc_arr` or naming a missing load. */
  predicate Enabled(m: PageManager, ev: Event) {
    match ev
    case Ingest(buf) => m.allocIdx + DispatchCount(m, buf) <= Slots
    case LoadDone(i, _) => i < |m.loads|
    case Flush => true
  }

  function Step(m: PageManager, ev: Event): (m': PageManager)
    requires Wf(m) && Enabled(m, ev)
    ensures Wf(m')
  {
    match ev
    case Ingest(buf) => IngestFeedback(m, buf).0
    case LoadDone(i, result) => Complete(m, i, result)
    case Flush => FlushUploadQueue(m)
  }

  /** Every step keeps the invariant. */
  lemma StepKeepsInv(m: PageManager, ev: Event)
    requires Inv(m) && Enabled(m, ev)
    ensures Inv(Step(m, ev))
  {
    match ev
    case Ingest(buf) => IngestKeepsInv(m, buf);
    case LoadDone(i, result) => CompleteKeepsInv(m, i, result);
    case Flush => FlushKeepsInv(m);
  }

  /** Run a sequence of events; `None` when one of them is not enabled. */
  function Replay(m: PageManager, evs: seq<Event>): (r: Option<PageManager>)
    requires Wf(m)
    ensures r.Some? ==> Wf(r.value)
    decreases |evs|
  {
    if evs == [] then Some(m)
    else if Enabled(m, evs[0]) then Replay(Step(m, evs[0]), evs[1..])
    else None
  }

  /** The invariant holds after every run of events from a state that has it. */
  lemma {:induction false} ReplayKeepsInv(m: PageManager, evs: seq<Event>)
    requires Inv(m)
    ensures Replay(m, evs).Some? ==> Inv(Replay(m, evs).value)
    decreases |evs|
  {
    if evs != [] && Enabled(m, evs[0]) {
      StepKeepsInv(m, evs[0]);
      ReplayKeepsInv(Step(m, evs[0]), evs[1..]);
    }
  }

  /** `r` is in flight but no load or queued upload will ever clear it. */
  predicate Stranded(m: PageManager, r: PageRequest) {
    r in m.processing && forall d | d in Claims(m) :: d.request != r
  }

  lemma {:induction false} TicketsHoldQueue(q: seq<PendingUpload>)
    ensures forall e | e in q :: Ticket(e) in Tickets(q)
    decreases |q|
  {
    if q != [] {
      TicketsHoldQueue(q[..|q| - 1]);
      forall e | e in q
        ensures Ticket(e) in Tickets(q)
      {
        if e != q[|q| - 1] {
          assert e in q[..|q| - 1];
        }
      }
    }
  }

  /** A stranded request stays stranded whatever happens next. */
  lemma StepKeepsStranded(m: PageManager, ev: Event, r: PageRequest)
    requires Inv(m) && Enabled(m, ev)
    requires Stranded(m, r)
    ensures Stranded(Step(m, ev), r)
  {
    match ev
    case Ingest(buf) =>
    case LoadDone(i, result) =>
      var d := m.loads[i];
      assert m.loads == m.loads[..i] + [d] + m.loads[i + 1..];
      if result.Some? {
        TicketsAppend(m.uploadQueue, PendingUpload(d.request, d.allocX, d.allocY, result.value));
      }
      assert Claims(Step(m, ev)) <= Claims(m);
    case Flush =>
      TicketsHoldQueue(m.uploadQueue);
      assert r !in QueuedRequests(m.uploadQueue);
  }

  /**
   * A failed load strands its request for good: it stays in `processing`,
   * so no later feedback ever dispatches it again.
   */
  lemma {:induction false} FailedLoadNeverRetried(m: PageManager, evs: seq<Event>, r: PageRequest)
    requires Inv(m) && Stranded(m, r)
    ensures Replay(m, evs).Some? ==> Stranded(Replay(m, evs).value, r)
    decreases |evs|
  {
    if evs != [] && Enabled(m, evs[0]) {
      StepKeepsStranded(m, evs[0], r);
      StepKeepsInv(m, evs[0]);
      FailedLoadNeverRetried(Step(m, evs[0]), evs[1..], r);
    }
  }

  /** A stranded request is never among the loads an ingest dispatches. */
  lemma StrandedNotDispatched(m: PageManager, buf: seq<bv32>, r: PageRequest)
    requires Wf(m) && m.allocIdx + DispatchCount(m, buf) <= Slots
    requires r in m.processing
    ensures r !in RequestsOf(IngestFeedback(m, buf).1)
  {
  }
}
