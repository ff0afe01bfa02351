/**
 * The frame-thread page-streaming state machine (`PageManager`): feedback
 * ingestion, load dispatch, load completion and the per-frame upload flush,
 * as pure steps over an immutable state record.
 */
module Streaming {
  import opened Wrappers
  import opened Permutations
  import opened Requests
  import opened Entries

  /** Number of physical slots in the atlas (`pages_x * pages_y`). */
  const Slots: nat := 16

  /** Decoded pixel data of one page; its contents are opaque here. */
  datatype Image = Image(pixels: seq<bv8>)

  /** What a load-completion callback captures: the request and its slot. */
  datatype Dispatch = Dispatch(request: PageRequest, allocX: int, allocY: int)

  /** `PendingUpload`: a loaded page waiting for the next flush. */
  datatype PendingUpload = PendingUpload(request: PageRequest, allocX: int, allocY: int, image: Image)

  /**
   * The manager's state. `loads` stands for the loader: the dispatched loads
   * whose callbacks have not run yet. `atlas` logs the `atlas.Update` calls.
   */
  datatype PageManager = PageManager(
    table: Table,
    processing: set<PageRequest>,
    allocArr: seq<int>,
    allocIdx: nat,
    uploadQueue: seq<PendingUpload>,
    loads: seq<Dispatch>,
    atlas: seq<AtlasWrite>)

  /** What the constructor establishes about the slot permutation. */
  predicate Wf(m: PageManager) {
    IsPermutation(m.allocArr, Slots) && m.allocIdx <= Slots
  }

  /** Row-major slot index of slot (x, y). */
  function SlotIndex(x: int, y: int): int {
    y * PagesX + x
  }

  predicate InSlotGrid(x: int, y: int) {
    0 <= x < PagesX && 0 <= y < PagesY
  }

  /** In the grid, distinct slots have distinct indices and so distinct atlas pages. */
  lemma SlotIndexSeparates(ax: int, ay: int, sx: int, sy: int)
    requires InSlotGrid(ax, ay) && InSlotGrid(sx, sy)
    ensures SlotIndex(ax, ay) == SlotIndex(sx, sy) <==> ax == sx && ay == sy
    ensures SlotIndex(ax, ay) != SlotIndex(sx, sy) ==>
      Disjoint(UploadRegion(ax, ay), UploadRegion(sx, sy))
  {
    if SlotIndex(ax, ay) != SlotIndex(sx, sy) {
      UploadRegionsDisjoint(ax, ay, sx, sy);
    }
  }

  /** The cell of the page table a request's entry lives in (its lod is ignored). */
  function CellOf(r: PageRequest): Cell {
    Cell(r.x, r.y)
  }

  /**
   * Constructor: an empty table, nothing in flight and the slot indices
   * 0 .. 15 shuffled with the given random draws.
   */
  method NewPageManager(draws: seq<nat>) returns (m: PageManager)
    requires |draws| == Slots
    requires forall i | 0 <= i < Slots :: draws[i] <= i
    ensures Wf(m)
    ensures m.allocIdx == 0 && m.processing == {} && m.table == map[]
    ensures m.uploadQueue == [] && m.loads == [] && m.atlas == []
  {
    var ident := Iota(Slots);
    IotaIsPermutation(ident);
    var arr := Shuffle(ident, draws);
    ShuffledIsPermutation(ident, arr, Slots);
    m := PageManager(map[], {}, arr, 0, [], [], []);
  }

  /**
   * `RequestPage`: the slot `(alloc_arr[alloc_idx] % 4, alloc_arr[alloc_idx] / 4)`
   * for `r`, handed to a new load. The index is not checked by the source,
   * so it must be in range.
   */
  function RequestPage(m: PageManager, r: PageRequest): (d: Dispatch)
    requires Wf(m) && m.allocIdx < Slots
    ensures d.request == r
    ensures InSlotGrid(d.allocX, d.allocY)
    ensures SlotIndex(d.allocX, d.allocY) == m.allocArr[m.allocIdx]
  {
    var v := m.allocArr[m.allocIdx];
    Dispatch(r, v % PagesX, v / PagesX)
  }

  /** A request is dispatched when its cell is empty and it is not in flight. */
  predicate Dispatchable(t: Table, processing: set<PageRequest>, r: PageRequest) {
    !IsResident(t, r.x, r.y) && r !in processing
  }

  /** Reference definition: the requests of `reqs` that are dispatchable, in order. */
  function Fresh(t: Table, processing: set<PageRequest>, reqs: seq<PageRequest>): seq<PageRequest> {
    if reqs == [] then []
    else if Dispatchable(t, processing, reqs[0]) then [reqs[0]] + Fresh(t, processing, reqs[1..])
    else Fresh(t, processing, reqs[1..])
  }

  lemma {:induction false} FreshMembers(t: Table, processing: set<PageRequest>, reqs: seq<PageRequest>)
    ensures forall r :: r in Fresh(t, processing, reqs) <==> r in reqs && Dispatchable(t, processing, r)
    ensures |Fresh(t, processing, reqs)| <= |reqs|
  {
    if reqs != [] {
      FreshMembers(t, processing, reqs[1..]);
      assert reqs == [reqs[0]] + reqs[1..];
    }
  }

  lemma {:induction false} FreshNone(t: Table, processing: set<PageRequest>, reqs: seq<PageRequest>)
    requires forall r | r in reqs :: !Dispatchable(t, processing, r)
    ensures Fresh(t, processing, reqs) == []
  {
    if reqs != [] {
      FreshNone(t, processing, reqs[1..]);
    }
  }

  /** Adding a request that does not occur later to `processing` does not change the rest. */
  lemma {:induction false} FreshIgnoresAbsent(t: Table, processing: set<PageRequest>, q: PageRequest, reqs: seq<PageRequest>)
    requires q !in reqs
    ensures Fresh(t, processing + {q}, reqs) == Fresh(t, processing, reqs)
  {
    if reqs != [] {
      FreshIgnoresAbsent(t, processing, q, reqs[1..]);
    }
  }

  lemma {:induction false} FreshOrdered(t: Table, processing: set<PageRequest>, reqs: seq<PageRequest>)
    requires StrictlySorted(reqs)
    ensures StrictlySorted(Fresh(t, processing, reqs))
  {
    if reqs != [] {
      FreshOrdered(t, processing, reqs[1..]);
      FreshMembers(t, processing, reqs[1..]);
      var rest := Fresh(t, processing, reqs[1..]);
      assert forall r | r in rest :: Less(reqs[0], r);
    }
  }

  /** The set of requests of a list of dispatches. */
  function RequestsOf(ds: seq<Dispatch>): set<PageRequest> {
    set d | d in ds :: d.request
  }

  /**
   * The second loop of `IngestFeedback`: every dispatchable request is put
   * into `processing`, gets the next slot and a load, and bumps `alloc_idx`.
   */
  function DispatchAll(m: PageManager, reqs: seq<PageRequest>): (r: (PageManager, seq<Dispatch>))
    requires Wf(m)
    requires StrictlySorted(reqs)
    requires m.allocIdx + |Fresh(m.table, m.processing, reqs)| <= Slots
    ensures |r.1| == |Fresh(m.table, m.processing, reqs)|
    ensures r.0 == m.(processing := m.processing + RequestsOf(r.1),
                      allocIdx := m.allocIdx + |r.1|,
                      loads := m.loads + r.1)
    decreases |reqs|
  {
    if reqs == [] then (m, [])
    else
      var q := reqs[0];
      assert q !in reqs[1..];
      FreshIgnoresAbsent(m.table, m.processing, q, reqs[1..]);
      if Dispatchable(m.table, m.processing, q) then
        var d := RequestPage(m, q);
        var m1 := m.(processing := m.processing + {q}, allocIdx := m.allocIdx + 1, loads := m.loads + [d]);
        var (m2, ds) := DispatchAll(m1, reqs[1..]);
        assert m.loads + [d] + ds == m.loads + ([d] + ds);
        assert RequestsOf([d] + ds) == {q} + RequestsOf(ds);
        (m2, [d] + ds)
      else
        DispatchAll(m, reqs[1..])
  }

  /** The `i`-th dispatch is for the `i`-th fresh request and gets the `i`-th unused slot. */
  lemma {:induction false} DispatchAllSlot(m: PageManager, reqs: seq<PageRequest>, i: nat)
    requires Wf(m)
    requires StrictlySorted(reqs)
    requires m.allocIdx + |Fresh(m.table, m.processing, reqs)| <= Slots
    requires i < |Fresh(m.table, m.processing, reqs)|
    ensures var d := DispatchAll(m, reqs).1[i];
      && d.request == Fresh(m.table, m.processing, reqs)[i]
      && InSlotGrid(d.allocX, d.allocY)
      && SlotIndex(d.allocX, d.allocY) == m.allocArr[m.allocIdx + i]
    decreases |reqs|
  {
    var q := reqs[0];
    assert q !in reqs[1..];
    FreshIgnoresAbsent(m.table, m.processing, q, reqs[1..]);
    if Dispatchable(m.table, m.processing, q) {
      var m1 := m.(processing := m.processing + {q}, allocIdx := m.allocIdx + 1, loads := m.loads + [RequestPage(m, q)]);
      if i > 0 {
        DispatchAllSlot(m1, reqs[1..], i - 1);
      }
    } else {
      DispatchAllSlot(m, reqs[1..], i);
    }
  }

  /** Every dispatch is for its fresh request and takes the next unused slot, in order. */
  lemma DispatchAllSlots(m: PageManager, reqs: seq<PageRequest>)
    requires Wf(m)
    requires StrictlySorted(reqs)
    requires m.allocIdx + |Fresh(m.table, m.processing, reqs)| <= Slots
    ensures var ds := DispatchAll(m, reqs).1;
      forall i | 0 <= i < |ds| ::
        && ds[i].request == Fresh(m.table, m.processing, reqs)[i]
        && InSlotGrid(ds[i].allocX, ds[i].allocY)
        && SlotIndex(ds[i].allocX, ds[i].allocY) == m.allocArr[m.allocIdx + i]
  {
    var ds := DispatchAll(m, reqs).1;
    forall i | 0 <= i < |ds|
      ensures && ds[i].request == Fresh(m.table, m.processing, reqs)[i]
              && InSlotGrid(ds[i].allocX, ds[i].allocY)
              && SlotIndex(ds[i].allocX, ds[i].allocY) == m.allocArr[m.allocIdx + i]
    {
      DispatchAllSlot(m, reqs, i);
    }
  }

  /** How many loads ingesting `buf` in state `m` dispatches. */
  function DispatchCount(m: PageManager, buf: seq<bv32>): nat {
    |Fresh(m.table, m.processing, DecodeFeedback(buf))|
  }

  /**
   * `IngestFeedback`: decode the buffer, then dispatch, in ascending order,
   * every decoded request whose cell is not resident and which is not
   * already in flight. Returns the new state and the dispatched loads.
   * `alloc_idx` is never checked, so the slots must not run out.
   */
  function IngestFeedback(m: PageManager, buf: seq<bv32>): (r: (PageManager, seq<Dispatch>))
    requires Wf(m)
    requires m.allocIdx + DispatchCount(m, buf) <= Slots
    ensures Wf(r.0)
    ensures r.0.table == m.table && r.0.uploadQueue == m.uploadQueue && r.0.atlas == m.atlas
    ensures r.0.allocArr == m.allocArr && r.0.loads == m.loads + r.1
    ensures r.0.allocIdx == m.allocIdx + |r.1| && |r.1| == DispatchCount(m, buf)
    ensures r.0.processing == m.processing + RequestsOf(r.1)
    ensures forall q :: q in RequestsOf(r.1) <==> Decoded(buf, q) && Dispatchable(m.table, m.processing, q)
    ensures forall i, j | 0 <= i < j < |r.1| :: Less(r.1[i].request, r.1[j].request)
    ensures forall i | 0 <= i < |r.1| ::
      && InSlotGrid(r.1[i].allocX, r.1[i].allocY)
      && SlotIndex(r.1[i].allocX, r.1[i].allocY) == m.allocArr[m.allocIdx + i]
  {
    var reqs := DecodeFeedback(buf);
    var r := DispatchAll(m, reqs);
    DispatchAllSlots(m, reqs);
    FreshMembers(m.table, m.processing, reqs);
    FreshOrdered(m.table, m.processing, reqs);
    assert forall q :: q in RequestsOf(r.1) <==> q in Fresh(m.table, m.processing, reqs) by {
      forall q | q in Fresh(m.table, m.processing, reqs)
        ensures q in RequestsOf(r.1)
      {
        var i :| 0 <= i < |Fresh(m.table, m.processing, reqs)| && Fresh(m.table, m.processing, reqs)[i] == q;
        assert r.1[i] in r.1;
      }
    }
    r
  }

  /** Requests of an ascending dispatch list differ, so the list and its request set have the same size. */
  lemma {:induction false} RequestsOfCard(ds: seq<Dispatch>)
    requires forall i, j | 0 <= i < j < |ds| :: Less(ds[i].request, ds[j].request)
    ensures |RequestsOf(ds)| == |ds|
  {
    if ds != [] {
      RequestsOfCard(ds[1..]);
      assert RequestsOf(ds) == {ds[0].request} + RequestsOf(ds[1..]) by {
        assert ds == [ds[0]] + ds[1..];
      }
      assert ds[0].request !in RequestsOf(ds[1..]);
    }
  }

  /** Ingesting grows `processing` by exactly the number of loads dispatched. */
  lemma IngestGrowsProcessing(m: PageManager, buf: seq<bv32>)
    requires Wf(m)
    requires m.allocIdx + DispatchCount(m, buf) <= Slots
    ensures var r := IngestFeedback(m, buf);
      |r.0.processing| == |m.processing| + |r.1| && r.0.allocIdx - m.allocIdx == |r.1|
  {
    var r := IngestFeedback(m, buf);
    RequestsOfCard(r.1);
    assert m.processing * RequestsOf(r.1) == {};
  }

  /**
   * The loads of one ingest get pairwise different slots, none of which was
   * handed out before (the slot permutation has no repeats).
   */
  lemma IngestSlotsFresh(m: PageManager, buf: seq<bv32>)
    requires Wf(m)
    requires m.allocIdx + DispatchCount(m, buf) <= Slots
    ensures var ds := IngestFeedback(m, buf).1;
      && (forall i, j | 0 <= i < j < |ds| ::
            (ds[i].allocX, ds[i].allocY) != (ds[j].allocX, ds[j].allocY))
      && (forall i, k | 0 <= i < |ds| && 0 <= k < m.allocIdx ::
            SlotIndex(ds[i].allocX, ds[i].allocY) != m.allocArr[k])
  {
  }

  /**
   * Ingesting the same buffer again before any flush dispatches nothing and
   * changes nothing: every request is now resident or in `processing`.
   */
  lemma IngestTwiceDispatchesNothing(m: PageManager, buf: seq<bv32>)
    requires Wf(m)
    requires m.allocIdx + DispatchCount(m, buf) <= Slots
    ensures var m1 := IngestFeedback(m, buf).0;
      DispatchCount(m1, buf) == 0 && IngestFeedback(m1, buf) == (m1, [])
  {
    var m1 := IngestFeedback(m, buf).0;
    var reqs := DecodeFeedback(buf);
    FreshNone(m1.table, m1.processing, reqs);
    assert DispatchCount(m1, buf) == 0;
    var r := IngestFeedback(m1, buf);
    assert r.1 == [];
    assert r.0 == m1;
  }

  /**
   * The load-completion callback for the `i`-th outstanding load: on success
   * it appends the upload record, on failure it only logs, leaving the
   * request in `processing`.
   */
  function Complete(m: PageManager, i: nat, result: Option<Image>): (m': PageManager)
    requires i < |m.loads|
    ensures m'.loads == m.loads[..i] + m.loads[i + 1..]
    ensures m'.table == m.table && m'.processing == m.processing && m'.atlas == m.atlas
    ensures m'.allocArr == m.allocArr && m'.allocIdx == m.allocIdx
    ensures result.None? ==> m'.uploadQueue == m.uploadQueue
    ensures result.Some? ==>
      m'.uploadQueue == m.uploadQueue + [PendingUpload(m.loads[i].request, m.loads[i].allocX, m.loads[i].allocY, result.value)]
  {
    var d := m.loads[i];
    var rest := m.loads[..i] + m.loads[i + 1..];
    match result
    case Some(image) =>
      m.(loads := rest, uploadQueue := m.uploadQueue + [PendingUpload(d.request, d.allocX, d.allocY, image)])
    case None =>
      m.(loads := rest)
  }

  /** The requests of the queued uploads. */
  function QueuedRequests(q: seq<PendingUpload>): set<PageRequest> {
    set e | e in q :: e.request
  }

  /** No upload before position `i` targets the same table cell as upload `i`. */
  predicate FirstForCell(q: seq<PendingUpload>, i: int)
    requires 0 <= i < |q|
  {
    forall j | 0 <= j < i :: CellOf(q[j].request) != CellOf(q[i].request)
  }

  /** One iteration of the flush loop: handle the record at the back of the queue. */
  function UploadBack(m: PageManager): (m': PageManager)
    requires m.uploadQueue != []
    ensures |m'.uploadQueue| == |m.uploadQueue| - 1
  {
    var q := m.uploadQueue;
    var e := q[|q| - 1];
    m.(uploadQueue := q[..|q| - 1],
       atlas := m.atlas + [UploadRegion(e.allocX, e.allocY)],
       table := Write(m.table, CellOf(e.request), PackEntry(e.allocX, e.allocY)),
       processing := m.processing - {e.request})
  }

  /**
   * One iteration removes exactly the back record: the rest of the queue
   * keeps its order, the record's cell becomes resident with its packed
   * entry while every other cell keeps its entry, its request leaves
   * `processing`, and one upload at the record's slot joins the atlas log.
   */
  lemma UploadBackEffect(m: PageManager)
    requires m.uploadQueue != []
    ensures var m', q, e := UploadBack(m), m.uploadQueue, m.uploadQueue[|m.uploadQueue| - 1];
      && m'.uploadQueue + [e] == q
      && m'.processing == m.processing - {e.request}
      && IsResident(m'.table, e.request.x, e.request.y)
      && Entry(m'.table, CellOf(e.request)) == PackEntry(e.allocX, e.allocY)
      && (forall c | c != CellOf(e.request) :: Entry(m'.table, c) == Entry(m.table, c))
      && |m'.atlas| == |m.atlas| + 1
      && m'.atlas[..|m.atlas|] == m.atlas
      && m'.atlas[|m.atlas|].px / PageW == e.allocX && m'.atlas[|m.atlas|].py / PageH == e.allocY
      && m'.allocArr == m.allocArr && m'.allocIdx == m.allocIdx && m'.loads == m.loads
  {
  }

  /**
   * `FlushUploadQueue`: drain the queue from the back, uploading each page
   * into the atlas, writing its packed entry into the table and removing
   * its request from `processing`. Because the back is handled first, the
   * EARLIEST record for a cell is the one whose entry remains.
   */
  function FlushUploadQueue(m: PageManager): (m': PageManager)
    ensures m'.uploadQueue == []
    ensures m'.processing == m.processing - QueuedRequests(m.uploadQueue)
    ensures m'.allocArr == m.allocArr && m'.allocIdx == m.allocIdx && m'.loads == m.loads
    ensures |m'.atlas| == |m.atlas| + |m.uploadQueue|
    decreases |m.uploadQueue|
  {
    if m.uploadQueue == [] then m
    else
      var q := m.uploadQueue;
      var m1 := UploadBack(m);
      assert QueuedRequests(q) == QueuedRequests(m1.uploadQueue) + {q[|q| - 1].request} by {
        assert q == m1.uploadQueue + [q[|q| - 1]];
      }
      FlushUploadQueue(m1)
  }

  /**
   * The atlas receives one page per record, back of the queue first, and
   * earlier uploads are kept.
   */
  lemma {:induction false} FlushUploadOrder(m: PageManager)
    ensures var m', q := FlushUploadQueue(m), m.uploadQueue;
      && m'.atlas[..|m.atlas|] == m.atlas
      && forall k | |m.atlas| <= k < |m'.atlas| ::
           m'.atlas[k] == UploadRegion(q[|q| - 1 - (k - |m.atlas|)].allocX, q[|q| - 1 - (k - |m.atlas|)].allocY)
    decreases |m.uploadQueue|
  {
    if m.uploadQueue != [] {
      var m1 := UploadBack(m);
      FlushUploadOrder(m1);
      var m' := FlushUploadQueue(m);
      assert m'.atlas[..|m1.atlas|][..|m.atlas|] == m'.atlas[..|m.atlas|];
      forall i | 0 <= i < |m1.uploadQueue|
        ensures m1.uploadQueue[i] == m.uploadQueue[i]
      {
      }
    }
  }

  /** No queued record targets cell `c`. */
  predicate Untargeted(q: seq<PendingUpload>, c: Cell) {
    forall i | 0 <= i < |q| :: CellOf(q[i].request) != c
  }

  /** After a flush, a cell no record targets keeps its entry. */
  lemma {:induction false} FlushKeepsUntargeted(m: PageManager, c: Cell)
    requires Untargeted(m.uploadQueue, c)
    ensures Entry(FlushUploadQueue(m).table, c) == Entry(m.table, c)
    decreases |m.uploadQueue|
  {
    if m.uploadQueue != [] {
      var q := m.uploadQueue;
      var m1 := UploadBack(m);
      assert CellOf(q[|q| - 1].request) != c;
      assert Untargeted(m1.uploadQueue, c) by {
        assert forall i | 0 <= i < |q| - 1 :: q[i] == m1.uploadQueue[i];
      }
      FlushKeepsUntargeted(m1, c);
    }
  }

  /** After a flush, a cell some record targets holds the entry of the earliest such record. */
  lemma {:induction false} FlushWritesEarliest(m: PageManager, i: nat)
    requires i < |m.uploadQueue| && FirstForCell(m.uploadQueue, i)
    ensures Entry(FlushUploadQueue(m).table, CellOf(m.uploadQueue[i].request)) ==
      PackEntry(m.uploadQueue[i].allocX, m.uploadQueue[i].allocY)
    decreases |m.uploadQueue|
  {
    var q := m.uploadQueue;
    var m1 := UploadBack(m);
    assert forall j | 0 <= j < |q| - 1 :: q[j] == m1.uploadQueue[j];
    if i < |q| - 1 {
      assert FirstForCell(m1.uploadQueue, i);
      FlushWritesEarliest(m1, i);
    } else {
      assert Untargeted(m1.uploadQueue, CellOf(q[i].request));
      FlushKeepsUntargeted(m1, CellOf(q[i].request));
    }
  }
}
