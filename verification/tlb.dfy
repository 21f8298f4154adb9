/** The translation-lookaside buffer: a fixed array of (page, frame) slots
    searched linearly and refilled first-in first-out through a head index
    that wraps around.  An empty slot holds the pair (-1, -1).
 */
module Tlb {

  const TlbSize: nat := 16

  datatype Entry = Entry(page: int, frame: int)

  /** The empty slot. */
  const Empty: Entry := Entry(-1, -1)

  /** The slots, the index of the next slot to overwrite, and the hit counter. */
  datatype TlbState = TlbState(entries: seq<Entry>, head: int, hits: nat)

  predicate Valid(t: TlbState) {
    |t.entries| == TlbSize && 0 <= t.head < TlbSize
  }

  /** Some slot holds `page`. */
  predicate Holds(t: TlbState, page: int) {
    exists i :: 0 <= i < |t.entries| && t.entries[i].page == page
  }

  /** Slot `k` holds `page` and no slot before it does. */
  predicate IsFirstMatch(entries: seq<Entry>, page: int, k: int) {
    && 0 <= k < |entries|
    && entries[k].page == page
    && forall j :: 0 <= j < k ==> entries[j].page != page
  }

  /** Index of the first slot at or after `from` that holds `page`, or -1. */
  function FirstMatch(entries: seq<Entry>, page: int, from: nat): (k: int)
    requires from <= |entries|
    ensures k == -1 <==> forall j :: from <= j < |entries| ==> entries[j].page != page
    ensures k != -1 ==> from <= k < |entries| && entries[k].page == page
    ensures k != -1 ==> forall j :: from <= j < k ==> entries[j].page != page
    decreases |entries| - from
  {
    if from == |entries| then -1
    else if entries[from].page == page then from
    else FirstMatch(entries, page, from + 1)
  }

  /** The outcome of a lookup: the frame found (or -1) and the buffer with
      its hit counter updated. */
  datatype Found = Found(frame: int, tlb: TlbState)

  /** Linear lookup: the frame of the first slot holding `page`, counting one
      hit; on a miss, -1 and nothing changes. */
  function Search(t: TlbState, page: int): (r: Found)
    ensures r.tlb.entries == t.entries && r.tlb.head == t.head
    ensures !Holds(t, page) ==> r.frame == -1 && r.tlb == t
    ensures Holds(t, page) ==> r.tlb.hits == t.hits + 1
    ensures Holds(t, page) ==> exists k :: IsFirstMatch(t.entries, page, k) && r.frame == t.entries[k].frame
  {
    var k := FirstMatch(t.entries, page, 0);
    if k == -1 then Found(-1, t)
    else
      assert IsFirstMatch(t.entries, page, k);
      Found(t.entries[k].frame, t.(hits := t.hits + 1))
  }

  /** FIFO insertion: overwrite the slot at the head and advance the head. */
  function Insert(t: TlbState, page: int, frame: int): (r: TlbState)
    requires Valid(t)
    ensures Valid(r) && r.hits == t.hits
    ensures r.entries[t.head] == Entry(page, frame)
    ensures forall j :: 0 <= j < TlbSize && j != t.head ==> r.entries[j] == t.entries[j]
    ensures r.head == (t.head + 1) % TlbSize
  {
    TlbState(t.entries[t.head := Entry(page, frame)], (t.head + 1) % TlbSize, t.hits)
  }

  /** Insert each of `es` in order. */
  function InsertAll(t: TlbState, es: seq<Entry>): (r: TlbState)
    requires Valid(t)
    ensures Valid(r) && r.hits == t.hits
    decreases |es|
  {
    if es == [] then t
    else InsertAll(Insert(t, es[0].page, es[0].frame), es[1..])
  }

  /** How many inserts after the head it takes to reach slot `j`. */
  function Distance(head: int, j: int): (d: int)
    requires 0 <= head < TlbSize && 0 <= j < TlbSize
    ensures 0 <= d < TlbSize && (head + d) % TlbSize == j
  {
    if head <= j then j - head else j - head + TlbSize
  }

  /** One insert fills the slot at distance 0 and brings every other slot
      one step nearer the head. */
  lemma InsertStep(t: TlbState, e: Entry, j: int)
    requires Valid(t) && 0 <= j < TlbSize
    ensures Distance(t.head, j) == 0 ==> Insert(t, e.page, e.frame).entries[j] == e
    ensures Distance(t.head, j) != 0 ==>
              && Insert(t, e.page, e.frame).entries[j] == t.entries[j]
              && Distance(Insert(t, e.page, e.frame).head, j) == Distance(t.head, j) - 1
  {
  }

  /** A run of at most `TlbSize` inserts fills slots `head, head+1, ...`
      (wrapping) in order and leaves every other slot alone; the head ends up
      `|es|` slots further on. */
  lemma {:induction false} InsertAllSlots(t: TlbState, es: seq<Entry>)
    requires Valid(t) && |es| <= TlbSize
    ensures InsertAll(t, es).head == (t.head + |es|) % TlbSize
    ensures forall j :: 0 <= j < TlbSize && Distance(t.head, j) < |es| ==>
              InsertAll(t, es).entries[j] == es[Distance(t.head, j)]
    ensures forall j :: 0 <= j < TlbSize && Distance(t.head, j) >= |es| ==>
              InsertAll(t, es).entries[j] == t.entries[j]
    decreases |es|
  {
    if es != [] {
      var t1 := Insert(t, es[0].page, es[0].frame);
      var r := InsertAll(t1, es[1..]);
      assert InsertAll(t, es) == r;
      InsertAllSlots(t1, es[1..]);
      assert r.head == (t.head + |es|) % TlbSize by {
        assert t1.head == (t.head + 1) % TlbSize;
        if t.head + 1 == TlbSize {
          assert t1.head == 0;
        } else {
          assert t1.head == t.head + 1;
        }
      }
      forall j | 0 <= j < TlbSize
        ensures Distance(t.head, j) < |es| ==> r.entries[j] == es[Distance(t.head, j)]
        ensures Distance(t.head, j) >= |es| ==> r.entries[j] == t.entries[j]
      {
        InsertStep(t, es[0], j);
        if Distance(t.head, j) != 0 && Distance(t.head, j) < |es| {
          assert es[1..][Distance(t.head, j) - 1] == es[Distance(t.head, j)];
        }
      }
    }
  }

  /** `initTLB`: reset the head and the hit counter, then insert `TlbSize`
      empty pairs over whatever the freshly allocated slots held. */
  function InitTlb(garbage: seq<Entry>): (r: TlbState)
    requires |garbage| == TlbSize
    ensures Valid(r) && r.head == 0 && r.hits == 0
    ensures forall i :: 0 <= i < TlbSize ==> r.entries[i] == Empty
  {
    var start := TlbState(garbage, 0, 0);
    var empties := seq(TlbSize, _ => Empty);
    InsertAllSlots(start, empties);
    InsertAll(start, empties)
  }

  /** Empty every slot whose frame is `frame`; the rest are untouched. */
  function InvalidateFrame(t: TlbState, frame: int): (r: TlbState)
    ensures r.head == t.head && r.hits == t.hits && |r.entries| == |t.entries|
    ensures forall i :: 0 <= i < |t.entries| && t.entries[i].frame == frame ==> r.entries[i] == Empty
    ensures forall i :: 0 <= i < |t.entries| && t.entries[i].frame != frame ==> r.entries[i] == t.entries[i]
  {
    var es := seq(|t.entries|, i requires 0 <= i < |t.entries| =>
      if t.entries[i].frame == frame then Empty else t.entries[i]);
    TlbState(es, t.head, t.hits)
  }

  /** After a run of `TlbSize` inserts none of which carries `page`, a lookup
      of `page` misses: the whole buffer has been replaced. */
  lemma FullCycleForgets(t: TlbState, es: seq<Entry>, page: int)
    requires Valid(t) && |es| == TlbSize
    requires forall i :: 0 <= i < |es| ==> es[i].page != page
    ensures !Holds(InsertAll(t, es), page)
    ensures Search(InsertAll(t, es), page).frame == -1
  {
    InsertAllSlots(t, es);
  }

  /** An inserted page that no other slot holds is found again, with its frame. */
  lemma InsertThenSearch(t: TlbState, page: int, frame: int)
    requires Valid(t) && !Holds(t, page)
    ensures Search(Insert(t, page, frame), page).frame == frame
    ensures Search(Insert(t, page, frame), page).tlb.hits == t.hits + 1
  {
    var r := Insert(t, page, frame);
    assert r.entries[t.head].page == page;
    assert forall k :: IsFirstMatch(r.entries, page, k) ==> k == t.head;
  }

  /** After invalidating `frame` no lookup can answer with it. */
  lemma InvalidatedFrameNotFound(t: TlbState, frame: int, page: int)
    requires frame != -1
    ensures Search(InvalidateFrame(t, frame), page).frame != frame
  {
  }
}
