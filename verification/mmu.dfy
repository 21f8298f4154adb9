/** The address-translation engine: one state record holding the TLB, the
    page table (page to frame, or -1), the reverse frame table (frame to page,
    or -1), the per-frame ages with the global age counter, the number of
    frames handed out so far, the fault counter and physical memory; and the
    steps that resolve one logical address against it.
 */
module Mmu {
  import opened Addressing
  import opened BackingStore
  import Tlb
  import Lru

  /** The page-table and frame-table sentinel. */
  const Unmapped: int := -1

  datatype State = State(
    frameAmount: nat,
    tlb: Tlb.TlbState,
    pageTable: seq<int>,
    frameTable: seq<int>,
    ageTable: seq<nat>,
    age: nat,
    frameAllocated: nat,
    pageFaults: nat,
    memory: seq<seq<Byte>>)

  /** A frame handed out by the allocator, with the state after handing it out. */
  datatype Alloc = Alloc(frame: int, state: State)

  /** The byte read by one translation, with the state after it. */
  datatype Access = Access(value: Byte, state: State)

  /** Every table has its configured size and the allocation counter is in range. */
  predicate Shaped(s: State) {
    && Tlb.Valid(s.tlb)
    && |s.pageTable| == PageAmount
    && 0 < s.frameAmount
    && |s.frameTable| == s.frameAmount
    && |s.ageTable| == s.frameAmount
    && |s.memory| == s.frameAmount
    && (forall f :: 0 <= f < s.frameAmount ==> |s.memory[f]| == PageSize)
    && s.frameAllocated <= s.frameAmount
  }

  /** The page table and the frame table are inverse on mapped pages: each
      mapped page sits in a frame already handed out, and that frame records
      the page; each frame handed out holds a page that maps back to it; a
      frame not yet handed out holds nothing. */
  predicate TablesInverse(s: State)
    requires Shaped(s)
  {
    && (forall p :: 0 <= p < PageAmount && s.pageTable[p] != Unmapped ==>
          0 <= s.pageTable[p] < s.frameAllocated && s.frameTable[s.pageTable[p]] == p)
    && (forall f :: 0 <= f < s.frameAllocated ==>
          0 <= s.frameTable[f] < PageAmount && s.pageTable[s.frameTable[f]] == f)
    && (forall f :: s.frameAllocated <= f < s.frameAmount ==> s.frameTable[f] == Unmapped)
  }

  /** Every TLB slot is empty or caches the page table's current mapping. */
  predicate TlbAgrees(s: State)
    requires Shaped(s)
  {
    forall i :: 0 <= i < Tlb.TlbSize ==>
      || s.tlb.entries[i] == Tlb.Empty
      || (&& 0 <= s.tlb.entries[i].page < PageAmount
          && s.tlb.entries[i].frame != Unmapped
          && s.pageTable[s.tlb.entries[i].page] == s.tlb.entries[i].frame)
  }

  /** Every frame in use was last accessed before the current age. */
  predicate AgesBelow(s: State)
    requires Shaped(s)
  {
    forall f :: 0 <= f < s.frameAllocated ==> s.ageTable[f] < s.age
  }

  /** The state invariant kept by every translation. */
  predicate Inv(s: State) {
    Shaped(s) && TablesInverse(s) && TlbAgrees(s) && AgesBelow(s)
  }

  /** Every frame in use holds a copy of the page the frame table says it holds. */
  predicate Coherent(s: State, store: seq<Byte>)
    requires Shaped(s) && TablesInverse(s)
  {
    forall f :: 0 <= f < s.frameAllocated ==> s.memory[f] == ReadPage(store, s.frameTable[f])
  }

  /** The tables are well formed and every frame in use holds a copy of its
      page.  Unlike `Inv`, this survives the stale age inside `HandleFault`
      and `Resolve`, and having no precondition it is cheap to state. */
  predicate Copies(s: State, store: seq<Byte>) {
    Shaped(s) && TablesInverse(s) && Coherent(s, store)
  }

  /** The invariant, with every frame in use holding a copy of its page. */
  predicate InvCopies(s: State, store: seq<Byte>) {
    Inv(s) && Copies(s, store)
  }

  /** `s'` is `s` with every reference to frame `f` dropped: TLB slots
      pointing at `f` are emptied and the page mapped to `f`, if any, becomes
      unmapped.  The ages, counters and TLB head are those of `s`. */
  predicate Unlinked(s: State, s': State, f: int) {
    && s'.frameAmount == s.frameAmount
    && s'.ageTable == s.ageTable
    && s'.age == s.age
    && s'.pageFaults == s.pageFaults
    && s'.tlb.head == s.tlb.head
    && s'.tlb.hits == s.tlb.hits
    && |s'.tlb.entries| == |s.tlb.entries|
    && (forall i :: 0 <= i < |s.tlb.entries| ==>
          s'.tlb.entries[i] == if s.tlb.entries[i].frame == f then Tlb.Empty else s.tlb.entries[i])
    && |s'.pageTable| == |s.pageTable|
    && (forall p :: 0 <= p < |s.pageTable| ==>
          s'.pageTable[p] == if s.pageTable[p] == f then Unmapped else s.pageTable[p])
  }

  /** The start of a run: `initTLB`, `initPageTable` and
      `initPhysicalAddress`.  `tlbGarbage` is whatever the fresh TLB
      allocation held before `initTLB` overwrote it. */
  function Init(frameAmount: nat, tlbGarbage: seq<Tlb.Entry>): (s: State)
    requires 0 < frameAmount && |tlbGarbage| == Tlb.TlbSize
    ensures Inv(s)
    ensures s.frameAmount == frameAmount
    ensures s.frameAllocated == 0 && s.age == 0 && s.pageFaults == 0 && s.tlb.hits == 0
    ensures forall p :: 0 <= p < PageAmount ==> s.pageTable[p] == Unmapped
    ensures forall i :: 0 <= i < Tlb.TlbSize ==> s.tlb.entries[i] == Tlb.Empty
  {
    State(frameAmount,
          Tlb.InitTlb(tlbGarbage),
          seq(PageAmount, _ => Unmapped),
          seq(frameAmount, _ => Unmapped),
          seq(frameAmount, _ => 0),
          0, 0, 0,
          seq(frameAmount, _ => seq<Byte>(PageSize, _ => 0)))
  }

  /** `dumpFrame`, the LRU replacement run once every frame is in use: pick
      the first frame of minimal age, empty the TLB slots that point at it,
      unmap the page it holds and clear its frame-table entry. */
  function DumpFrame(s: State): (r: Alloc)
    requires Inv(s) && s.frameAllocated == s.frameAmount
    ensures Lru.IsFirstMin(s.ageTable, r.frame)
    ensures Unlinked(s, r.state, r.frame)
    ensures r.state.frameTable == s.frameTable[r.frame := Unmapped]
    ensures r.state.memory == s.memory && r.state.frameAllocated == s.frameAllocated
  {
    assert s.ageTable[0] < s.age;
    var victim := Lru.LowestAgeFrame(s.ageTable, s.age);
    var page := s.frameTable[victim];
    Alloc(victim, s.(tlb := Tlb.InvalidateFrame(s.tlb, victim),
                     pageTable := s.pageTable[page := Unmapped],
                     frameTable := s.frameTable[victim := Unmapped]))
  }

  /** `allocateFrame`: the next never-used frame while there is one,
      otherwise the frame `dumpFrame` frees.  Either way the frame returned
      is free: nothing refers to it any more. */
  function AllocateFrame(s: State): (r: Alloc)
    requires Inv(s)
    ensures 0 <= r.frame < s.frameAmount
    ensures Unlinked(s, r.state, r.frame)
    ensures r.state.frameTable == s.frameTable[r.frame := Unmapped]
    ensures r.state.memory == s.memory
    ensures s.frameAllocated < s.frameAmount ==>
              r.frame == s.frameAllocated && r.state.frameAllocated == s.frameAllocated + 1
    ensures s.frameAllocated == s.frameAmount ==>
              Lru.IsFirstMin(s.ageTable, r.frame) && r.state.frameAllocated == s.frameAmount
  {
    if s.frameAllocated >= s.frameAmount then DumpFrame(s)
    else
      assert s.frameTable[s.frameAllocated] == Unmapped;
      Alloc(s.frameAllocated, s.(frameAllocated := s.frameAllocated + 1))
  }

  /** The bookkeeping of `loadFromBackStore`: allocate a frame, record the
      page in the frame table and copy the page's 256 bytes into the frame. */
  function LoadFromBackStore(s: State, store: seq<Byte>, page: nat): (r: Alloc)
    requires Inv(s) && page < PageAmount
    ensures 0 <= r.frame < s.frameAmount
    ensures Unlinked(s, r.state, r.frame)
    ensures r.state.frameTable == s.frameTable[r.frame := page]
    ensures r.state.memory == s.memory[r.frame := ReadPage(store, page)]
    ensures s.frameAllocated < s.frameAmount ==>
              r.frame == s.frameAllocated && r.state.frameAllocated == s.frameAllocated + 1
    ensures s.frameAllocated == s.frameAmount ==>
              Lru.IsFirstMin(s.ageTable, r.frame) && r.state.frameAllocated == s.frameAmount
  {
    var a := AllocateFrame(s);
    Alloc(a.frame, a.state.(frameTable := a.state.frameTable[a.frame := page],
                            memory := a.state.memory[a.frame := ReadPage(store, page)]))
  }

  /** The invariant, except that frame `f` may still carry a stale age. */
  predicate InvExceptAge(s: State, f: int) {
    && Shaped(s) && TablesInverse(s) && TlbAgrees(s)
    && forall g :: 0 <= g < s.frameAllocated && g != f ==> s.ageTable[g] < s.age
  }

  /** The page-fault branch of `getAddressValue`: count the fault, load the
      page and bind it in the page table.  The result satisfies the invariant
      except that the new frame's age is not yet stamped. */
  function HandleFault(s: State, store: seq<Byte>, page: nat): (r: Alloc)
    requires Inv(s) && page < PageAmount && s.pageTable[page] == Unmapped
    ensures InvExceptAge(r.state, r.frame)
    ensures r.state.pageTable[page] == r.frame && 0 <= r.frame < s.frameAmount
    ensures r.state.frameTable == s.frameTable[r.frame := page]
    ensures r.state.pageFaults == s.pageFaults + 1
    ensures r.state.age == s.age && r.state.ageTable == s.ageTable && r.state.tlb.hits == s.tlb.hits
    ensures Copies(s, store) ==> Copies(r.state, store)
    ensures forall q :: 0 <= q < PageAmount && q != page && r.state.pageTable[q] != s.pageTable[q] ==>
              r.state.pageTable[q] == Unmapped && s.pageTable[q] == r.frame
    ensures s.frameAllocated < s.frameAmount ==>
              r.frame == s.frameAllocated && r.state.frameAllocated == s.frameAllocated + 1
    ensures s.frameAllocated == s.frameAmount ==>
              Lru.IsFirstMin(s.ageTable, r.frame) && r.state.frameAllocated == s.frameAmount
  {
    var loaded := LoadFromBackStore(s, store, page);
    BindKeepsTables(s, loaded.state, page, loaded.frame);
    Alloc(loaded.frame, loaded.state.(pageTable := loaded.state.pageTable[page := loaded.frame],
                                      pageFaults := loaded.state.pageFaults + 1))
  }

  /** Binding an unmapped page to a frame that has just been freed (and
      whose frame-table entry already records the page) restores the table
      invariants. */
  lemma BindKeepsTables(s: State, a: State, page: nat, f: int)
    requires Inv(s) && page < PageAmount && s.pageTable[page] == Unmapped
    requires 0 <= f < a.frameAllocated <= s.frameAmount
    requires Unlinked(s, a, f) && a.frameTable == s.frameTable[f := page] && |a.memory| == |s.memory|
    requires forall g :: 0 <= g < s.frameAmount ==> |a.memory[g]| == PageSize
    requires a.frameAllocated == s.frameAllocated || (a.frameAllocated == s.frameAllocated + 1 && f == s.frameAllocated)
    ensures var t := a.(pageTable := a.pageTable[page := f]);
      Shaped(t) && TablesInverse(t) && TlbAgrees(t)
  {
  }

  /** The frame found for a page, whether the TLB missed, and the state
      after the lookup (and the fault, if there was one). */
  datatype Resolved = Resolved(frame: int, tlbMiss: bool, state: State)

  /** The first half of `getAddressValue`: the TLB lookup, the page-table
      lookup on a TLB miss, and the fault when both miss.  Afterwards the page
      is mapped to the frame returned. */
  function Resolve(s: State, store: seq<Byte>, page: nat): (r: Resolved)
    requires Inv(s) && page < PageAmount
    ensures InvExceptAge(r.state, r.frame)
    ensures 0 <= r.frame < s.frameAmount && r.state.pageTable[page] == r.frame
    ensures r.state.frameTable == s.frameTable[r.frame := page]
    ensures s.pageTable[page] != Unmapped ==> r.frame == s.pageTable[page]
    ensures r.tlbMiss <==> !Tlb.Holds(s.tlb, page)
    ensures r.state.frameAmount == s.frameAmount
    ensures r.state.age == s.age && r.state.ageTable == s.ageTable
    ensures r.state.tlb.hits == s.tlb.hits + (if Tlb.Holds(s.tlb, page) then 1 else 0)
    ensures r.state.pageFaults == s.pageFaults + (if s.pageTable[page] == Unmapped then 1 else 0)
    ensures Copies(s, store) ==> Copies(r.state, store)
    ensures forall q :: 0 <= q < PageAmount && q != page && r.state.pageTable[q] != s.pageTable[q] ==>
              r.state.pageTable[q] == Unmapped && s.pageTable[q] == r.frame
    ensures s.pageTable[page] != Unmapped ==> r.state.frameAllocated == s.frameAllocated
    ensures s.pageTable[page] == Unmapped && s.frameAllocated < s.frameAmount ==>
              r.frame == s.frameAllocated && r.state.frameAllocated == s.frameAllocated + 1
    ensures s.pageTable[page] == Unmapped && s.frameAllocated == s.frameAmount ==>
              Lru.IsFirstMin(s.ageTable, r.frame) && r.state.frameAllocated == s.frameAmount
  {
    var found := Tlb.Search(s.tlb, page);
    var tlbMiss := found.frame == Unmapped;
    var s1 := s.(tlb := found.tlb);
    var frame := if tlbMiss then s1.pageTable[page] else found.frame;
    if frame == Unmapped then
      var a := HandleFault(s1, store, page);
      Resolved(a.frame, tlbMiss, a.state)
    else
      Resolved(frame, tlbMiss, s1)
  }

  /** The TLB after a fault: the slots of the frame taken over are emptied,
      the rest, the head and the hits are as before.  A fresh frame has no
      slots, so then nothing changes. */
  lemma HandleFaultTlb(s: State, store: seq<Byte>, page: nat)
    requires Inv(s) && page < PageAmount && s.pageTable[page] == Unmapped
    ensures var r := HandleFault(s, store, page);
      r.state.tlb == Tlb.InvalidateFrame(s.tlb, r.frame)
  {
  }

  /** The TLB after the lookup half of a translation: the lookup's own
      update of the hit count, then, on a fault, the emptying of the slots of
      the frame taken over. */
  lemma ResolveTlb(s: State, store: seq<Byte>, page: nat)
    requires Inv(s) && page < PageAmount
    ensures var r := Resolve(s, store, page);
      r.state.tlb == if s.pageTable[page] == Unmapped
                     then Tlb.InvalidateFrame(Tlb.Search(s.tlb, page).tlb, r.frame)
                     else Tlb.Search(s.tlb, page).tlb
  {
    var found := Tlb.Search(s.tlb, page);
    if s.pageTable[page] == Unmapped {
      HandleFaultTlb(s.(tlb := found.tlb), store, page);
    }
  }

  /** The second half of `getAddressValue`: cache the mapping in the TLB
      when the TLB missed, stamp the frame with the current age and advance
      the age.  Afterwards a TLB lookup of the page finds the frame. */
  function CacheAndStamp(s: State, page: nat, frame: int, tlbMiss: bool): (r: State)
    requires InvExceptAge(s, frame) && page < PageAmount && s.pageTable[page] == frame && frame != Unmapped
    requires !tlbMiss ==> Tlb.Holds(s.tlb, page)
    ensures Inv(r)
    ensures Tlb.Holds(r.tlb, page) && Tlb.Search(r.tlb, page).frame == frame
    ensures r.tlb.hits == s.tlb.hits
    ensures r.pageTable == s.pageTable && r.frameTable == s.frameTable && r.memory == s.memory
    ensures r.frameAmount == s.frameAmount && r.frameAllocated == s.frameAllocated && r.pageFaults == s.pageFaults
    ensures r.ageTable == s.ageTable[frame := s.age] && r.age == s.age + 1
  {
    var s2 := if tlbMiss then s.(tlb := Tlb.Insert(s.tlb, page, frame)) else s;
    assert s2.tlb.entries[s.tlb.head].page == page ==> Tlb.Holds(s2.tlb, page);
    s2.(ageTable := s2.ageTable[frame := s2.age], age := s2.age + 1)
  }

  /** The TLB after the second half of a translation: a hit leaves it as
      it is; a miss is exactly one FIFO insertion of the page's mapping. */
  lemma CacheAndStampTlb(s: State, page: nat, frame: int, tlbMiss: bool)
    requires InvExceptAge(s, frame) && page < PageAmount && s.pageTable[page] == frame && frame != Unmapped
    requires !tlbMiss ==> Tlb.Holds(s.tlb, page)
    ensures CacheAndStamp(s, page, frame, tlbMiss).tlb == if tlbMiss then Tlb.Insert(s.tlb, page, frame) else s.tlb
  {
  }

  /** `getAddressValue`: resolve one logical address.  Look the page up in
      the TLB, then in the page table, then fault it in; cache the mapping in
      the TLB when the TLB missed; stamp the frame with the current age and
      advance the age; return the byte at the offset within the frame. */
  function GetAddressValue(s: State, store: seq<Byte>, address: Int32): (r: Access)
    requires Inv(s)
    ensures Inv(r.state)
    ensures r.state.frameAmount == s.frameAmount
    ensures var page := GetNumber(address);
      && r.state.pageTable[page] != Unmapped
      && (s.pageTable[page] != Unmapped ==> r.state.pageTable[page] == s.pageTable[page])
      && r.value == r.state.memory[r.state.pageTable[page]][GetOffset(address)]
      && r.state.ageTable == s.ageTable[r.state.pageTable[page] := s.age]
      && r.state.age == s.age + 1
      && r.state.frameTable == s.frameTable[r.state.pageTable[page] := page]
  {
    var page := GetNumber(address);
    var resolved := Resolve(s, store, page);
    var s3 := CacheAndStamp(resolved.state, page, resolved.frame, resolved.tlbMiss);
    Access(s3.memory[resolved.frame][GetOffset(address)], s3)
  }

  /** The counters of one translation: a fault exactly when both the TLB
      and the page table miss, a hit exactly when the TLB holds the page; a
      mapped page allocates nothing, a fault takes the next fresh frame while
      there is one and the first least-recently-used frame once there is
      not. */
  lemma TranslateCounts(s: State, store: seq<Byte>, address: Int32)
    requires Inv(s)
    ensures var page := GetNumber(address);
      var r := GetAddressValue(s, store, address).state;
      && r.pageFaults == s.pageFaults + (if !Tlb.Holds(s.tlb, page) && s.pageTable[page] == Unmapped then 1 else 0)
      && r.tlb.hits == s.tlb.hits + (if Tlb.Holds(s.tlb, page) then 1 else 0)
      && (s.pageTable[page] != Unmapped ==> r.frameAllocated == s.frameAllocated)
      && (s.pageTable[page] == Unmapped && s.frameAllocated < s.frameAmount ==>
            r.pageTable[page] == s.frameAllocated && r.frameAllocated == s.frameAllocated + 1)
      && (s.pageTable[page] == Unmapped && s.frameAllocated == s.frameAmount ==>
            Lru.IsFirstMin(s.ageTable, r.pageTable[page]) && r.frameAllocated == s.frameAmount)
  {
  }

  /** After a translation the TLB holds its page, and a lookup of the page,
      like the driver's own repeat lookup, finds the frame the page table
      maps it to. */
  lemma TranslateCaches(s: State, store: seq<Byte>, address: Int32)
    requires Inv(s)
    ensures var page := GetNumber(address);
      var r := GetAddressValue(s, store, address).state;
      && Tlb.Holds(r.tlb, page)
      && Tlb.Search(r.tlb, page).frame == r.pageTable[page]
  {
  }

  /** The TLB after one translation: a hit only counts itself; a miss
      caches the page's frame in the slot at the head and advances the head,
      after a fault has emptied the slots of the frame it took over. */
  lemma TranslateTlb(s: State, store: seq<Byte>, address: Int32)
    requires Inv(s)
    ensures var page := GetNumber(address);
      var r := GetAddressValue(s, store, address).state;
      && (Tlb.Holds(s.tlb, page) ==> r.tlb == s.tlb.(hits := s.tlb.hits + 1))
      && (!Tlb.Holds(s.tlb, page) ==>
            r.tlb == Tlb.Insert(if s.pageTable[page] == Unmapped
                                then Tlb.InvalidateFrame(s.tlb, r.pageTable[page])
                                else s.tlb,
                                page, r.pageTable[page]))
  {
    var page := GetNumber(address);
    var resolved := Resolve(s, store, page);
    ResolveTlb(s, store, page);
    CacheAndStampTlb(resolved.state, page, resolved.frame, resolved.tlbMiss);
  }

  /** One translation changes no other page's mapping except by unmapping
      the page whose frame was taken over, which happens only on a fault
      with every frame in use. */
  lemma TranslateOthers(s: State, store: seq<Byte>, address: Int32)
    requires Inv(s)
    ensures var page := GetNumber(address);
      var r := GetAddressValue(s, store, address).state;
      forall q :: 0 <= q < PageAmount && q != page && r.pageTable[q] != s.pageTable[q] ==>
        && r.pageTable[q] == Unmapped
        && s.pageTable[page] == Unmapped
        && s.frameAllocated == s.frameAmount
        && s.pageTable[q] == r.pageTable[page]
  {
  }

  /** Translation is transparent: starting from frames that hold copies of
      their pages, the byte returned is the backing store's byte at the
      address's page and offset, and the frames still hold copies. */
  lemma GetAddressValueReadsStore(s: State, store: seq<Byte>, address: Int32)
    requires Inv(s) && Copies(s, store)
    ensures Copies(GetAddressValue(s, store, address).state, store)
    ensures GetAddressValue(s, store, address).value
         == StoreByte(store, GetNumber(address) * PageSize + GetOffset(address))
  {
    var page := GetNumber(address);
    var resolved := Resolve(s, store, page);
    assert resolved.state.memory[resolved.frame] == ReadPage(store, page);
  }

  /** A fault while free frames remain binds the page to the next fresh
      frame; no other page's mapping changes. */
  lemma FaultIntoFreshFrame(s: State, store: seq<Byte>, address: Int32)
    requires Inv(s) && s.pageTable[GetNumber(address)] == Unmapped && s.frameAllocated < s.frameAmount
    ensures var r := GetAddressValue(s, store, address).state;
      && r.pageTable == s.pageTable[GetNumber(address) := s.frameAllocated]
      && r.frameAllocated == s.frameAllocated + 1
      && r.ageTable == s.ageTable[s.frameAllocated := s.age]
      && r.pageFaults == s.pageFaults + 1
  {
    var r := GetAddressValue(s, store, address).state;
    assert forall q :: 0 <= q < PageAmount ==> r.pageTable[q] == s.pageTable[GetNumber(address) := s.frameAllocated][q];
  }

  /** Touching a page that is already mapped changes no mapping, allocates
      nothing and faults nothing; only the frame's age moves. */
  lemma MappedPageStays(s: State, store: seq<Byte>, address: Int32)
    requires Inv(s) && s.pageTable[GetNumber(address)] != Unmapped
    ensures var r := GetAddressValue(s, store, address).state;
      && r.pageTable == s.pageTable
      && r.frameTable == s.frameTable
      && r.frameAllocated == s.frameAllocated
      && r.ageTable == s.ageTable[s.pageTable[GetNumber(address)] := s.age]
      && r.pageFaults == s.pageFaults
  {
    var r := GetAddressValue(s, store, address).state;
    assert forall q :: 0 <= q < PageAmount ==> r.pageTable[q] == s.pageTable[q];
  }

  /** A fault with every frame in use evicts the least-recently-used frame
      `victim`: its old page is unmapped, the faulting page takes the frame,
      and every other mapping is as before. */
  lemma FaultEvictsLru(s: State, store: seq<Byte>, address: Int32, victim: int)
    requires Inv(s) && s.pageTable[GetNumber(address)] == Unmapped && s.frameAllocated == s.frameAmount
    requires Lru.IsFirstMin(s.ageTable, victim)
    ensures var page := GetNumber(address);
      var r := GetAddressValue(s, store, address).state;
      && r.pageTable == s.pageTable[s.frameTable[victim] := Unmapped][page := victim]
      && r.frameTable == s.frameTable[victim := page]
      && r.frameAllocated == s.frameAllocated
      && r.ageTable == s.ageTable[victim := s.age]
      && r.pageFaults == s.pageFaults + 1
  {
    var page := GetNumber(address);
    var r := GetAddressValue(s, store, address).state;
    Lru.FirstMinUnique(s.ageTable, victim, r.pageTable[page]);
    var evicted := s.frameTable[victim];
    assert r.pageTable[evicted] != victim;
    var expected := s.pageTable[evicted := Unmapped][page := victim];
    assert forall q :: 0 <= q < PageAmount ==> r.pageTable[q] == expected[q];
  }
}
