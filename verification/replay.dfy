/** Translating a stream of addresses one after another, and what follows
    about whole runs: the invariant holds throughout, every byte read is the
    backing store's byte, a cold run faults on every page, and the LRU policy
    never evicts the page that was just used.
 */
module Replay {
  import opened Addressing
  import opened BackingStore
  import Tlb
  import Lru
  import opened Mmu

  /** The bytes read, in order, and the state at the end. */
  datatype Trace = Trace(values: seq<Byte>, state: State)

  /** Resolve each address in turn, threading the state through. */
  function Run(s: State, store: seq<Byte>, addresses: seq<Int32>): (r: Trace)
    requires Inv(s)
    ensures Inv(r.state) && r.state.frameAmount == s.frameAmount
    ensures |r.values| == |addresses| && r.state.age == s.age + |addresses|
    ensures s.pageFaults <= r.state.pageFaults <= s.pageFaults + |addresses|
    ensures s.tlb.hits <= r.state.tlb.hits <= s.tlb.hits + |addresses|
    ensures r.state.frameAllocated >= s.frameAllocated
    decreases |addresses|
  {
    if addresses == [] then Trace([], s)
    else
      var step := GetAddressValue(s, store, addresses[0]);
      var rest := Run(step.state, store, addresses[1..]);
      Trace([step.value] + rest.values, rest.state)
  }

  /** An unmapped page has no TLB slot. */
  lemma UnmappedNotCached(s: State, page: nat)
    requires Inv(s) && page < PageAmount && s.pageTable[page] == Unmapped
    ensures !Tlb.Holds(s.tlb, page)
  {
  }

  /** The page table is injective on mapped pages: no frame holds two pages. */
  lemma MappingInjective(s: State, p: nat, q: nat)
    requires Inv(s) && p < PageAmount && q < PageAmount && p != q
    requires s.pageTable[p] != Unmapped
    ensures s.pageTable[p] != s.pageTable[q]
  {
  }

  /** A run that starts with every frame in use holding a copy of its page
      ends that way too. */
  lemma {:induction false} RunKeepsCopies(s: State, store: seq<Byte>, addresses: seq<Int32>)
    requires InvCopies(s, store)
    ensures InvCopies(Run(s, store, addresses).state, store)
    decreases |addresses|
  {
    if addresses != [] {
      StepReadsStore(s, store, addresses[0]);
      RunKeepsCopies(GetAddressValue(s, store, addresses[0]).state, store, addresses[1..]);
    }
  }

  /** One translation from frames that hold copies of their pages returns
      the store's byte at the low 16 bits of the address, and the frames
      still hold copies. */
  lemma StepReadsStore(s: State, store: seq<Byte>, address: Int32)
    requires InvCopies(s, store)
    ensures var r := GetAddressValue(s, store, address);
      r.value == StoreByte(store, address % 0x1_0000) && InvCopies(r.state, store)
  {
    GetAddressValueReadsStore(s, store, address);
    Decompose(address);
  }

  /** Every byte a run returns is the backing store's byte at the low 16
      bits of its address, provided the frames start out as copies of their
      pages (as they trivially do at the start of a run). */
  lemma {:induction false} RunReadsStore(s: State, store: seq<Byte>, addresses: seq<Int32>)
    requires InvCopies(s, store)
    ensures forall i :: 0 <= i < |addresses| ==>
              Run(s, store, addresses).values[i] == StoreByte(store, addresses[i] % 0x1_0000)
    decreases |addresses|
  {
    if addresses != [] {
      var step := GetAddressValue(s, store, addresses[0]);
      var rest := Run(step.state, store, addresses[1..]);
      StepReadsStore(s, store, addresses[0]);
      RunReadsStore(step.state, store, addresses[1..]);
      assert Run(s, store, addresses).values == [step.value] + rest.values;
      forall i | 0 < i < |addresses|
        ensures rest.values[i - 1] == StoreByte(store, addresses[i] % 0x1_0000)
      {
        assert addresses[i] == addresses[1..][i - 1];
      }
    }
  }

  /** Pages that are all distinct and all unmapped fault once each and never
      hit the TLB. */
  lemma {:induction false} ColdRun(s: State, store: seq<Byte>, addresses: seq<Int32>)
    requires Inv(s)
    requires forall i, j :: 0 <= i < j < |addresses| ==> GetNumber(addresses[i]) != GetNumber(addresses[j])
    requires forall i :: 0 <= i < |addresses| ==> s.pageTable[GetNumber(addresses[i])] == Unmapped
    ensures Run(s, store, addresses).state.pageFaults == s.pageFaults + |addresses|
    ensures Run(s, store, addresses).state.tlb.hits == s.tlb.hits
    decreases |addresses|
  {
    if addresses != [] {
      var page := GetNumber(addresses[0]);
      UnmappedNotCached(s, page);
      var step := GetAddressValue(s, store, addresses[0]);
      var rest := addresses[1..];
      forall i | 0 <= i < |rest|
        ensures step.state.pageTable[GetNumber(rest[i])] == Unmapped
      {
        assert rest[i] == addresses[i + 1];
      }
      forall i, j | 0 <= i < j < |rest|
        ensures GetNumber(rest[i]) != GetNumber(rest[j])
      {
        assert rest[i] == addresses[i + 1] && rest[j] == addresses[j + 1];
      }
      ColdRun(step.state, store, rest);
    }
  }

  /** From a fresh start, touching distinct pages faults on every one of
      them and hits the TLB never. */
  lemma ColdStart(frameAmount: nat, garbage: seq<Tlb.Entry>, store: seq<Byte>, addresses: seq<Int32>)
    requires 0 < frameAmount && |garbage| == Tlb.TlbSize
    requires forall i, j :: 0 <= i < j < |addresses| ==> GetNumber(addresses[i]) != GetNumber(addresses[j])
    ensures Run(Init(frameAmount, garbage), store, addresses).state.pageFaults == |addresses|
    ensures Run(Init(frameAmount, garbage), store, addresses).state.tlb.hits == 0
  {
    ColdRun(Init(frameAmount, garbage), store, addresses);
  }

  /** A page whose frame is strictly younger than every other frame in use
      keeps its frame through the next translation, provided there are at
      least two frames. */
  lemma YoungestSurvives(t: State, store: seq<Byte>, b: Int32, p: nat)
    requires Inv(t) && t.frameAmount >= 2 && p < PageAmount && t.pageTable[p] != Unmapped
    requires forall g :: 0 <= g < t.frameAllocated && g != t.pageTable[p] ==> t.ageTable[g] < t.ageTable[t.pageTable[p]]
    ensures GetAddressValue(t, store, b).state.pageTable[p] == t.pageTable[p]
  {
    var f := t.pageTable[p];
    var g := if f == 0 then 1 else 0;
    assert t.frameAllocated == t.frameAmount ==> !Lru.IsFirstMin(t.ageTable, f) by {
      if t.frameAllocated == t.frameAmount {
        assert t.ageTable[g] < t.ageTable[f];
      }
    }
  }

  /** With at least two frames, the page used by one translation is still
      mapped, to the same frame, after the next: LRU never evicts the most
      recently used frame. */
  lemma MostRecentSurvives(s: State, store: seq<Byte>, a: Int32, b: Int32)
    requires Inv(s) && s.frameAmount >= 2
    ensures var first := GetAddressValue(s, store, a);
            GetAddressValue(first.state, store, b).state.pageTable[GetNumber(a)]
              == first.state.pageTable[GetNumber(a)]
  {
    var first := GetAddressValue(s, store, a);
    YoungestSurvives(first.state, store, b, GetNumber(a));
  }

  /** Translating an address on the page just translated hits the TLB and
      does not fault. */
  lemma RepeatHits(s: State, store: seq<Byte>, a: Int32, b: Int32)
    requires Inv(s) && GetNumber(a) == GetNumber(b)
    ensures var first := GetAddressValue(s, store, a);
            var second := GetAddressValue(first.state, store, b);
            && second.state.pageFaults == first.state.pageFaults
            && second.state.tlb.hits == first.state.tlb.hits + 1
            && second.state.pageTable == first.state.pageTable
  {
    TranslateCaches(s, store, a);
  }
}
