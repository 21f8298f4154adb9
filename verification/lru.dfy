/** Choosing the least-recently-used frame.  Each frame records the value of
    the global age counter at its last access; the victim is the frame with
    the smallest recorded age, the lowest index among equal ages.
 */
module Lru {

  /** Frame `k` has the minimal age, and every frame before it has a strictly
      greater age: `k` is the first minimum. */
  predicate IsFirstMin(ages: seq<nat>, k: int) {
    && 0 <= k < |ages|
    && (forall j :: 0 <= j < |ages| ==> ages[k] <= ages[j])
    && (forall j :: 0 <= j < k ==> ages[k] < ages[j])
  }

  /** The scan's running minimum and the frame that holds it (-1 for none). */
  datatype Pick = Pick(lowestAge: int, lowestFrame: int)

  /** The scan from index `i` on, with `dumpFrame`'s strict `<` comparison,
      starting from the minimum found over `ages[..i]`. */
  function Scan(ages: seq<nat>, i: nat, lowestAge: int, lowestFrame: int): (r: Pick)
    requires i <= |ages|
    requires lowestFrame == -1 || (0 <= lowestFrame < i && ages[lowestFrame] == lowestAge)
    requires forall j :: 0 <= j < i ==> lowestAge <= ages[j]
    requires lowestFrame != -1 ==> forall j :: 0 <= j < lowestFrame ==> lowestAge < ages[j]
    ensures r.lowestAge <= lowestAge
    ensures forall j :: 0 <= j < |ages| ==> r.lowestAge <= ages[j]
    ensures r.lowestFrame == -1 <==> lowestFrame == -1 && forall j :: i <= j < |ages| ==> lowestAge <= ages[j]
    ensures r.lowestFrame != -1 ==> 0 <= r.lowestFrame < |ages| && ages[r.lowestFrame] == r.lowestAge
    ensures r.lowestFrame != -1 ==> forall j :: 0 <= j < r.lowestFrame ==> r.lowestAge < ages[j]
    decreases |ages| - i
  {
    if i == |ages| then Pick(lowestAge, lowestFrame)
    else if ages[i] < lowestAge then Scan(ages, i + 1, ages[i], i)
    else Scan(ages, i + 1, lowestAge, lowestFrame)
  }

  /** The first frame whose age is below `bound` and minimal, or -1 when no
      age is below `bound`.  `dumpFrame` starts the scan with the current
      global age as the running minimum. */
  function LowestAgeFrame(ages: seq<nat>, bound: nat): (k: int)
    ensures k == -1 <==> forall j :: 0 <= j < |ages| ==> bound <= ages[j]
    ensures k != -1 ==> IsFirstMin(ages, k) && ages[k] < bound
  {
    Scan(ages, 0, bound, -1).lowestFrame
  }

  /** There is only one first minimum. */
  lemma FirstMinUnique(ages: seq<nat>, k: int, k': int)
    requires IsFirstMin(ages, k) && IsFirstMin(ages, k')
    ensures k == k'
  {
    assert ages[k] <= ages[k'] && ages[k'] <= ages[k];
  }

  /** When every age is below `bound`, the scan always picks a frame, and the
      frame it picks is not one whose age is strictly above another's. */
  lemma LowestAgeSkipsYounger(ages: seq<nat>, bound: nat, newer: int, older: int)
    requires 0 <= newer < |ages| && 0 <= older < |ages| && ages[older] < ages[newer]
    requires forall j :: 0 <= j < |ages| ==> ages[j] < bound
    ensures LowestAgeFrame(ages, bound) != -1
    ensures LowestAgeFrame(ages, bound) != newer
  {
    assert ages[0] < bound;
  }
}
