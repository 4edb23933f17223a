/**
 * The numbers a numeric directory entry holds, and the range rule that
 * validateNumber applies to them (src/PelEntryNumber.php).
 *
 * A number is either a bare integer or a tuple of slots (a rational is a
 * numerator/denominator pair). A slot may be absent: the source accepts
 * PHP arrays with unset indices while a tuple is still being built.
 */
module Numbers {

  datatype Option<+T> = None | Some(value: T)

  datatype Number = Scalar(x: int) | Tuple(slots: seq<Option<int>>)

  /** The outcome of a range check: passed, or the overflow the source
      raises, carrying the offending value and the violated bounds. */
  datatype Outcome = Pass | Overflow(value: int, min: int, max: int)

  /** validateNumber compares `n` itself against the bounds when the entry
      has dimension one or `n` is a bare integer. */
  predicate ScalarPath(n: Number, dimension: int)
  {
    dimension == 1 || n.Scalar?
  }

  /** `n < min || n > max` as PHP evaluates it: an array compares greater
      than every integer, so a tuple on the scalar path is always above max. */
  predicate ScalarOutside(n: Number, lo: int, hi: int)
  {
    match n
    case Scalar(x) => x < lo || x > hi
    case Tuple(_) => true
  }

  /** PHP's `(int)` cast, used for the value an overflow reports:
      an empty array casts to 0 and any other array to 1. */
  function IntCast(n: Number): int
  {
    match n
    case Scalar(x) => x
    case Tuple(s) => if |s| == 0 then 0 else 1
  }

  predicate Outside(v: int, lo: int, hi: int)
  {
    v < lo || v > hi
  }

  /** The values of the present slots with index below k that lie outside
      [lo, hi], in slot order; absent slots contribute nothing. */
  function SlotViolations(slots: seq<Option<int>>, k: nat, lo: int, hi: int): seq<int>
  {
    if k == 0 then []
    else
      var i := k - 1;
      SlotViolations(slots, i, lo, hi) +
        (if i < |slots| && slots[i].Some? && Outside(slots[i].value, lo, hi)
         then [slots[i].value] else [])
  }

  /** Every violation validateNumber meets, in the order it meets them. */
  function Violations(n: Number, lo: int, hi: int, dimension: nat): seq<int>
  {
    if ScalarPath(n, dimension) then
      (if ScalarOutside(n, lo, hi) then [IntCast(n)] else [])
    else
      SlotViolations(n.slots, dimension, lo, hi)
  }

  /** What validateNumber reports: under the strict policy the first
      violation is raised; under the lenient policy nothing is. */
  function Check(n: Number, lo: int, hi: int, dimension: nat, strict: bool): Outcome
  {
    var vs := Violations(n, lo, hi, dimension);
    if strict && |vs| > 0 then Overflow(vs[0], lo, hi) else Pass
  }

  /** The range rule read directly: a number on the scalar path must be an
      integer inside [lo, hi]; a tuple must have every PRESENT slot below
      `dimension` inside [lo, hi], absent slots being skipped. */
  predicate InRange(n: Number, lo: int, hi: int, dimension: nat)
  {
    if ScalarPath(n, dimension) then
      n.Scalar? && lo <= n.x <= hi
    else
      forall i :: 0 <= i < dimension && i < |n.slots| && n.slots[i].Some? ==>
        lo <= n.slots[i].value <= hi
  }

  /** What setValueArray reports for a whole array: every element is
      validated in order, and the first failure is the one raised. */
  function CheckAll(vs: seq<Number>, lo: int, hi: int, dimension: nat, strict: bool): Outcome
  {
    if vs == [] then Pass
    else if Check(vs[0], lo, hi, dimension, strict).Overflow? then Check(vs[0], lo, hi, dimension, strict)
    else CheckAll(vs[1..], lo, hi, dimension, strict)
  }

  lemma {:induction false} SlotViolationsEmpty(slots: seq<Option<int>>, k: nat, lo: int, hi: int)
    ensures SlotViolations(slots, k, lo, hi) == [] <==>
      forall i :: 0 <= i < k && i < |slots| && slots[i].Some? ==> lo <= slots[i].value <= hi
  {
    if k > 0 {
      SlotViolationsEmpty(slots, k - 1, lo, hi);
    }
  }

  /** The first violation among the slots below k is at some index i:
      a present, out-of-range slot after only in-range or absent ones. */
  lemma {:induction false} SlotViolationsFirst(slots: seq<Option<int>>, k: nat, lo: int, hi: int)
    requires SlotViolations(slots, k, lo, hi) != []
    ensures exists i :: (0 <= i < k && i < |slots| && slots[i] == Some(SlotViolations(slots, k, lo, hi)[0]) &&
                         Outside(slots[i].value, lo, hi) && SlotViolations(slots, i, lo, hi) == [])
  {
    var i := k - 1;
    if SlotViolations(slots, i, lo, hi) == [] {
      assert i < |slots| && slots[i] == Some(SlotViolations(slots, k, lo, hi)[0]);
    } else {
      SlotViolationsFirst(slots, i, lo, hi);
    }
  }

  /** Once the slots below i pass and slot i fails, slot i is the first
      violation reported for any bound k beyond i. */
  lemma {:induction false} SlotViolationsAt(slots: seq<Option<int>>, i: nat, k: nat, lo: int, hi: int)
    requires i < k && i < |slots| && slots[i].Some? && Outside(slots[i].value, lo, hi)
    requires SlotViolations(slots, i, lo, hi) == []
    ensures SlotViolations(slots, k, lo, hi) != []
    ensures SlotViolations(slots, k, lo, hi)[0] == slots[i].value
  {
    if k > i + 1 {
      SlotViolationsAt(slots, i, k - 1, lo, hi);
    }
  }

  /** validateNumber passes exactly when the policy is lenient or the number
      satisfies the range rule. */
  lemma CheckPassIff(n: Number, lo: int, hi: int, dimension: nat, strict: bool)
    ensures Check(n, lo, hi, dimension, strict) == Pass <==> !strict || InRange(n, lo, hi, dimension)
  {
    if !ScalarPath(n, dimension) {
      SlotViolationsEmpty(n.slots, dimension, lo, hi);
    }
  }

  /** A strict failure on the scalar path names the integer itself, which
      lies strictly below min or strictly above max: the bounds are inclusive. */
  lemma CheckScalar(x: int, lo: int, hi: int, dimension: nat)
    ensures Check(Scalar(x), lo, hi, dimension, true) ==
      if x < lo || x > hi then Overflow(x, lo, hi) else Pass
  {
  }

  /** A strict failure on a tuple names the first present slot below the
      dimension that is out of range; the slots before it are absent or in range. */
  lemma CheckTupleReportsFirst(slots: seq<Option<int>>, lo: int, hi: int, dimension: nat)
    requires dimension != 1
    requires Check(Tuple(slots), lo, hi, dimension, true).Overflow?
    ensures exists i :: (0 <= i < dimension && i < |slots| &&
                         slots[i] == Some(Check(Tuple(slots), lo, hi, dimension, true).value) &&
                         Outside(slots[i].value, lo, hi) &&
                         forall j :: 0 <= j < i && slots[j].Some? ==> lo <= slots[j].value <= hi)
  {
    SlotViolationsFirst(slots, dimension, lo, hi);
    var i :| 0 <= i < dimension && i < |slots| &&
      slots[i] == Some(SlotViolations(slots, dimension, lo, hi)[0]) &&
      Outside(slots[i].value, lo, hi) && SlotViolations(slots, i, lo, hi) == [];
    SlotViolationsEmpty(slots, i, lo, hi);
  }

  /** setValueArray passes exactly when the policy is lenient or every
      element satisfies the range rule. */
  lemma {:induction false} CheckAllPassIff(vs: seq<Number>, lo: int, hi: int, dimension: nat, strict: bool)
    ensures CheckAll(vs, lo, hi, dimension, strict) == Pass <==>
      !strict || forall i :: 0 <= i < |vs| ==> InRange(vs[i], lo, hi, dimension)
  {
    if vs != [] {
      CheckPassIff(vs[0], lo, hi, dimension, strict);
      CheckAllPassIff(vs[1..], lo, hi, dimension, strict);
      if strict && CheckAll(vs, lo, hi, dimension, strict) == Pass {
        forall i | 0 <= i < |vs| ensures InRange(vs[i], lo, hi, dimension) {
          if i > 0 { assert vs[i] == vs[1..][i - 1]; }
        }
      }
      if strict && forall i :: 0 <= i < |vs| ==> InRange(vs[i], lo, hi, dimension) {
        forall i | 0 <= i < |vs| - 1 ensures InRange(vs[1..][i], lo, hi, dimension) {
          assert vs[1..][i] == vs[i + 1];
        }
      }
    }
  }

  /** If the elements before index i all pass and element i fails, the
      whole array fails with element i's overflow. */
  lemma {:induction false} CheckAllAt(vs: seq<Number>, i: nat, lo: int, hi: int, dimension: nat, strict: bool)
    requires i < |vs|
    requires forall j :: 0 <= j < i ==> Check(vs[j], lo, hi, dimension, strict) == Pass
    requires Check(vs[i], lo, hi, dimension, strict).Overflow?
    ensures CheckAll(vs, lo, hi, dimension, strict) == Check(vs[i], lo, hi, dimension, strict)
  {
    if i > 0 {
      CheckAllAt(vs[1..], i - 1, lo, hi, dimension, strict);
    }
  }

  /** If every element passes, so does the whole array. */
  lemma {:induction false} CheckAllAllPass(vs: seq<Number>, lo: int, hi: int, dimension: nat, strict: bool)
    requires forall j :: 0 <= j < |vs| ==> Check(vs[j], lo, hi, dimension, strict) == Pass
    ensures CheckAll(vs, lo, hi, dimension, strict) == Pass
  {
    if vs != [] {
      CheckAllAllPass(vs[1..], lo, hi, dimension, strict);
    }
  }
}
