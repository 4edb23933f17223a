/**
 * The generic numeric entry (src/PelEntryNumber.php): a sequence of
 * numbers with inclusive bounds and a dimension, range-checked on every
 * change, read back collapsed, serialised through a per-number encoder and
 * rendered as text.
 *
 * PelEntryNumber extends PelEntry; here a NumberEntry owns an Entry,
 * `base`, holding the shared fields (tag, format, component count, IFD
 * type). The strict policy, a global flag in the library, is the `strict`
 * argument of every validating operation; under it a range failure is an
 * Overflow outcome and nothing is changed.
 */
module NumberEntries {
  import opened Numbers
  import opened Bytes
  import opened NumberBytes
  import opened Strings
  import opened NumberFormat
  import opened Entries

  /** What getValue returns: the single number when there is exactly one
      component, otherwise the whole (possibly empty) sequence. */
  datatype EntryValue = One(n: Number) | Many(ns: seq<Number>)

  /** The numbers an EntryValue stands for. */
  function Values(v: EntryValue): seq<Number>
  {
    match v
    case One(n) => [n]
    case Many(ns) => ns
  }

  /** The inner loop of getBytes: slots 0 .. dimension - 1 of one value,
      encoded in slot order. */
  method EncodeSlots(slots: seq<Option<int>>, dimension: nat, enc: Encoder, o: ByteOrder) returns (r: seq<byte>)
    requires dimension <= |slots| && forall j :: 0 <= j < dimension ==> slots[j].Some?
    ensures r == SlotBytes(slots, dimension, enc, o)
  {
    r := [];
    for j := 0 to dimension
      invariant r == SlotBytes(slots, j, enc, o)
    {
      r := r + enc(slots[j].value, o);
    }
  }

  class NumberEntry {
    const base: Entry
    var value: seq<Number>
    const min: int
    const max: int
    const dimension: nat
    /** The encoder of the concrete type and its fixed output width. */
    const width: nat
    const numberToBytes: Encoder

    ghost predicate Valid()
      reads this, base
    {
      base.components == |value| && dimension >= 1 && FixedWidth(numberToBytes, width)
    }

    /** Every stored number satisfies the range rule; the strict policy
        keeps this true. */
    ghost predicate AllInRange()
      reads this
    {
      forall i :: 0 <= i < |value| ==> InRange(value[i], min, max, dimension)
    }

    /** An entry of a concrete numeric type, holding no numbers yet. */
    constructor(tag: int, format: int, min: int, max: int, dimension: nat, width: nat, numberToBytes: Encoder)
      requires dimension >= 1 && FixedWidth(numberToBytes, width)
      ensures Valid() && fresh(base) && AllInRange()
      ensures value == [] && base.components == 0
      ensures base.tag == tag && base.format == format && base.ifdType == NO_IFD && base.bytes == []
      ensures this.min == min && this.max == max && this.dimension == dimension
      ensures this.width == width && this.numberToBytes == numberToBytes
    {
      base := new Entry(tag, format, 0);
      value := [];
      this.min := min;
      this.max := max;
      this.dimension := dimension;
      this.width := width;
      this.numberToBytes := numberToBytes;
    }

    /** Range-checks one number without storing it. */
    method ValidateNumber(n: Number, strict: bool) returns (o: Outcome)
      ensures o == Check(n, min, max, dimension, strict)
    {
      if dimension == 1 || n.Scalar? {
        // An array compares greater than any integer, so on this path a
        // tuple is always above max; the overflow reports its (int) cast.
        var outside := match n
          case Scalar(x) => x < min || x > max
          case Tuple(_) => true;
        if outside && strict {
          return Overflow(IntCast(n), min, max);
        }
        return Pass;
      }
      for i := 0 to dimension
        invariant strict ==> SlotViolations(n.slots, i, min, max) == []
      {
        if !(i < |n.slots| && n.slots[i].Some?) {
          continue;
        }
        var v := n.slots[i].value;
        if (v < min || v > max) && strict {
          SlotViolationsAt(n.slots, i, dimension, min, max);
          return Overflow(v, min, max);
        }
      }
      return Pass;
    }

    /** Replaces all numbers. Every number is validated before anything
        is assigned, so a strict failure leaves the entry as it was. */
    method SetValueArray(vs: seq<Number>, strict: bool) returns (o: Outcome)
      requires Valid()
      modifies this`value, base`components
      ensures Valid()
      ensures o == CheckAll(vs, min, max, dimension, strict)
      ensures o.Pass? <==> !strict || forall i :: 0 <= i < |vs| ==> InRange(vs[i], min, max, dimension)
      ensures o.Pass? ==> value == vs && base.components == |vs|
      ensures o.Overflow? ==> value == old(value) && base.components == old(base.components)
      ensures strict && o.Pass? ==> AllInRange()
      ensures strict && old(AllInRange()) ==> AllInRange()
    {
      CheckAllPassIff(vs, min, max, dimension, strict);
      for i := 0 to |vs|
        invariant forall j :: 0 <= j < i ==> Check(vs[j], min, max, dimension, strict) == Pass
        invariant value == old(value) && base.components == old(base.components)
      {
        var r := ValidateNumber(vs[i], strict);
        if r.Overflow? {
          CheckAllAt(vs, i, min, max, dimension, strict);
          return r;
        }
      }
      CheckAllAllPass(vs, min, max, dimension, strict);
      base.components := |vs|;
      value := vs;
      return Pass;
    }

    /** The variadic form: the arguments, of which PHP demands at least
        one, become the new array. A single argument is what getValue
        later returns on its own. */
    method SetValue(first: Number, rest: seq<Number>, strict: bool) returns (o: Outcome)
      requires Valid()
      modifies this`value, base`components
      ensures Valid()
      ensures o == CheckAll([first] + rest, min, max, dimension, strict)
      ensures o.Pass? ==> value == [first] + rest && (GetValue() == One(first) <==> rest == [])
      ensures o.Overflow? ==> value == old(value) && base.components == old(base.components)
      ensures strict && old(AllInRange()) ==> AllInRange()
    {
      o := SetValueArray([first] + rest, strict);
    }

    /** The numbers held, collapsed to the single number when there is
        exactly one component. */
    function GetValue(): (r: EntryValue)
      reads this, base
      requires Valid()
      ensures Values(r) == value
      ensures r.One? <==> base.components == 1
    {
      if base.components == 1 then One(value[0]) else Many(value)
    }

    /** Appends one number after those already held. */
    method AddNumber(n: Number, strict: bool) returns (o: Outcome)
      requires Valid()
      modifies this`value, base`components
      ensures Valid()
      ensures o == Check(n, min, max, dimension, strict)
      ensures o.Pass? <==> !strict || InRange(n, min, max, dimension)
      ensures o.Pass? ==> value == old(value) + [n] && base.components == old(base.components) + 1
      ensures o.Overflow? ==> value == old(value) && base.components == old(base.components)
      ensures strict && old(AllInRange()) ==> AllInRange()
    {
      CheckPassIff(n, min, max, dimension, strict);
      o := ValidateNumber(n, strict);
      if o.Overflow? {
        return;
      }
      value := value + [n];
      base.components := base.components + 1;
    }

    /** The byte form: the encoder applied to every number in order and,
        for a dimensioned entry, to slots 0 .. dimension - 1 of each. */
    method GetBytes(o: ByteOrder) returns (r: seq<byte>)
      requires Valid()
      requires forall i :: 0 <= i < |value| ==> Encodable(value[i], dimension)
      ensures r == Encoding(value, dimension, numberToBytes, o)
      ensures |r| == base.components * dimension * width
    {
      var vals, count, enc := value, base.components, numberToBytes;
      r := [];
      for i := 0 to count
        invariant r == Encoding(vals[..i], dimension, enc, o)
      {
        var n := vals[i];
        var nb;
        if dimension == 1 {
          nb := enc(n.x, o);
        } else {
          nb := EncodeSlots(n.slots, dimension, enc, o);
        }
        EncodingPrefix(vals, dimension, enc, o, i);
        r := r + nb;
      }
      assert vals[..count] == vals;
      EncodingLength(vals, dimension, enc, o, width);
    }

    /** The numbers as text: empty when there are none, otherwise each
        number formatted, separated by a space when brief and by a comma
        and a space otherwise. */
    method GetText(brief: bool) returns (s: string)
      requires Valid()
      ensures s == Text(value, brief)
      ensures s == "" <==> base.components == 0
    {
      var vals, count := value, base.components;
      TextEmptyIff(vals, brief);
      if count == 0 {
        return "";
      }
      ghost var parts := Formatted(vals);
      s := FormatNumber(vals[0], false);
      assert parts[..1] == [parts[0]];
      for i := 1 to count
        invariant s == Join(parts[..i], Separator(brief))
      {
        TextStep(vals, i, brief);
        s := s + (if brief then " " else ", ");
        s := s + FormatNumber(vals[i], false);
      }
      assert parts[..count] == parts;
    }

    /** The debug rendering of the entry. */
    method ToDebugLines() returns (lines: seq<DebugLine<EntryValue>>)
      requires Valid()
      ensures lines == DebugLines(base.tag, base.ifdType, base.format, base.components, GetValue(), Text(value, false))
    {
      var text := GetText(false);
      lines := DebugLines(base.GetTag(), base.GetIfdType(), base.GetFormat(), base.GetComponents(), GetValue(), text);
    }
  }
}
