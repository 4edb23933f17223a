/**
 * The byte form of a numeric entry (getBytes in src/PelEntryNumber.php).
 *
 * The per-number encoder numberToBytes belongs to the concrete entry
 * types, which are not part of this model; it is a parameter here, and
 * all that is assumed of it is a fixed output width per type (one, two
 * or four bytes for the BYTE, SHORT and LONG field types of TIFF
 * Revision 6.0, section 2, a RATIONAL being two LONGs).
 */
module NumberBytes {
  import opened Numbers
  import opened Bytes

  type Encoder = (int, ByteOrder) -> seq<byte>

  ghost predicate FixedWidth(enc: Encoder, width: nat)
  {
    forall x, o :: |enc(x, o)| == width
  }

  lemma EncodedWidth(enc: Encoder, width: nat, x: int, o: ByteOrder)
    requires FixedWidth(enc, width)
    ensures |enc(x, o)| == width
  {
  }

  /** getBytes reads a bare integer from every value of a dimension-one
      entry, and slots 0 .. dimension - 1, all present, from every value
      of a dimensioned one. */
  predicate Encodable(n: Number, dimension: nat)
  {
    if dimension == 1 then n.Scalar?
    else n.Tuple? && dimension <= |n.slots| && forall j :: 0 <= j < dimension ==> n.slots[j].Some?
  }

  /** Slot j of an encodable number: the integer itself when the
      dimension is one. */
  function Slot(n: Number, dimension: nat, j: nat): int
    requires Encodable(n, dimension) && j < dimension
  {
    if dimension == 1 then n.x else n.slots[j].value
  }

  /** The encodings of slots 0 .. k - 1, in slot order. */
  function SlotBytes(slots: seq<Option<int>>, k: nat, enc: Encoder, o: ByteOrder): seq<byte>
    requires k <= |slots| && forall j :: 0 <= j < k ==> slots[j].Some?
  {
    if k == 0 then [] else SlotBytes(slots, k - 1, enc, o) + enc(slots[k - 1].value, o)
  }

  /** The bytes of one value. */
  function ValueBytes(n: Number, dimension: nat, enc: Encoder, o: ByteOrder): seq<byte>
    requires dimension >= 1 && Encodable(n, dimension)
  {
    if dimension == 1 then enc(n.x, o) else SlotBytes(n.slots, dimension, enc, o)
  }

  /** The bytes of the values, in value order. */
  function Encoding(vs: seq<Number>, dimension: nat, enc: Encoder, o: ByteOrder): seq<byte>
    requires dimension >= 1 && forall i :: 0 <= i < |vs| ==> Encodable(vs[i], dimension)
  {
    if vs == [] then []
    else Encoding(vs[..|vs| - 1], dimension, enc, o) + ValueBytes(vs[|vs| - 1], dimension, enc, o)
  }

  /** n copies of m added up: byte offsets are built from it, and it is
      converted to n * m only where a lemma states its result. */
  function Sum(n: nat, m: nat): nat
  {
    if n == 0 then 0 else Sum(n - 1, m) + m
  }

  lemma {:induction false} SumIsProduct(n: nat, m: nat)
    ensures Sum(n, m) == n * m
  {
    if n > 0 {
      SumIsProduct(n - 1, m);
      assert (n - 1) * m + m == n * m;
    }
  }

  lemma Offset(i: nat, dimension: nat, j: nat, width: nat)
    ensures (i * dimension + j) * width == Sum(i, Sum(dimension, width)) + Sum(j, width)
  {
    SumIsProduct(dimension, width);
    SumIsProduct(i, dimension * width);
    SumIsProduct(j, width);
    calc {
      (i * dimension + j) * width;
      i * dimension * width + j * width;
      i * (dimension * width) + j * width;
    }
  }

  lemma SliceLeft<T>(a: seq<T>, b: seq<T>, lo: int, hi: int)
    requires 0 <= lo <= hi <= |a|
    ensures (a + b)[lo..hi] == a[lo..hi]
  {
  }

  lemma SliceRight<T>(a: seq<T>, b: seq<T>, lo: int, hi: int)
    requires |a| <= lo <= hi <= |a| + |b|
    ensures (a + b)[lo..hi] == b[lo - |a|..hi - |a|]
  {
  }

  lemma {:induction false} SlotBytesLength(slots: seq<Option<int>>, k: nat, enc: Encoder, o: ByteOrder, width: nat)
    requires k <= |slots| && forall j :: 0 <= j < k ==> slots[j].Some?
    requires FixedWidth(enc, width)
    ensures |SlotBytes(slots, k, enc, o)| == Sum(k, width)
  {
    if k > 0 {
      SlotBytesLength(slots, k - 1, enc, o, width);
      EncodedWidth(enc, width, slots[k - 1].value, o);
    }
  }

  lemma ValueBytesLength(n: Number, dimension: nat, enc: Encoder, o: ByteOrder, width: nat)
    requires dimension >= 1 && Encodable(n, dimension)
    requires FixedWidth(enc, width)
    ensures |ValueBytes(n, dimension, enc, o)| == Sum(dimension, width)
  {
    if dimension == 1 {
      EncodedWidth(enc, width, n.x, o);
      assert Sum(1, width) == width;
    } else {
      SlotBytesLength(n.slots, dimension, enc, o, width);
    }
  }

  lemma {:induction false} EncodingLengthSum(vs: seq<Number>, dimension: nat, enc: Encoder, o: ByteOrder, width: nat)
    requires dimension >= 1 && forall i :: 0 <= i < |vs| ==> Encodable(vs[i], dimension)
    requires FixedWidth(enc, width)
    ensures |Encoding(vs, dimension, enc, o)| == Sum(|vs|, Sum(dimension, width))
  {
    if vs != [] {
      var n := |vs| - 1;
      EncodingLengthSum(vs[..n], dimension, enc, o, width);
      ValueBytesLength(vs[n], dimension, enc, o, width);
    }
  }

  /** With a fixed-width encoder the byte form is exactly
      count * dimension * width bytes long. */
  lemma EncodingLength(vs: seq<Number>, dimension: nat, enc: Encoder, o: ByteOrder, width: nat)
    requires dimension >= 1 && forall i :: 0 <= i < |vs| ==> Encodable(vs[i], dimension)
    requires FixedWidth(enc, width)
    ensures |Encoding(vs, dimension, enc, o)| == |vs| * dimension * width
  {
    EncodingLengthSum(vs, dimension, enc, o, width);
    Offset(|vs|, dimension, 0, width);
  }

  /** The byte form of a concatenation is the concatenation of the byte
      forms: each value's bytes follow those of the values before it. */
  lemma {:induction false} EncodingAppend(a: seq<Number>, b: seq<Number>, dimension: nat, enc: Encoder, o: ByteOrder)
    requires dimension >= 1
    requires forall i :: 0 <= i < |a| ==> Encodable(a[i], dimension)
    requires forall i :: 0 <= i < |b| ==> Encodable(b[i], dimension)
    ensures forall i :: 0 <= i < |a + b| ==> Encodable((a + b)[i], dimension)
    ensures Encoding(a + b, dimension, enc, o) == Encoding(a, dimension, enc, o) + Encoding(b, dimension, enc, o)
  {
    if b != [] {
      var n := |b| - 1;
      assert (a + b)[..|a + b| - 1] == a + b[..n];
      EncodingAppend(a, b[..n], dimension, enc, o);
    } else {
      assert a + b == a;
    }
  }

  /** Extending a prefix by one value appends that value's bytes. */
  lemma EncodingPrefix(vs: seq<Number>, dimension: nat, enc: Encoder, o: ByteOrder, i: nat)
    requires dimension >= 1 && forall k :: 0 <= k < |vs| ==> Encodable(vs[k], dimension)
    requires i < |vs|
    ensures Encoding(vs[..i + 1], dimension, enc, o) ==
      Encoding(vs[..i], dimension, enc, o) + ValueBytes(vs[i], dimension, enc, o)
  {
    assert vs[..i + 1][..i] == vs[..i];
  }

  /** The byte form splits around value i into the bytes of the values
      before it, its own bytes, and the bytes of the values after it. */
  lemma EncodingSplit(vs: seq<Number>, dimension: nat, enc: Encoder, o: ByteOrder, i: nat)
    requires dimension >= 1 && forall k :: 0 <= k < |vs| ==> Encodable(vs[k], dimension)
    requires i < |vs|
    ensures Encoding(vs, dimension, enc, o) ==
      Encoding(vs[..i], dimension, enc, o) + ValueBytes(vs[i], dimension, enc, o) + Encoding(vs[i + 1..], dimension, enc, o)
  {
    var front, rest := vs[..i + 1], vs[i + 1..];
    assert vs == front + rest;
    EncodingAppend(front, rest, dimension, enc, o);
    EncodingPrefix(vs, dimension, enc, o, i);
  }

  /** Slot j occupies the width bytes from offset Sum(j, width) of the
      encodings of slots 0 .. k - 1. */
  lemma {:induction false} SlotBytesAt(slots: seq<Option<int>>, k: nat, j: nat, enc: Encoder, o: ByteOrder, width: nat)
    requires k <= |slots| && forall i :: 0 <= i < k ==> slots[i].Some?
    requires FixedWidth(enc, width) && j < k
    ensures Sum(j, width) + width <= |SlotBytes(slots, k, enc, o)|
    ensures SlotBytes(slots, k, enc, o)[Sum(j, width) .. Sum(j, width) + width] == enc(slots[j].value, o)
  {
    var front := SlotBytes(slots, k - 1, enc, o);
    var last := enc(slots[k - 1].value, o);
    assert SlotBytes(slots, k, enc, o) == front + last;
    SlotBytesLength(slots, k - 1, enc, o, width);
    EncodedWidth(enc, width, slots[k - 1].value, o);
    var at := Sum(j, width);
    if j == k - 1 {
      SliceRight(front, last, at, at + width);
    } else {
      SlotBytesAt(slots, k - 1, j, enc, o, width);
      SliceLeft(front, last, at, at + width);
    }
  }

  /** Slot j of a value occupies the width bytes from offset Sum(j, width)
      of that value's bytes. */
  lemma ValueBytesAt(n: Number, dimension: nat, enc: Encoder, o: ByteOrder, width: nat, j: nat)
    requires dimension >= 1 && Encodable(n, dimension)
    requires FixedWidth(enc, width) && j < dimension
    ensures Sum(j, width) + width <= |ValueBytes(n, dimension, enc, o)|
    ensures ValueBytes(n, dimension, enc, o)[Sum(j, width) .. Sum(j, width) + width] == enc(Slot(n, dimension, j), o)
  {
    if dimension == 1 {
      assert Sum(j, width) == 0;
      EncodedWidth(enc, width, n.x, o);
    } else {
      SlotBytesAt(n.slots, dimension, j, enc, o, width);
    }
  }

  /** Value i starts Sum(i, Sum(dimension, width)) bytes in, and its slot j
      Sum(j, width) bytes after that. */
  lemma EncodingAtSum(vs: seq<Number>, dimension: nat, enc: Encoder, o: ByteOrder, width: nat, i: nat, j: nat, at: nat)
    requires dimension >= 1 && forall k :: 0 <= k < |vs| ==> Encodable(vs[k], dimension)
    requires FixedWidth(enc, width)
    requires i < |vs| && j < dimension
    requires at == Sum(i, Sum(dimension, width)) + Sum(j, width)
    ensures at + width <= |Encoding(vs, dimension, enc, o)|
    ensures Encoding(vs, dimension, enc, o)[at .. at + width] == enc(Slot(vs[i], dimension, j), o)
  {
    var a := Encoding(vs[..i], dimension, enc, o);
    var nb := ValueBytes(vs[i], dimension, enc, o);
    var tail := Encoding(vs[i + 1..], dimension, enc, o);
    var p := Sum(j, width);
    assert Encoding(vs, dimension, enc, o) == a + nb + tail by {
      EncodingSplit(vs, dimension, enc, o, i);
    }
    assert |a| == Sum(i, Sum(dimension, width)) by {
      EncodingLengthSum(vs[..i], dimension, enc, o, width);
    }
    assert p + width <= |nb| && nb[p .. p + width] == enc(Slot(vs[i], dimension, j), o) by {
      ValueBytesAt(vs[i], dimension, enc, o, width, j);
    }
    SliceMiddle(Encoding(vs, dimension, enc, o), a, nb, tail, at, p, width);
  }

  /** The w elements at offset p of the middle part b of e == a + b + c. */
  lemma SliceMiddle<T>(e: seq<T>, a: seq<T>, b: seq<T>, c: seq<T>, at: nat, p: nat, w: nat)
    requires e == a + b + c && at == |a| + p && p + w <= |b|
    ensures at + w <= |e| && e[at .. at + w] == b[p .. p + w]
  {
  }

  /** Value i, slot j occupies the bytes from offset (i * dimension + j) * width
      on: the encoder is applied in value order and, within a value, in
      slot order, with nothing in between. */
  lemma EncodingAt(vs: seq<Number>, dimension: nat, enc: Encoder, o: ByteOrder, width: nat, i: nat, j: nat)
    requires dimension >= 1 && forall k :: 0 <= k < |vs| ==> Encodable(vs[k], dimension)
    requires FixedWidth(enc, width)
    requires i < |vs| && j < dimension
    ensures 0 <= (i * dimension + j) * width && (i * dimension + j) * width + width <= |Encoding(vs, dimension, enc, o)|
    ensures Encoding(vs, dimension, enc, o)[(i * dimension + j) * width .. (i * dimension + j) * width + width]
      == enc(Slot(vs[i], dimension, j), o)
  {
    Offset(i, dimension, j, width);
    EncodingAtSum(vs, dimension, enc, o, width, i, j, (i * dimension + j) * width);
  }
}
