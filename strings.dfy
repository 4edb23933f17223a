/**
 * Joining strings with a separator, as getText builds its result, and
 * splitting on one character, the way a consumer reads that result back.
 */
module Strings {

  /** The parts in order, with `sep` between each two neighbours. */
  function Join(parts: seq<string>, sep: string): string
  {
    if |parts| == 0 then ""
    else if |parts| == 1 then parts[0]
    else parts[0] + sep + Join(parts[1..], sep)
  }

  /** The maximal runs of s that do not contain c, in order; a string
      with k occurrences of c has k + 1 fields. */
  function Split(s: string, c: char): (fields: seq<string>)
    ensures |fields| >= 1
  {
    if |s| == 0 then [""]
    else if s[0] == c then [""] + Split(s[1..], c)
    else
      var rest := Split(s[1..], c);
      [[s[0]] + rest[0]] + rest[1..]
  }

  /** Appending one more part adds one separator and the part at the end. */
  lemma {:induction false} JoinSnoc(parts: seq<string>, p: string, sep: string)
    requires |parts| >= 1
    ensures Join(parts + [p], sep) == Join(parts, sep) + sep + p
  {
    if |parts| > 1 {
      assert (parts + [p])[1..] == parts[1..] + [p];
      JoinSnoc(parts[1..], p, sep);
    }
  }

  lemma {:induction false} SplitNoSeparator(s: string, c: char)
    requires c !in s
    ensures Split(s, c) == [s]
  {
    if |s| > 0 {
      SplitNoSeparator(s[1..], c);
      assert [s[0]] + s[1..] == s;
    }
  }

  lemma {:induction false} SplitAfterField(p: string, q: string, c: char)
    requires c !in p
    ensures Split(p + [c] + q, c) == [p] + Split(q, c)
  {
    if |p| == 0 {
      assert p + [c] + q == [c] + q;
      assert ([c] + q)[1..] == q;
    } else {
      assert (p + [c] + q)[1..] == p[1..] + [c] + q;
      SplitAfterField(p[1..], q, c);
      assert [p[0]] + p[1..] == p;
    }
  }

  /** Splitting a join on its one-character separator gives the parts back,
      provided no part contains that character. */
  lemma {:induction false} SplitJoin(parts: seq<string>, c: char)
    requires |parts| >= 1
    requires forall i :: 0 <= i < |parts| ==> c !in parts[i]
    ensures Split(Join(parts, [c]), c) == parts
  {
    if |parts| == 1 {
      SplitNoSeparator(parts[0], c);
    } else {
      SplitJoin(parts[1..], c);
      SplitAfterField(parts[0], Join(parts[1..], [c]), c);
      assert [parts[0]] + parts[1..] == parts;
    }
  }

  /** Every part with the character b put in front of it. */
  function PrefixEach(parts: seq<string>, b: char): (r: seq<string>)
    ensures |r| == |parts|
    ensures forall i :: 0 <= i < |parts| ==> r[i] == [b] + parts[i]
  {
    if parts == [] then [] else [[b] + parts[0]] + PrefixEach(parts[1..], b)
  }

  /** Joining with a two-character separator is joining with its first
      character, once its second is put in front of every part but the first. */
  lemma {:induction false} JoinWiden(parts: seq<string>, a: char, b: char)
    requires |parts| >= 1
    ensures Join(parts, [a, b]) == Join([parts[0]] + PrefixEach(parts[1..], b), [a])
  {
    if |parts| > 1 {
      var tail := parts[1..];
      JoinWiden(tail, a, b);
      var rest := PrefixEach(tail[1..], b);
      assert PrefixEach(tail, b) == [[b] + tail[0]] + rest;
      assert ([parts[0]] + PrefixEach(tail, b))[1..] == PrefixEach(tail, b);
      calc {
        Join(parts, [a, b]);
        parts[0] + [a, b] + Join(tail, [a, b]);
        parts[0] + [a, b] + Join([tail[0]] + rest, [a]);
        { if |tail| > 1 { assert ([tail[0]] + rest)[1..] == rest; } }
        parts[0] + [a] + Join(PrefixEach(tail, b), [a]);
        Join([parts[0]] + PrefixEach(tail, b), [a]);
      }
    }
  }
}
