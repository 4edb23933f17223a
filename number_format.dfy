/**
 * The display text of a numeric entry (formatNumber and getText in
 * src/PelEntryNumber.php), and how a reader recovers the numbers from it.
 */
module NumberFormat {
  import opened Numbers
  import opened Decimal
  import opened Strings

  /** The default formatNumber: PHP's string conversion of the number.
      An integer becomes its decimal text; an array becomes the word "Array".
      The brief flag is accepted and ignored, as in the source. */
  function FormatNumber(n: Number, brief: bool): (s: string)
    ensures n.Scalar? ==> s == IntToString(n.x) && ParseInt(s) == n.x
    ensures n.Tuple? ==> s == "Array"
    ensures ' ' !in s && ',' !in s
  {
    match n
    case Scalar(x) => IntRoundTrip(x); IntToString(x)
    case Tuple(_) => "Array"
  }

  /** Each value formatted in order; getText calls formatNumber without
      passing its own brief flag on. */
  function Formatted(vs: seq<Number>): (parts: seq<string>)
    ensures |parts| == |vs|
  {
    seq(|vs|, i requires 0 <= i < |vs| => FormatNumber(vs[i], false))
  }

  function Separator(brief: bool): string
  {
    if brief then " " else ", "
  }

  /** The text getText produces for the values vs. */
  function Text(vs: seq<Number>, brief: bool): string
  {
    Join(Formatted(vs), Separator(brief))
  }

  /** One step of getText's loop: value i, formatted, follows the text of
      the values before it after one separator. */
  lemma TextStep(vs: seq<Number>, i: nat, brief: bool)
    requires 1 <= i < |vs|
    ensures Join(Formatted(vs)[..i + 1], Separator(brief)) ==
      Join(Formatted(vs)[..i], Separator(brief)) + Separator(brief) + FormatNumber(vs[i], false)
  {
    var parts := Formatted(vs);
    assert parts[..i + 1] == parts[..i] + [parts[i]];
    JoinSnoc(parts[..i], parts[i], Separator(brief));
  }

  /** The text is empty exactly when there are no values: no formatted
      number is empty. */
  lemma TextEmptyIff(vs: seq<Number>, brief: bool)
    ensures Text(vs, brief) == "" <==> vs == []
  {
  }

  /** The brief text splits on single spaces into exactly one field per
      value, and each integer value reads back from its field. */
  lemma BriefTextRoundTrip(vs: seq<Number>)
    requires vs != []
    ensures Split(Text(vs, true), ' ') == Formatted(vs)
    ensures forall i :: 0 <= i < |vs| && vs[i].Scalar? ==> ParseInt(Split(Text(vs, true), ' ')[i]) == vs[i].x
  {
    SplitJoin(Formatted(vs), ' ');
  }

  /** The verbose text splits on commas into one field per value; every
      field after the first starts with the space of the ", " separator. */
  lemma VerboseTextRoundTrip(vs: seq<Number>)
    requires vs != []
    ensures |Split(Text(vs, false), ',')| == |vs|
    ensures Split(Text(vs, false), ',')[0] == FormatNumber(vs[0], false)
    ensures forall i :: 1 <= i < |vs| ==> Split(Text(vs, false), ',')[i] == " " + FormatNumber(vs[i], false)
    ensures forall i :: 1 <= i < |vs| && vs[i].Scalar? ==> ParseInt(Split(Text(vs, false), ',')[i][1..]) == vs[i].x
  {
    var parts := Formatted(vs);
    JoinWiden(parts, ',', ' ');
    var widened := [parts[0]] + PrefixEach(parts[1..], ' ');
    forall i | 0 <= i < |widened| ensures ',' !in widened[i] {
      if i > 0 {
        assert widened[i] == [' '] + parts[i];
      }
    }
    SplitJoin(widened, ',');
    forall i | 1 <= i < |vs| && vs[i].Scalar?
      ensures ParseInt(Split(Text(vs, false), ',')[i][1..]) == vs[i].x
    {
      assert widened[i] == [' '] + parts[i];
      assert widened[i][1..] == parts[i];
    }
  }
}
