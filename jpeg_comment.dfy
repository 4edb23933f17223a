/**
 * A JPEG comment segment (src/PelJpegComment.php): a holder for one
 * string that is overwritten by the constructor and by SetValue, and read
 * back unchanged by every getter.
 */
module JpegComments {

  class JpegComment {
    var comment: string

    /** With no argument the comment is empty. */
    constructor(comment: string := "")
      ensures GetValue() == comment && GetBytes() == comment && ToString() == comment
    {
      this.comment := comment;
    }

    /** Overwrites the old comment; every reader then returns the new one. */
    method SetValue(comment: string)
      modifies this`comment
      ensures GetValue() == comment && GetBytes() == comment && ToString() == comment
    {
      this.comment := comment;
    }

    function GetValue(): (r: string)
      reads this
      ensures r == comment
    {
      comment
    }

    /** The bytes of the comment segment are the comment itself. */
    function GetBytes(): (r: string)
      reads this
      ensures r == GetValue()
    {
      comment
    }

    function ToString(): (r: string)
      reads this
      ensures r == GetValue()
    {
      GetValue()
    }
  }

  /** A comment read twice gives the same string, and what was set is
      what the bytes and the string form return. */
  method SetThenRead(c: JpegComment, s: string) returns (first: string, second: string, bytes: string)
    modifies c
    ensures first == s && second == s && bytes == s
    ensures c.GetValue() == s
  {
    c.SetValue(s);
    first := c.GetValue();
    second := c.GetValue();
    bytes := c.GetBytes();
  }
}
