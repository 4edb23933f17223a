/**
 * The state every directory entry shares (src/PelEntry.php): its tag,
 * format, component count, the kind of directory (IFD) holding it, and a
 * cached byte form.
 */
module Entries {
  import opened Bytes

  /** The IFD type of an entry not yet placed in a directory. */
  const NO_IFD: int := -1

  /** Tags whose raw value the debug rendering does not dump, with the
      values PEL's tag registry gives them: MAKER_NOTE (0x927C, the Exif
      MakerNote tag) and PRINT_IM (0xC4A5, the PRINT Image Matching tag). */
  const MAKER_NOTE: int := 0x927C
  const PRINT_IM: int := 0xC4A5

  predicate ShowsValueLine(tag: int)
  {
    tag != MAKER_NOTE && tag != PRINT_IM
  }

  /** One line of the debug rendering. The formatting of each line
      (printf patterns, tag and format names, print_r) is not modelled;
      a line records what it shows. */
  datatype DebugLine<V> =
    | TagLine(tag: int, ifdType: int)
    | FormatLine(format: int)
    | ComponentsLine(components: int)
    | ValueLine(value: V)
    | TextLine(text: string)

  /** The debug rendering of an entry: tag, format, component count, the
      value unless the tag is MakerNote or PrintIM, and last the text. */
  function DebugLines<V>(tag: int, ifdType: int, format: int, components: int, value: V, text: string)
    : (lines: seq<DebugLine<V>>)
    ensures |lines| == if ShowsValueLine(tag) then 5 else 4
    ensures lines[0] == TagLine(tag, ifdType) && lines[1] == FormatLine(format)
    ensures lines[2] == ComponentsLine(components) && lines[|lines| - 1] == TextLine(text)
    ensures (exists i :: 0 <= i < |lines| && lines[i].ValueLine?) <==> ShowsValueLine(tag)
    ensures forall i :: 0 <= i < |lines| && lines[i].ValueLine? ==> lines[i].value == value
  {
    var lines := [TagLine(tag, ifdType), FormatLine(format), ComponentsLine(components)] +
      (if ShowsValueLine(tag) then [ValueLine(value)] else []) +
      [TextLine(text)];
    assert ShowsValueLine(tag) ==> lines[3].ValueLine?;
    lines
  }

  class Entry {
    var ifdType: int
    var bytes: seq<byte>
    var tag: int
    var format: int
    var components: int

    /** A fresh entry belongs to no directory and has no cached bytes. */
    constructor(tag: int, format: int, components: int)
      ensures this.tag == tag && this.format == format && this.components == components
      ensures ifdType == NO_IFD && bytes == []
    {
      this.tag := tag;
      this.format := format;
      this.components := components;
      ifdType := NO_IFD;
      bytes := [];
    }

    function GetTag(): (r: int)
      reads this
      ensures r == tag
    {
      tag
    }

    function GetIfdType(): (r: int)
      reads this
      ensures r == ifdType
    {
      ifdType
    }

    /** Changes the IFD type and nothing else. */
    method SetIfdType(t: int)
      modifies this`ifdType
      ensures GetIfdType() == t
      ensures tag == old(tag) && format == old(format)
      ensures components == old(components) && bytes == old(bytes)
    {
      ifdType := t;
    }

    function GetFormat(): (r: int)
      reads this
      ensures r == format
    {
      format
    }

    function GetComponents(): (r: int)
      reads this
      ensures r == components
    {
      components
    }

    /** The cached bytes, whatever byte order is asked for. */
    function GetBytes(o: ByteOrder): (r: seq<byte>)
      reads this
      ensures r == bytes
    {
      bytes
    }
  }
}
