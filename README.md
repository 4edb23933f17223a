# PEL numeric directory entries, modelled in Dafny

This project models the numeric entry engine of PEL, the PHP Exif
Library, together with the small entry base it rests on and the JPEG
comment holder.

- `PelEntryNumber` holds a sequence of numbers with inclusive bounds
  `min` and `max` and a `dimension`. A dimension of one means bare
  integers; a dimension of two means pairs, such as the numerator and
  denominator of a TIFF RATIONAL.
  - Every change range-checks the new numbers (`validateNumber`).
  - The whole array can be replaced (`setValue`, `setValueArray`) or
    extended by one number (`addNumber`).
  - `getValue` reads the numbers back, collapsed to the single number when
    there is exactly one.
  - `getBytes` serialises them by calling a per-type encoder
    (`numberToBytes`) in value order and then slot order.
  - `getText` renders them as text, separated by a space (brief) or by a
    comma and a space (verbose).
- `PelEntry` is the state every directory entry shares: tag, format,
  component count, the type of IFD (image file directory) holding the
  entry, and a cached byte form. Of its debug rendering only one rule is
  modelled: the value line is left out for the MakerNote and PrintIM tags.
- `PelJpegComment` holds one comment string. The constructor and
  `setValue` overwrite it. `getValue`, `getBytes` and `__toString` all
  return it.

The modules are:

- `Numbers`: the number datatype (an integer, or a tuple of possibly
  absent slots) and the range rule as specification functions (`Check`,
  `CheckAll`, `InRange`).
- `NumberBytes`: the byte form as a specification (`Encoding`) with its
  length and layout lemmas.
- `Decimal`, `Strings` and `NumberFormat`: the text form, with lemmas
  showing the numbers can be read back from it.
- `Bytes`: the byte and byte-order types the entry base and the numeric
  entry share.
- `Entries`: the entry base as a class.
- `NumberEntries`: the numeric entry as a class with a `Valid()`
  invariant.
- `JpegComments`: the comment holder.

The library's global strict flag (`Pel::$strict`, consulted by
`Pel::maybeThrow`) is an explicit `strict: bool` argument. A range failure
under strict policy is an `Overflow(value, min, max)` outcome rather than
an exception. It leaves the entry unchanged, because every number is
validated before anything is assigned. Under lenient policy a failure is
only logged, so the outcome is `Pass` and the change goes through with
the number accepted as given: nothing is clamped to the bounds.

The numeric entry does not inherit from the entry base. It owns one, in
its field `base`, which holds the tag, format, component count and IFD
type.

PHP compares an array as greater than every integer. So when the
dimension is one and the value is a tuple, `validateNumber` always
reports an overflow, carrying the `(int)` cast of the array: 0 for an
empty array, 1 otherwise. The model keeps this behaviour
(`Numbers.ScalarOutside`, `Numbers.IntCast`). Separately, PHP's
conversion of an array to a string yields the word `Array`, so the
default `formatNumber`, a `(string)` cast, renders a tuple that way.

## Model

| member | source | states |
|---|---|---|
| Numbers.CheckPassIff | src/PelEntryNumber.php:132-148 | validateNumber passes exactly when the policy is lenient or the number satisfies the inclusive range rule (a scalar-path number is an integer in [min, max]; every present slot below dimension is in [min, max]) |
| Numbers.CheckScalar | src/PelEntryNumber.php:134-137 | on the scalar path a strict check of integer x fails exactly when x < min or x > max, and the overflow names x and the bounds |
| Numbers.CheckTupleReportsFirst | src/PelEntryNumber.php:138-147 | a strict failure on a tuple names the first present slot below the dimension that is out of range; all present slots before it are in range |
| Numbers.SlotViolationsEmpty | src/PelEntryNumber.php:139-146 | the slot loop finds no violation exactly when every present slot below the bound is in range; absent slots never count |
| Numbers.SlotViolationsFirst | src/PelEntryNumber.php:139-146 | when the slot loop finds a violation, the first one is a present out-of-range slot preceded only by absent or in-range slots |
| Numbers.SlotViolationsAt | src/PelEntryNumber.php:139-146 | once the slots before i pass and slot i fails, slot i's value is the first violation for every larger bound |
| Numbers.CheckAllPassIff | src/PelEntryNumber.php:104-112 | validating a whole array passes exactly when the policy is lenient or every element satisfies the range rule |
| Numbers.CheckAllAt | src/PelEntryNumber.php:106-108 | if the elements before i pass and element i fails, the whole array fails with element i's overflow |
| Numbers.CheckAllAllPass | src/PelEntryNumber.php:106-108 | if every element passes, the whole array passes |
| Decimal.NatToString | src/PelEntryNumber.php:187-190 | the decimal text of a natural number is non-empty, all digits, without leading zero, and starts with '0' exactly for zero |
| Decimal.IntToString | src/PelEntryNumber.php:187-190 | the decimal text of an integer is PHP's canonical form: an optional '-' exactly for negatives, then at least one digit, with no leading zero, and exactly "0" for zero |
| Decimal.NatRoundTrip | src/PelEntryNumber.php:187-190 | parsing the decimal text of a natural number gives it back |
| Decimal.IntRoundTrip | src/PelEntryNumber.php:187-190 | parsing the decimal text of any integer gives it back |
| Strings.JoinSnoc | src/PelEntryNumber.php:202-205 | appending one more part to a join adds one separator and the part at the end, as each getText loop step does |
| Strings.SplitJoin | src/PelEntryNumber.php:195-208 | splitting a join on its one-character separator gives the parts back when no part contains that character |
| Strings.JoinWiden | src/PelEntryNumber.php:203 | joining with ", " is joining with "," after putting a space in front of every part but the first |
| NumberFormat.FormatNumber | src/PelEntryNumber.php:187-190 | an integer is rendered as its canonical decimal text, which parses back to itself; an array is rendered as "Array"; no rendering contains a space or a comma |
| NumberFormat.Formatted | src/PelEntryNumber.php:201-205 | one formatted string per value, formatNumber being called without the brief flag |
| NumberFormat.TextStep | src/PelEntryNumber.php:202-205 | one step of the getText loop: the text of the first i + 1 values is the text of the first i, the separator, and value i formatted |
| NumberFormat.TextEmptyIff | src/PelEntryNumber.php:195-208 | the text is empty exactly when there are no values |
| NumberFormat.BriefTextRoundTrip | src/PelEntryNumber.php:195-208 | the brief text splits on single spaces into exactly one field per value, and every integer value parses back from its field |
| NumberFormat.VerboseTextRoundTrip | src/PelEntryNumber.php:195-208 | the verbose text splits on commas into one field per value; every field after the first is a space and the formatted value, and every integer value parses back from it |
| NumberBytes.SlotBytesLength | src/PelEntryNumber.php:176-178 | the slots below k of a tuple encode to k fixed-width pieces |
| NumberBytes.ValueBytesLength | src/PelEntryNumber.php:173-179 | one value encodes to dimension fixed-width pieces |
| NumberBytes.EncodingLength | src/PelEntryNumber.php:169-182 | with an encoder of fixed width w the byte form is exactly count * dimension * w bytes long |
| NumberBytes.EncodingAppend | src/PelEntryNumber.php:172-180 | the byte form of a concatenation is the concatenation of the byte forms |
| NumberBytes.EncodingPrefix | src/PelEntryNumber.php:172-180 | extending the encoded values by one appends exactly that value's bytes |
| NumberBytes.EncodingSplit | src/PelEntryNumber.php:172-180 | the byte form is the bytes of the values before i, then value i's bytes, then the bytes of the values after i |
| NumberBytes.SlotBytesAt | src/PelEntryNumber.php:176-178 | slot j's encoding sits at the j-th fixed-width position of the slots' bytes |
| NumberBytes.ValueBytesAt | src/PelEntryNumber.php:173-179 | slot j of a value sits at the j-th fixed-width position of that value's bytes |
| NumberBytes.EncodingAtSum | src/PelEntryNumber.php:172-180 | slot j of value i sits after the bytes of i whole values and j slots |
| NumberBytes.EncodingAt | src/PelEntryNumber.php:169-182 | the bytes at offset (i * dimension + j) * w, w long, are the encoder's output for slot j of value i: values in order, slots in order, nothing in between |
| Entries.DebugLines | src/PelEntry.php:165-175 | the debug rendering shows tag, format and component count first and the text last, and has a value line, carrying the value, exactly when the tag is neither MakerNote nor PrintIM |
| Entries.Entry.constructor | src/PelEntry.php:80-112 | a new entry has the given tag, format and component count, IFD type -1 and no cached bytes |
| Entries.Entry.GetTag | src/PelEntry.php:117-120 | returns the tag, reading state only |
| Entries.Entry.GetIfdType | src/PelEntry.php:125-128 | returns the IFD type, reading state only |
| Entries.Entry.SetIfdType | src/PelEntry.php:133-136 | afterwards getIfdType returns the new type; tag, format, components and cached bytes are unchanged |
| Entries.Entry.GetFormat | src/PelEntry.php:141-144 | returns the format, reading state only |
| Entries.Entry.GetComponents | src/PelEntry.php:149-152 | returns the component count, reading state only |
| Entries.Entry.GetBytes | src/PelEntry.php:157-160 | returns the cached bytes whatever byte order is asked for |
| NumberEntries.EncodeSlots | src/PelEntryNumber.php:176-178 | the inner loop of getBytes produces the encodings of slots 0 .. dimension - 1 in slot order |
| NumberEntries.NumberEntry.constructor | src/PelEntryNumber.php:48-75 | a new numeric entry holds no numbers and zero components, keeps its bounds, dimension and encoder, and satisfies the invariant |
| NumberEntries.NumberEntry.ValidateNumber | src/PelEntryNumber.php:132-148 | the outcome is the range rule's: Pass, or under strict policy the overflow of the first violation met |
| NumberEntries.NumberEntry.SetValue | src/PelEntryNumber.php:96-99 | the arguments become the array exactly as setValueArray would; after a success getValue is the single number exactly when one argument was given |
| NumberEntries.NumberEntry.SetValueArray | src/PelEntryNumber.php:104-112 | passes exactly when lenient or every element is in range; on success the numbers are the new array and the component count its length; on failure nothing changes; the invariant and, under strict policy, "every stored number is in range" are kept |
| NumberEntries.NumberEntry.GetValue | src/PelEntryNumber.php:120-127 | returns the stored numbers, collapsed to the single number exactly when the component count is one; an empty entry gives the empty sequence |
| NumberEntries.NumberEntry.AddNumber | src/PelEntryNumber.php:153-158 | passes exactly when lenient or the number is in range; on success the number is appended after the unchanged earlier ones and the component count grows by one; on failure nothing changes |
| NumberEntries.NumberEntry.GetBytes | src/PelEntryNumber.php:169-182 | the result is the in-order encoding of every value (of slots 0 .. dimension - 1 of a tuple) and is components * dimension * w bytes long |
| NumberEntries.NumberEntry.GetText | src/PelEntryNumber.php:195-208 | the result is the formatted numbers joined by " " (brief) or ", " (verbose), and is empty exactly when there are no components |
| NumberEntries.NumberEntry.ToDebugLines | src/PelEntry.php:165-175 | the debug rendering of the entry's own tag, IFD type, format, count, value and verbose text |
| JpegComments.JpegComment.constructor | src/PelJpegComment.php:60-63 | the new comment is the given string, empty by default, and all three readers return it |
| JpegComments.JpegComment.SetValue | src/PelJpegComment.php:85-88 | the old comment is overwritten: getValue, getBytes and __toString return the new one |
| JpegComments.JpegComment.GetValue | src/PelJpegComment.php:95-98 | returns the comment, reading state only |
| JpegComments.JpegComment.GetBytes | src/PelJpegComment.php:105-108 | the bytes of the comment equal getValue |
| JpegComments.JpegComment.ToString | src/PelJpegComment.php:115-118 | the string form equals getValue |
| JpegComments.SetThenRead | src/PelJpegComment.php:85-108 | after setting a comment, reading it twice and reading its bytes all give the string that was set |

## Left out

- `PelJpegComment::load` reads a data window, which is not part of this model.
- `Pel::maybeThrow` under lenient policy logs a warning; the log is not modelled, only that the change goes through.
- The concrete `numberToBytes` of each entry type and the `PelConvert` byte-order primitives are not part of this model. The encoder is a parameter, assumed only to produce the same number of bytes for every input (one, two or four bytes for the BYTE, SHORT and LONG field types of section 2 of TIFF Revision 6.0).
- Overriding `formatNumber` in the concrete types (a rational rendered as "x/y", for example) is not modelled; only the default `(string)` cast is.
- The rest of `PelEntry::__toString`: the printf patterns, the tag and format names and `print_r` are not modelled. A debug line records what it shows, not its text.
- The tag registry `PelTag` is not part of this model. The two tag numbers used are the values it gives `MAKER_NOTE` (0x927C, the Exif MakerNote tag) and `PRINT_IM` (0xC4A5, the PRINT Image Matching tag).
- NumberEntries.NumberEntry.GetBytes: requires every value to be complete (an integer when the dimension is one, otherwise a tuple with every slot below the dimension present). PHP would read a missing slot as null and pass it to the encoder; that case is not modelled.
- A tuple is a sequence of optional slots: an unset integer key below its length is an absent slot, and slots at or beyond the dimension are carried but ignored by validation and serialisation, as the PHP loops bounded by the dimension ignore them. A tuple with string keys is not modelled.
- The array of values held by an entry is modelled as a list, keys 0 .. n - 1 in order. `setValueArray` accepts any PHP array and validates it in iteration order, while `getValue`, `getBytes` and `getText` then read keys 0 .. components - 1; an array with other keys or keys out of order (such as `[1 => 5]`, after which PHP reads a missing key 0) is not modelled.
- `PelEntry` declares no constructor; `Entries.Entry.constructor` and `NumberEntries.NumberEntry.constructor` stand for the field defaults plus the initialisation the concrete entry types perform.
- `components` is an `int` in PHP with no overflow at any realistic size; the model uses unbounded integers.
