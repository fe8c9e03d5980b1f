/** One character slot of a mask field, the delimiter tag, the character-class
    validator and the case transform applied when a slot is displayed. */
module MaskChar {

  /** The class tag that marks a slot as a fixed, non-editable delimiter. */
  const Delimiter: char := '*'

  /** A slot: the format character it shows while cleared, the character it
      currently shows, whether it is cleared, and its class tag. */
  datatype KCChar = KCChar(format: char, value: char, isClear: bool, tag: char)
  {
    predicate IsEditable() { tag != Delimiter }
  }

  /** A freshly created slot shows its format character and is cleared: it
      contributes nothing to the edited text and is painted in the format
      colour, or in the delimiter colour when its tag is the delimiter. */
  function NewChar(format: char, tag: char): (ch: KCChar)
    ensures ch.format == ch.value == format && ch.tag == tag && ch.isClear
    ensures EditedChars(ch) == []
    ensures RoleOf(ch) == if tag == Delimiter then DelimiterColor else FormatColor
  {
    KCChar(format, format, true, tag)
  }

  // ASCII stand-ins for the decimal-digit, letter and alphanumeric sets.
  predicate IsDecimalDigit(c: char) { '0' <= c <= '9' }
  predicate IsLetter(c: char) { 'a' <= c <= 'z' || 'A' <= c <= 'Z' }
  predicate IsAlphanumeric(c: char) { IsDecimalDigit(c) || IsLetter(c) }

  /** Whether a slot whose class tag is `tag` accepts the input character `c`. */
  predicate IsValidCharacter(c: char, tag: char)
  {
    match tag
    case 'd' => IsDecimalDigit(c)
    case 'D' => !IsDecimalDigit(c)
    case 'A' => !IsLetter(c)
    case 'a' => IsLetter(c)
    case 'c' => IsAlphanumeric(c)
    case 'C' => !IsAlphanumeric(c)
    case 'h' => c in "0123456789abcdefABCDEF"
    case '.' => true
    case _ => false
  }

  /** The class tags the validator knows. */
  const KnownTags: string := "dDaAcCh."

  /** `.` is the accept-anything class. */
  lemma AnyAcceptsEverything(c: char)
    ensures IsValidCharacter(c, '.')
  {
  }

  /** `h` accepts exactly the hexadecimal digits, in either case. */
  lemma HexAcceptsExactlyHexDigits(c: char)
    ensures IsValidCharacter(c, 'h') <==> ('0' <= c <= '9' || 'a' <= c <= 'f' || 'A' <= c <= 'F')
  {
  }

  /** The lower-case and upper-case tag of each pair are complementary. */
  lemma PairedTagsAreComplementary(c: char)
    ensures IsValidCharacter(c, 'D') <==> !IsValidCharacter(c, 'd')
    ensures IsValidCharacter(c, 'A') <==> !IsValidCharacter(c, 'a')
    ensures IsValidCharacter(c, 'C') <==> !IsValidCharacter(c, 'c')
  {
  }

  /** Every tag outside the known classes, the delimiter tag among them,
      accepts nothing. */
  lemma UnknownTagAcceptsNothing(c: char, tag: char)
    requires tag !in KnownTags
    ensures !IsValidCharacter(c, tag)
  {
  }

  /** The delimiter tag is not a class, so a delimiter slot is never written. */
  lemma DelimiterAcceptsNothing(c: char)
    ensures !IsValidCharacter(c, Delimiter)
  {
    UnknownTagAcceptsNothing(c, Delimiter);
  }

  /** The characters a slot contributes to the edited text: its value when
      it is editable and filled, nothing otherwise. */
  function EditedChars(ch: KCChar): string
  {
    if ch.IsEditable() && !ch.isClear then [ch.value] else []
  }

  // ASCII stand-ins for the lower- and upper-case mappings: each letter goes
  // to the same letter of the other case.
  function ToLower(c: char): (r: char)
    ensures 'A' <= c <= 'Z' ==> 'a' <= r <= 'z' && r as int == c as int + 32
    ensures !('A' <= c <= 'Z') ==> r == c
  {
    if 'A' <= c <= 'Z' then (c as int + 32) as char else c
  }

  function ToUpper(c: char): (r: char)
    ensures 'a' <= c <= 'z' ==> 'A' <= r <= 'Z' && r as int == c as int - 32
    ensures !('a' <= c <= 'z') ==> r == c
  {
    if 'a' <= c <= 'z' then (c as int - 32) as char else c
  }

  /** The case directive that applies at slot `index`: a one-character case
      string applies everywhere, a longer one is read per position, and
      none applies past its end. */
  function CaseDirective(caseString: string, index: nat): (d: Option<char>)
    ensures |caseString| == 1 ==> d == Some(caseString[0])
    ensures |caseString| != 1 && index < |caseString| ==> d == Some(caseString[index])
    ensures |caseString| != 1 && index >= |caseString| ==> d == None
  {
    if |caseString| == 1 then Some(caseString[0])
    else if index < |caseString| then Some(caseString[index])
    else None
  }

  /** The character a filled slot shows after the case directive `d`:
      `a` lowers, `A` raises, anything else leaves it alone. */
  function CaseTransform(c: char, d: Option<char>): (r: char)
    ensures d == Some('a') ==> !('A' <= r <= 'Z') && ToUpper(r) == ToUpper(c)
    ensures d == Some('A') ==> !('a' <= r <= 'z') && ToLower(r) == ToLower(c)
    ensures d != Some('a') && d != Some('A') ==> r == c
  {
    match d
    case Some('a') => ToLower(c)
    case Some('A') => ToUpper(c)
    case _ => c
  }

  /** Applying a case directive twice is applying it once. */
  lemma CaseTransformIdempotent(c: char, d: Option<char>)
    ensures CaseTransform(CaseTransform(c, d), d) == CaseTransform(c, d)
  {
  }

  /** The colour role a slot is painted with. */
  datatype ColorRole = DelimiterColor | FormatColor | EditableColor

  /** Delimiters use the delimiter colour; editable slots use the format
      colour while cleared and the editable colour once filled. */
  function RoleOf(ch: KCChar): (r: ColorRole)
    ensures r == DelimiterColor <==> !ch.IsEditable()
    ensures r == FormatColor <==> ch.IsEditable() && ch.isClear
    ensures r == EditableColor <==> ch.IsEditable() && !ch.isClear
    ensures r == EditableColor <==> EditedChars(ch) != []
  {
    if !ch.IsEditable() then DelimiterColor
    else if ch.isClear then FormatColor
    else EditableColor
  }

  datatype Option<T> = None | Some(value: T)
}
