/** The mask text field itself: its slot array, its cursor and its three
    configuration strings, with the methods that rebuild, edit, clear and
    redisplay the slots. Every loop is proved to compute the function of
    MaskEdit that specifies it. */
module MaskField {
  import opened MaskChar
  import opened MaskText
  import opened MaskEdit

  class KCMaskTextField {
    var chars: seq<KCChar>
    var previousCursorPosition: int
    var formatString: string
    var maskString: string
    var caseString: string

    /** The slots have the shape the format and mask strings give them and
        are well formed, and the cursor lies within the field. */
    ghost predicate Valid()
      reads this
    {
      && ShapedBy(chars, formatString, maskString)
      && WellFormed(chars)
      && 0 <= previousCursorPosition <= |chars|
    }

    /** A field with empty format, mask and case strings has no slots. */
    constructor ()
      ensures Valid()
      ensures chars == [] && previousCursorPosition == 0
      ensures formatString == [] && maskString == [] && caseString == []
    {
      chars := [];
      previousCursorPosition := 0;
      formatString := [];
      maskString := [];
      caseString := [];
    }

    /** Rebuilds the slots from the format and mask strings and puts the
        cursor on the first editable slot. */
    method Initialize()
      modifies this`chars, this`previousCursorPosition
      ensures Valid()
      ensures chars == NewSlots(formatString, maskString)
      ensures previousCursorPosition == HomePosition(chars)
    {
      chars := [];
      var index := 0;
      while index < |formatString|
        invariant 0 <= index <= |formatString|
        invariant chars == NewSlots(formatString[..index], maskString)
      {
        var m := if index < |maskString| then maskString[index] else '.';
        chars := chars + [NewChar(formatString[index], m)];
        assert formatString[..index + 1][..index] == formatString[..index];
        index := index + 1;
      }
      assert formatString[..index] == formatString;
      NewSlotsValid(formatString, maskString, caseString);
      var cells := DisplayFormattedText();
      assert chars == NewSlots(formatString, maskString);
      var home := FindLocationForward(0);
      previousCursorPosition := if home.Some? then home.value else 0;
    }

    method SetFormatString(format: string)
      modifies this`formatString, this`chars, this`previousCursorPosition
      ensures Valid()
      ensures formatString == format
      ensures chars == NewSlots(format, maskString)
      ensures previousCursorPosition == HomePosition(chars)
    {
      formatString := format;
      Initialize();
    }

    method SetMaskString(mask: string)
      modifies this`maskString, this`chars, this`previousCursorPosition
      ensures Valid()
      ensures maskString == mask
      ensures chars == NewSlots(formatString, mask)
      ensures previousCursorPosition == HomePosition(chars)
    {
      maskString := mask;
      Initialize();
    }

    /** The case string is only stored; it takes effect at the next display. */
    method SetCaseString(cases: string)
      requires Valid()
      modifies this`caseString
      ensures Valid()
      ensures caseString == cases
    {
      caseString := cases;
    }

    /** Sets both strings, each assignment rebuilding the field. The new
        slots and cursor depend on the two arguments alone, so a second call
        with the same arguments leaves the field as it is. */
    method SetFormat(format: string, mask: string)
      modifies this`formatString, this`maskString, this`chars, this`previousCursorPosition
      ensures Valid()
      ensures formatString == format && maskString == mask
      ensures chars == NewSlots(format, mask)
      ensures previousCursorPosition == HomePosition(chars)
    {
      SetFormatString(format);
      SetMaskString(mask);
    }

    /** The display step: paints every slot with its colour role and writes
        the case transform back into the filled editable slots. */
    method DisplayFormattedText() returns (cells: seq<Cell>)
      modifies this`chars
      ensures chars == Rendered(old(chars), caseString)
      ensures |cells| == |chars|
      ensures forall i :: 0 <= i < |chars| ==> cells[i] == Cell(chars[i].value, RoleOf(chars[i]))
      ensures cells == Cells(chars)
    {
      cells := [];
      var index := 0;
      while index < |chars|
        invariant 0 <= index <= |chars| == |old(chars)|
        invariant forall j :: 0 <= j < index ==> chars[j] == RenderSlot(old(chars)[j], j, caseString)
        invariant forall j :: index <= j < |chars| ==> chars[j] == old(chars)[j]
        invariant |cells| == index
        invariant forall j :: 0 <= j < index ==> cells[j] == Cell(chars[j].value, RoleOf(chars[j]))
      {
        var ch := chars[index];
        var color;
        if !ch.IsEditable() {
          color := DelimiterColor;
        } else if ch.isClear {
          color := FormatColor;
        } else {
          color := EditableColor;
        }
        var s := ch.value;
        if ch.IsEditable() && !ch.isClear {
          match CaseDirective(caseString, index)
          case Some('a') =>
            s := ToLower(s);
            chars := chars[index := chars[index].(value := s)];
          case Some('A') =>
            s := ToUpper(s);
            chars := chars[index := chars[index].(value := s)];
          case _ =>
        }
        cells := cells + [Cell(s, color)];
        index := index + 1;
      }
      assert cells == Cells(chars);
    }

    /** A change of any of the three colours repaints the field and puts the
        cursor back where it was. */
    method ColorDidChange() returns (cells: seq<Cell>)
      requires Valid()
      modifies this`chars, this`previousCursorPosition
      ensures Valid()
      ensures chars == Rendered(old(chars), caseString)
      ensures previousCursorPosition == old(previousCursorPosition)
      ensures cells == Cells(chars)
    {
      RenderedFrame(chars, caseString);
      cells := DisplayFormattedText();
      MoveCursorTo(previousCursorPosition);
    }

    /** Beginning to edit puts the cursor back where it was. */
    method BeginEditing()
      requires Valid()
      modifies this`previousCursorPosition
      ensures Valid()
      ensures previousCursorPosition == old(previousCursorPosition)
    {
      MoveCursorTo(previousCursorPosition);
    }

    method MoveCursorTo(position: int)
      modifies this`previousCursorPosition
      ensures previousCursorPosition == position
    {
      previousCursorPosition := position;
    }

    /** The first editable slot at or after `from`. */
    method FindLocationForward(from: nat) returns (nextLocation: Option<nat>)
      requires from <= |chars|
      ensures nextLocation == NextEditable(chars, from)
    {
      nextLocation := None;
      var i := from;
      while i < |chars|
        invariant from <= i <= |chars|
        invariant NextEditable(chars, i) == NextEditable(chars, from)
      {
        if chars[i].IsEditable() {
          nextLocation := Some(i);
          break;
        }
        i := i + 1;
      }
    }

    /** The last editable slot at or before `from`; none when `from` is
        negative. */
    method FindLocationBackward(from: int) returns (nextLocation: Option<nat>)
      requires from < |chars|
      ensures nextLocation == PrevEditable(chars, from)
    {
      nextLocation := None;
      var i := from;
      while i > -1
        invariant i <= from
        invariant PrevEditable(chars, i) == PrevEditable(chars, from)
        decreases i + 1
      {
        if chars[i].IsEditable() {
          nextLocation := Some(i);
          break;
        }
        i := i - 1;
      }
    }

    /** The text field's change request: out of range it does nothing,
        otherwise the edit is applied here. The field never lets the text
        view apply the change itself. */
    method ShouldChangeCharacters(location: nat, length: nat, replacement: string)
      returns (allow: bool, edited: bool)
      requires Valid()
      requires location < |chars| && replacement == [] ==> location + length <= |chars|
      modifies this`chars, this`previousCursorPosition
      ensures Valid() && !allow
      ensures location >= |old(chars)| ==>
        !edited && chars == old(chars) && previousCursorPosition == old(previousCursorPosition)
      ensures location < |old(chars)| ==>
        var e := ApplyEdit(old(chars), caseString, location, length, replacement);
        chars == e.slots && previousCursorPosition == e.cursor && edited == e.edited
    {
      allow := false;
      edited := false;
      if location >= |chars| {
        return;
      }
      edited := FormatInput(replacement, location, length);
    }

    /** Inserts or replaces when `str` is non-empty, deletes the range when it
        is empty, then moves the cursor. */
    method FormatInput(str: string, location: nat, length: nat) returns (edited: bool)
      requires Valid()
      requires location < |chars|
      requires str == [] ==> location + length <= |chars|
      modifies this`chars, this`previousCursorPosition
      ensures Valid()
      ensures var e := ApplyEdit(old(chars), caseString, location, length, str);
        chars == e.slots && previousCursorPosition == e.cursor && edited == e.edited
    {
      ghost var s := chars;
      var nextCursorPosition: int := location;
      var inputLength := |str|;
      edited := false;
      if inputLength > 0 {
        edited, nextCursorPosition := InsertInput(str, location, length);
      } else {
        edited, nextCursorPosition := DeleteInput(location, length);
      }
      MoveCursorTo(nextCursorPosition);
      EditKeepsValid(s, caseString, location, length, str, formatString, maskString);
    }

    /** The insertion branch of FormatInput: the slots are repainted, and
        the cursor moved past the last write, only if something was written. */
    method InsertInput(str: string, location: nat, length: nat) returns (edited: bool, nextCursorPosition: nat)
      requires location <= |chars| && |str| > 0
      modifies this`chars
      ensures var r := Insert(old(chars), location, length, str);
        && edited == r.edited
        && chars == (if r.edited then Rendered(r.slots, caseString) else old(chars))
        && nextCursorPosition == (if r.edited then r.next else location)
    {
      ghost var s := chars;
      nextCursorPosition := location;
      var hasSelection := length > 0 && length < |str|;
      var nextValidLocation: nat := location;
      var start := location;
      var end := start + (if length == 0 then |str| else if length >= |str| then |str| else length);
      edited, nextValidLocation := InsertLoop(str, start, end, hasSelection, length);
      if edited {
        var cells := DisplayFormattedText();
        nextCursorPosition := nextValidLocation;
      } else {
        InsertUnedited(s, location, length, str);
      }
    }

    /** The deletion branch of FormatInput: clears the range, repaints, and
        finds the cursor position next to the nearest editable slot. */
    method DeleteInput(location: nat, length: nat) returns (edited: bool, nextCursorPosition: nat)
      requires location < |chars| && location + length <= |chars|
      modifies this`chars
      ensures var r := ClearLoop(old(chars), location, location + length, false);
        && edited == r.edited
        && chars == Rendered(r.slots, caseString)
        && nextCursorPosition == DeleteCursor(old(chars), location)
    {
      ghost var s := chars;
      var start := location;
      var end := location + length;
      edited := ClearRange(start, end);
      var cells := DisplayFormattedText();
      DeleteSpec(s, start, end);
      RenderedFrame(ClearLoop(s, start, end, false).slots, caseString);
      ScansSameShape(chars, s, location);
      var back := FindLocationBackward(location - 1);
      if back.Some? {
        nextCursorPosition := back.value + 1;
      } else {
        var forward := FindLocationForward(location);
        nextCursorPosition := if forward.Some? then forward.value else location;
      }
    }

    /** The insertion loop of FormatInput: tries the first `end - start`
        input characters in turn, each at the first editable slot not yet
        passed, and returns the position after the last write. */
    method InsertLoop(str: string, start: nat, end: nat, hasSelection: bool, length: nat)
      returns (edited: bool, nextValidLocation: nat)
      requires start <= end <= start + |str| && start <= |chars|
      requires hasSelection == (length > 0 && length < |str|)
      requires end - start == Consumed(length, |str|)
      modifies this`chars
      ensures var r := Insert(old(chars), start, length, str);
        chars == r.slots && nextValidLocation == r.next && edited == r.edited
    {
      nextValidLocation := start;
      edited := false;
      var index := 0;
      for iteration := start to end
        invariant index == iteration - start
        invariant nextValidLocation <= |chars| == |old(chars)|
        invariant FillLoop(FillState(chars, nextValidLocation, edited), str, index, end - start, hasSelection, end)
                  == Insert(old(chars), start, length, str)
      {
        var c := str[index];
        var found := FindLocationForward(nextValidLocation);
        if found.Some? {
          var location := found.value;
          if hasSelection && location >= end {
            break;
          }
          if IsValidCharacter(c, chars[location].tag) {
            chars := chars[location := chars[location].(value := c, isClear := false)];
            edited := true;
            nextValidLocation := location + 1;
          }
        }
        index := index + 1;
      }
    }

    /** The deletion loop of FormatInput over [start, end). */
    method ClearRange(start: nat, end: nat) returns (edited: bool)
      requires start <= end <= |chars|
      modifies this`chars
      ensures var r := ClearLoop(old(chars), start, end, false);
        chars == r.slots && edited == r.edited
    {
      edited := false;
      for i := start to end
        invariant |chars| == |old(chars)|
        invariant ClearLoop(chars, i, end, edited) == ClearLoop(old(chars), start, end, false)
      {
        ghost var before := chars;
        if chars[i].IsEditable() {
          chars := chars[i := chars[i].(value := chars[i].format)];
          if !chars[i].isClear {
            chars := chars[i := chars[i].(isClear := true)];
            edited := true;
            assert chars == before[i := before[i].(value := before[i].format, isClear := true)];
          }
        }
      }
    }

    /** Inserts `text` at the start of the field; an empty text does nothing. */
    method UpdateText(text: string) returns (edited: bool)
      requires Valid()
      modifies this`chars, this`previousCursorPosition
      ensures Valid()
      ensures text == [] || |old(chars)| == 0 ==>
        !edited && chars == old(chars) && previousCursorPosition == old(previousCursorPosition)
      ensures text != [] && |old(chars)| > 0 ==>
        var e := ApplyEdit(old(chars), caseString, 0, 0, text);
        chars == e.slots && previousCursorPosition == e.cursor && edited == e.edited
    {
      edited := false;
      if |text| == 0 {
        return;
      }
      var allow;
      allow, edited := ShouldChangeCharacters(0, 0, text);
    }

    /** Puts every slot back to its format character and the cursor on the
        first editable slot; format, mask and tags stay as they are. */
    method ClearText()
      requires Valid()
      modifies this`chars, this`previousCursorPosition
      ensures Valid()
      ensures chars == Cleared(old(chars)) == NewSlots(formatString, maskString)
      ensures previousCursorPosition == HomePosition(chars)
    {
      ghost var s := chars;
      ResetSlots();
      ClearedIsFresh(s, formatString, maskString);
      NewSlotsValid(formatString, maskString, caseString);
      var cells := DisplayFormattedText();
      assert chars == NewSlots(formatString, maskString);
      var home := FindLocationForward(0);
      previousCursorPosition := if home.Some? then home.value else 0;
      MoveCursorTo(previousCursorPosition);
    }

    /** The reset loop of ClearText. */
    method ResetSlots()
      modifies this`chars
      ensures chars == Cleared(old(chars))
    {
      var index := 0;
      while index < |chars|
        invariant 0 <= index <= |chars| == |old(chars)|
        invariant forall j :: 0 <= j < index ==> chars[j] == ClearSlot(old(chars)[j])
        invariant forall j :: index <= j < |chars| ==> chars[j] == old(chars)[j]
      {
        if !chars[index].isClear {
          chars := chars[index := chars[index].(value := chars[index].format)];
          chars := chars[index := chars[index].(isClear := true)];
        }
        index := index + 1;
      }
    }
  }
}
