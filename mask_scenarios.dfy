/** The engine on configurations of the demo screen: a short date, a card
    expiry date and a hex colour. Each insertion is followed step by step
    through the insertion loop. */
module MaskScenarios {
  import opened MaskChar
  import opened MaskText
  import opened MaskEdit

  /** The slots with slot `i` filled with `c`. */
  function Filled(s: seq<KCChar>, i: nat, c: char): seq<KCChar>
    requires i < |s|
  {
    s[i := s[i].(value := c, isClear := false)]
  }

  /** An accepted character is written at the next editable slot. */
  lemma AcceptStep(st: FillState, input: string, i: nat, k: nat, end: nat, location: nat)
    requires i < k <= |input| && st.next <= |st.slots|
    requires NextEditable(st.slots, st.next) == Some(location)
    requires IsValidCharacter(input[i], st.slots[location].tag)
    ensures FillLoop(st, input, i, k, false, end)
         == FillLoop(FillState(Filled(st.slots, location, input[i]), location + 1, true), input, i + 1, k, false, end)
  {
  }

  /** A rejected character leaves the state as it is. */
  lemma RejectStep(st: FillState, input: string, i: nat, k: nat, end: nat, location: nat)
    requires i < k <= |input| && st.next <= |st.slots|
    requires NextEditable(st.slots, st.next) == Some(location)
    requires !IsValidCharacter(input[i], st.slots[location].tag)
    ensures FillLoop(st, input, i, k, false, end) == FillLoop(st, input, i + 1, k, false, end)
  {
  }

  // ---------------------------------------------------------------------
  // "MM/DD/YY" with "dd*dd*dd"

  /** A fresh date field shows its format, is clear, and rests its cursor on
      the first slot. */
  lemma FreshDateField()
    ensures var s := NewSlots("MM/DD/YY", "dd*dd*dd");
      && RawText(s) == "MM/DD/YY"
      && Status(s) == Clear
      && HomePosition(s) == 0
  {
    var s := NewSlots("MM/DD/YY", "dd*dd*dd");
    NewSlotsClear("MM/DD/YY", "dd*dd*dd");
    assert s[0].IsEditable();
  }

  // ---------------------------------------------------------------------
  // "MM/YY" with "dd*dd"

  lemma ExpirySlots()
    ensures NewSlots("MM/YY", "dd*dd")
         == [NewChar('M', 'd'), NewChar('M', 'd'), NewChar('/', '*'), NewChar('Y', 'd'), NewChar('Y', 'd')]
  {
  }

  /** The expiry field after typing "1225". */
  function FullExpiry(): seq<KCChar>
  {
    [KCChar('M', '1', false, 'd'), KCChar('M', '2', false, 'd'), NewChar('/', '*'),
     KCChar('Y', '2', false, 'd'), KCChar('Y', '5', false, 'd')]
  }

  /** The expiry field with only the month filled in, as "12". */
  function MonthOnly(): seq<KCChar>
  {
    [KCChar('M', '1', false, 'd'), KCChar('M', '2', false, 'd'), NewChar('/', '*'),
     NewChar('Y', 'd'), NewChar('Y', 'd')]
  }

  /** The textComponents loop traced over the full expiry field. */
  lemma FullExpiryComponents()
    ensures TextComponents(FullExpiry()) == ["12", "25"]
  {
    var s := FullExpiry();
    assert EditedChars(s[0]) == "1" && EditedChars(s[1]) == "2";
    assert EditedChars(s[3]) == "2" && EditedChars(s[4]) == "5";
    assert [] + "1" == "1" && [] + "2" == "2";
    assert "1" + "2" == "12" && "2" + "5" == "25";
    assert [] + ["12"] == ["12"] && ["12"] + ["25"] == ["12", "25"];
    calc {
      TextComponents(s);
      ComponentsFrom(s, 1, "1", 1, []);
      ComponentsFrom(s, 2, "12", 2, []);
      ComponentsFrom(s, 3, [], 0, ["12"]);
      ComponentsFrom(s, 4, "2", 1, ["12"]);
      ComponentsFrom(s, 5, [], 0, ["12", "25"]);
    }
  }

  lemma FullExpiryQueries()
    ensures RawText(FullExpiry()) == "12/25"
    ensures EditedText(FullExpiry()) == "1225"
    ensures TextComponents(FullExpiry()) == ["12", "25"]
    ensures Status(FullExpiry()) == Complete
  {
    var s := FullExpiry();
    assert EditedChars(s[0]) == "1" && EditedChars(s[1]) == "2";
    assert EditedChars(s[3]) == "2" && EditedChars(s[4]) == "5";
    FullExpiryComponents();
  }

  lemma MonthOnlyQueries()
    ensures RawText(MonthOnly()) == "12/YY"
    ensures EditedText(MonthOnly()) == "12"
    ensures TextComponents(MonthOnly()) == ["12", ""]
    ensures Status(MonthOnly()) == Incomplete
  {
    var s := MonthOnly();
    assert EditedChars(s[0]) == "1" && EditedChars(s[1]) == "2";
    assert EditedChars(s[3]) == [] && EditedChars(s[4]) == [];
    assert [] + "1" == "1" && "1" + "2" == "12" && [] + [] == "";
    assert [] + ["12"] == ["12"] && ["12"] + [""] == ["12", ""];
    calc {
      TextComponents(s);
      ComponentsFrom(s, 1, "1", 1, []);
      ComponentsFrom(s, 2, "12", 2, []);
      ComponentsFrom(s, 3, [], 0, ["12"]);
      ComponentsFrom(s, 4, [], 1, ["12"]);
      ComponentsFrom(s, 5, [], 0, ["12", ""]);
    }
  }

  /** Typing four digits fills the expiry field around its delimiter and
      leaves the cursor at the end. */
  lemma TypeFullExpiry()
    ensures ApplyEdit(NewSlots("MM/YY", "dd*dd"), "", 0, 0, "1225") == EditResult(FullExpiry(), 5, true)
  {
    ExpirySlots();
    var input := "1225";
    var s0 := NewSlots("MM/YY", "dd*dd");
    var s1 := Filled(s0, 0, '1');
    var s2 := Filled(s1, 1, '2');
    var s3 := Filled(s2, 3, '2');
    AcceptStep(FillState(s0, 0, false), input, 0, 4, 4, 0);
    AcceptStep(FillState(s1, 1, true), input, 1, 4, 4, 1);
    AcceptStep(FillState(s2, 2, true), input, 2, 4, 4, 3);
    AcceptStep(FillState(s3, 4, true), input, 3, 4, 4, 4);
    assert Filled(s3, 4, '5') == FullExpiry();
    RenderedFrame(FullExpiry(), "");
  }

  /** A single keystroke into a fresh expiry field writes the first slot and
      moves the cursor past it. */
  lemma TypeOneDigit()
    ensures var s := NewSlots("MM/YY", "dd*dd");
      ApplyEdit(s, "", 0, 0, "1") == EditResult(Filled(s, 0, '1'), 1, true)
  {
    ExpirySlots();
    var s := NewSlots("MM/YY", "dd*dd");
    AcceptStep(FillState(s, 0, false), "1", 0, 1, 1, 0);
    RenderedFrame(Filled(s, 0, '1'), "");
  }

  /** A letter typed into a digit slot is dropped and the next digit takes
      that slot. */
  lemma TypeExpiryWithLetter()
    ensures ApplyEdit(NewSlots("MM/YY", "dd*dd"), "", 0, 0, "1a2") == EditResult(MonthOnly(), 2, true)
  {
    ExpirySlots();
    var input := "1a2";
    var s0 := NewSlots("MM/YY", "dd*dd");
    var s1 := Filled(s0, 0, '1');
    AcceptStep(FillState(s0, 0, false), input, 0, 3, 3, 0);
    RejectStep(FillState(s1, 1, true), input, 1, 3, 3, 1);
    AcceptStep(FillState(s1, 1, true), input, 2, 3, 3, 1);
    assert Filled(s1, 1, '2') == MonthOnly();
    RenderedFrame(MonthOnly(), "");
  }

  /** Deleting the year of a full expiry date clears it and puts the cursor
      just after the month. */
  lemma DeleteExpiryYear()
    ensures ApplyEdit(FullExpiry(), "", 3, 2, "") == EditResult(MonthOnly(), 2, true)
  {
    DeleteSpec(FullExpiry(), 3, 5);
    assert ClearLoop(FullExpiry(), 3, 5, false).slots == MonthOnly();
    RenderedFrame(MonthOnly(), "");
    assert FullExpiry()[3].IsEditable() && !FullExpiry()[3].isClear;
  }

  /** Replacing a one-slot selection with two characters writes only the
      first. */
  lemma ReplaceSelection()
    ensures ApplyEdit(FullExpiry(), "", 0, 1, "34") == EditResult(Filled(FullExpiry(), 0, '3'), 1, true)
  {
    AcceptStep(FillState(FullExpiry(), 0, false), "34", 0, 1, 1, 0);
    RenderedFrame(Filled(FullExpiry(), 0, '3'), "");
  }

  /** Replacing a two-slot selection with three characters writes the first
      two. */
  lemma ReplaceTwoSlots()
    ensures ApplyEdit(FullExpiry(), "", 0, 2, "345")
         == EditResult(Filled(Filled(FullExpiry(), 0, '3'), 1, '4'), 2, true)
  {
    var s1 := Filled(FullExpiry(), 0, '3');
    assert FillStep(FillState(FullExpiry(), 0, false), '3', true, 2) == Some(FillState(s1, 1, true));
    assert FillStep(FillState(s1, 1, true), '4', true, 2) == Some(FillState(Filled(s1, 1, '4'), 2, true));
    RenderedFrame(Filled(s1, 1, '4'), "");
  }

  /** Typing over the whole selected field overwrites only as many slots as
      there are typed characters: the rest of the selection keeps its
      values. */
  lemma TypeOverSelection()
    ensures ApplyEdit(FullExpiry(), "", 0, 5, "3") == EditResult(Filled(FullExpiry(), 0, '3'), 1, true)
  {
    AcceptStep(FillState(FullExpiry(), 0, false), "3", 0, 1, 1, 0);
    RenderedFrame(Filled(FullExpiry(), 0, '3'), "");
  }

  /** The edited text after TypeOverSelection still holds the old values. */
  lemma OverwrittenText()
    ensures EditedText(Filled(FullExpiry(), 0, '3')) == "3225"
  {
    var s := Filled(FullExpiry(), 0, '3');
    assert s == [KCChar('M', '3', false, 'd')] + FullExpiry()[1..];
    FullExpiryQueries();
    assert EditedText(FullExpiry()) == EditedChars(FullExpiry()[0]) + EditedText(FullExpiry()[1..]);
    assert EditedText(FullExpiry()[1..]) == "225";
    assert EditedText(s) == "3" + EditedText(FullExpiry()[1..]);
  }

  // ---------------------------------------------------------------------
  // "#RRGGBBAA" with "*hhhhhhhh"

  lemma HexSlots()
    ensures NewSlots("#RRGGBBAA", "*hhhhhhhh")
         == [NewChar('#', '*'), NewChar('R', 'h'), NewChar('R', 'h'), NewChar('G', 'h'), NewChar('G', 'h'),
             NewChar('B', 'h'), NewChar('B', 'h'), NewChar('A', 'h'), NewChar('A', 'h')]
  {
  }

  /** Typing into the hex colour field skips its leading delimiter and takes
      hex digits of either case; with an upper-case case string the display
      step raises them. */
  lemma TypeHexColor()
    ensures var s := NewSlots("#RRGGBBAA", "*hhhhhhhh");
      && HomePosition(s) == 1
      && ApplyEdit(s, "", 0, 0, "fF") == EditResult(Filled(Filled(s, 1, 'f'), 2, 'F'), 3, true)
      && ApplyEdit(s, "A", 0, 0, "fF") == EditResult(Filled(Filled(s, 1, 'F'), 2, 'F'), 3, true)
  {
    HexSlots();
    var input := "fF";
    var s0 := NewSlots("#RRGGBBAA", "*hhhhhhhh");
    var s1 := Filled(s0, 1, 'f');
    AcceptStep(FillState(s0, 0, false), input, 0, 2, 2, 1);
    AcceptStep(FillState(s1, 2, true), input, 1, 2, 2, 2);
    var s2 := Filled(s1, 2, 'F');
    RenderedFrame(s2, "");
    assert Rendered(s2, "A") == Filled(Filled(s0, 1, 'F'), 2, 'F');
  }

  /** Deleting the leading delimiter of a fresh hex colour field changes
      nothing, reports no edit, and puts the cursor on the first hex slot. */
  lemma DeleteHexDelimiter()
    ensures var s := NewSlots("#RRGGBBAA", "*hhhhhhhh");
      ApplyEdit(s, "", 0, 1, "") == EditResult(s, 1, false)
  {
    HexSlots();
    var s := NewSlots("#RRGGBBAA", "*hhhhhhhh");
    DeleteSpec(s, 0, 1);
    assert ClearLoop(s, 0, 1, false).slots == s;
    RenderedFrame(s, "");
    assert DeleteCursor(s, 0) == 1;
  }
}
