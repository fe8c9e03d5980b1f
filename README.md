# KCMaskTextField masking engine in Dafny

KCMaskTextField is a Swift `UITextField` subclass that makes input follow a
fixed pattern. The pattern comes from three strings:

- the **format string** is the text the field shows while empty (`MM/DD/YY`);
- the **mask string** gives one class tag per position: `d` digit, `D`
  non-digit, `a` letter, `A` non-letter, `c` alphanumeric, `C`
  non-alphanumeric, `h` hexadecimal digit, `.` anything, and `*` a fixed
  delimiter;
- the **case string** can force filled characters to lower case (`a`) or
  upper case (`A`).

The field keeps one slot (`KCChar`) per format character. A slot holds its
format character, its current value, whether it is cleared, and its tag.
Every edit the text view requests is intercepted and applied to the slots:

- typed or pasted text is written, character by character, into the next
  editable slot whose class accepts it;
- a deletion puts the slots of the range back to their format characters;
- a display step then paints each slot by its role and writes the case
  transform back into the filled slots;
- the cursor moves to the slot after the last write, or next to the nearest
  editable slot after a deletion.

The read-only queries are status, text components, raw text and edited
text.

The project has five modules:

- `MaskChar` (`mask_char.dfy`): the slot datatype, the character-class
  validator, the case transform and the colour roles.
- `MaskText` (`mask_text.dfy`): the queries, with what each one means in
  terms of the slots. Status is characterised slot by slot. Raw and edited
  text are characterised character by character. The text components are
  proved equal to `RunTexts`, an independent definition that splits the
  slots at their delimiters: entry j is the edited text of the j-th maximal
  run of editable slots.
- `MaskEdit` (`mask_edit.dfy`): each state transition as a function of the
  slot sequence. These are building the slots, the two cursor scans,
  insertion, deletion, the display step, clearing, and one whole edit
  (`ApplyEdit`). It also proves their properties: frames, cursor placement,
  well-formedness, an insertion round trip, and the subsequence property of
  the written characters.
- `MaskField` (`mask_field.dfy`): the class `KCMaskTextField` with the
  source's fields and loops. Every method is proved to produce exactly the
  state the `MaskEdit` functions give. The class invariant `Valid()` says
  the slots are shaped by the format and mask strings, are well formed,
  and the cursor lies in the field. The public operations establish or keep
  it: the constructor, the setters `SetFormatString`, `SetMaskString` and
  `SetCaseString`, `SetFormat`, `ColorDidChange`, `BeginEditing`,
  `ShouldChangeCharacters`, `UpdateText` and `ClearText`. Of the private
  helpers, `Initialize` and `FormatInput` establish or keep it as well. The
  others (`MoveCursorTo`, `DisplayFormattedText`, the two branch methods
  and the three loop methods) state their effect on the fields instead.
  `MoveCursorTo` accepts any position, as the source does.
- `MaskScenarios` (`mask_scenarios.dfy`): the engine worked through on the
  demo screen's configurations (a date, a card expiry date, a hex colour).

Behaviour of the code that a reader might not expect, modelled as written:

- `textComponents` emits one component for every run of editable slots, so a
  run with nothing filled gives the empty string (`ClearFieldComponents`,
  `MonthOnlyQueries`).
- `status` is `Complete` when the field has no editable slot at all, for
  example an empty format (`StatusMeaning`, `NewSlotsClear`).
- Typing over a selection that is longer than the typed text overwrites only
  as many slots as there are typed characters. The rest of the selection
  keeps its old values (`TypeOverSelection`, `OverwrittenText`).
- A `KCChar` field is called `type` in the source. Here it is called `tag`,
  because `type` is a Dafny keyword.

## Model

| member | source | states |
|---|---|---|
| MaskChar.NewChar | DateTextFieldDemo/KCMaskTextField/KCMaskTextField.swift:28-33 | a new slot shows its format character and is cleared; it contributes nothing to the edited text and is painted in the format colour, or the delimiter colour when its tag is `*` |
| MaskChar.AnyAcceptsEverything | DateTextFieldDemo/KCMaskTextField/KCMaskTextField.swift:405-407 | the `.` class accepts every character |
| MaskChar.HexAcceptsExactlyHexDigits | DateTextFieldDemo/KCMaskTextField/KCMaskTextField.swift:402-404 | `h` accepts a character if and only if it is 0-9, a-f or A-F |
| MaskChar.PairedTagsAreComplementary | DateTextFieldDemo/KCMaskTextField/KCMaskTextField.swift:384-401 | `D`, `A` and `C` accept exactly what `d`, `a` and `c` reject |
| MaskChar.UnknownTagAcceptsNothing | DateTextFieldDemo/KCMaskTextField/KCMaskTextField.swift:408-410 | a tag outside `dDaAcCh.` accepts no character |
| MaskChar.DelimiterAcceptsNothing | DateTextFieldDemo/KCMaskTextField/KCMaskTextField.swift:379-413 | the delimiter tag `*` accepts no character, so a delimiter slot is never written |
| MaskChar.ToLower | DateTextFieldDemo/KCMaskTextField/KCMaskTextField.swift:348-350 | each upper-case letter maps to its own lower-case letter (code point + 32); every other character is unchanged |
| MaskChar.ToUpper | DateTextFieldDemo/KCMaskTextField/KCMaskTextField.swift:351-353 | each lower-case letter maps to its own upper-case letter (code point - 32); every other character is unchanged |
| MaskChar.CaseDirective | DateTextFieldDemo/KCMaskTextField/KCMaskTextField.swift:346 | the directive that applies at a position; its effect on the slots is stated by CaseStringEffect |
| MaskChar.CaseTransform | DateTextFieldDemo/KCMaskTextField/KCMaskTextField.swift:347-356 | directive `a` leaves no upper-case letter and `A` no lower-case letter, each time keeping the same letter; any other directive, or none, leaves the character unchanged |
| MaskChar.IsValidCharacter | DateTextFieldDemo/KCMaskTextField/KCMaskTextField.swift:379-413 | the character-class check; its meaning per tag is stated by AnyAcceptsEverything, HexAcceptsExactlyHexDigits, PairedTagsAreComplementary and UnknownTagAcceptsNothing |
| MaskChar.CaseTransformIdempotent | DateTextFieldDemo/KCMaskTextField/KCMaskTextField.swift:343-358 | applying a case directive twice equals applying it once |
| MaskChar.RoleOf | DateTextFieldDemo/KCMaskTextField/KCMaskTextField.swift:331-340 | delimiter colour iff not editable; format colour iff editable and cleared; editable colour iff editable and filled, which is exactly when the slot contributes to the edited text |
| MaskText.EditableCount | DateTextFieldDemo/KCMaskTextField/KCMaskTextField.swift:126 | the editable count never exceeds the number of slots |
| MaskText.FilledCount | DateTextFieldDemo/KCMaskTextField/KCMaskTextField.swift:127 | the filled count never exceeds the editable count |
| MaskText.Status | DateTextFieldDemo/KCMaskTextField/KCMaskTextField.swift:125-129 | the status of the slots; what it means is stated by StatusMeaning |
| MaskText.CountsMeaning | DateTextFieldDemo/KCMaskTextField/KCMaskTextField.swift:126-128 | no editable slots iff the editable count is 0; nothing filled iff the filled count is 0; all filled iff the two counts are equal |
| MaskText.StatusMeaning | DateTextFieldDemo/KCMaskTextField/KCMaskTextField.swift:125-129 | Complete iff every editable slot is filled; Clear iff editable slots exist and none is filled; Incomplete iff some are filled and some are not |
| MaskText.RawText | DateTextFieldDemo/KCMaskTextField/KCMaskTextField.swift:156-158 | one character per slot, and character i is slot i's value |
| MaskText.EditedText | DateTextFieldDemo/KCMaskTextField/KCMaskTextField.swift:163-165 | the edited text has one character per filled editable slot |
| MaskText.EditedTextAppend | DateTextFieldDemo/KCMaskTextField/KCMaskTextField.swift:163-165 | the edited text of a concatenation is the concatenation of the edited texts |
| MaskText.EditedTextEmpty | DateTextFieldDemo/KCMaskTextField/KCMaskTextField.swift:163-165 | the edited text is empty iff no editable slot is filled |
| MaskText.ComponentsFromConcat | DateTextFieldDemo/KCMaskTextField/KCMaskTextField.swift:138-149 | from any loop state, the components emitted, joined, equal the ones so far plus the pending run plus the edited text of the remaining slots |
| MaskText.ComponentsConcatToEditedText | DateTextFieldDemo/KCMaskTextField/KCMaskTextField.swift:134-151 | joining the text components gives the edited text |
| MaskText.ComponentsFromCount | DateTextFieldDemo/KCMaskTextField/KCMaskTextField.swift:138-149 | from any loop state, one component is emitted per run of editable slots still to begin, plus one for the pending run |
| MaskText.ComponentsPerRun | DateTextFieldDemo/KCMaskTextField/KCMaskTextField.swift:134-151 | there is exactly one component per maximal run of editable slots |
| MaskText.ClearFieldComponents | DateTextFieldDemo/KCMaskTextField/KCMaskTextField.swift:134-151 | with nothing filled, every run is still reported, as the empty string |
| MaskText.TextComponents | DateTextFieldDemo/KCMaskTextField/KCMaskTextField.swift:134-151 | the loop of textComponents, as ComponentsFrom; what it computes is stated by TextComponentsAreRunTexts, ComponentsConcatToEditedText and ComponentsPerRun |
| MaskText.RunTexts | DateTextFieldDemo/KCMaskTextField/KCMaskTextField.swift:134-151 | the reference definition: the edited text of every maximal run of editable slots, in order, found by splitting at delimiters |
| MaskText.ComponentsFromRuns | DateTextFieldDemo/KCMaskTextField/KCMaskTextField.swift:138-149 | from any loop state inside a run, the loop emits the pending run completed with the rest of its slots, then the edited text of every later maximal run |
| MaskText.TextComponentsAreRunTexts | DateTextFieldDemo/KCMaskTextField/KCMaskTextField.swift:134-151 | entry j of the text components is the edited text of the j-th maximal run of editable slots, so an unfilled run gives the empty string and a filled one its own characters |
| MaskEdit.NewSlots | DateTextFieldDemo/KCMaskTextField/KCMaskTextField.swift:106-112 | one cleared slot per format character, showing it, with the mask's tag at that position, or `.` past the mask's end |
| MaskEdit.NextEditable | DateTextFieldDemo/KCMaskTextField/KCMaskTextField.swift:297-306 | the result is the first editable slot at or after the start; none iff no editable slot lies there |
| MaskEdit.PrevEditable | DateTextFieldDemo/KCMaskTextField/KCMaskTextField.swift:308-317 | the result is the last editable slot at or before the start; none iff no editable slot lies there, so always none for a negative start |
| MaskEdit.HomePosition | DateTextFieldDemo/KCMaskTextField/KCMaskTextField.swift:116 | the first editable slot, or 0 when there is none |
| MaskEdit.ScansSameShape | DateTextFieldDemo/KCMaskTextField/KCMaskTextField.swift:297-317 | both scans give the same answer on slots with the same formats and tags, whatever their values |
| MaskEdit.BackwardSameShape | DateTextFieldDemo/KCMaskTextField/KCMaskTextField.swift:308-317 | the backward scan gives the same answer on slots of the same shape |
| MaskEdit.NewSlotsClear | DateTextFieldDemo/KCMaskTextField/KCMaskTextField.swift:103-117 | freshly built slots are well formed and nothing is filled; the raw text is the format string and the edited text is empty; status is Clear, or Complete when no slot is editable |
| MaskEdit.NewSlotsBlank | DateTextFieldDemo/KCMaskTextField/KCMaskTextField.swift:106-112 | freshly built slots are well formed, none is filled, and the raw text is the format string |
| MaskEdit.NewSlotsValid | DateTextFieldDemo/KCMaskTextField/KCMaskTextField.swift:103-117 | freshly built slots are shaped by the format and the mask, the display step leaves them unchanged, and the home position lies inside the field |
| MaskEdit.FillStep | DateTextFieldDemo/KCMaskTextField/KCMaskTextField.swift:233-245 | one loop iteration keeps the number of slots and never moves the next write position backwards or past the end |
| MaskEdit.Consumed | DateTextFieldDemo/KCMaskTextField/KCMaskTextField.swift:227-230 | how many input characters an insertion tries: the selection's length when a selection is shorter than the input, else the whole input; that every one of them is tried is stated by LongSelectionIsPlainInsert and ShortSelectionIsCutInsert, and what they do to the slots by InsertCursor and InsertSubsequence |
| MaskEdit.FillLoop | DateTextFieldDemo/KCMaskTextField/KCMaskTextField.swift:232-246 | the insertion loop keeps the number of slots and never moves the next write position backwards or past the end |
| MaskEdit.Insert | DateTextFieldDemo/KCMaskTextField/KCMaskTextField.swift:226-246 | the insertion loop run from the location; with no selection it is stated by AcceptedCharacterIsWritten and RejectedCharacterIsSkipped, a selection is reduced to that case by LongSelectionIsPlainInsert and ShortSelectionIsCutInsert, and FirstAcceptedIsWritten, InsertFrame, InsertCursor, InsertSubsequence and InsertRoundTrip state the rest |
| MaskEdit.StepSpec | DateTextFieldDemo/KCMaskTextField/KCMaskTextField.swift:233-245 | one iteration, case by case: with no editable slot left, or a character the first editable slot rejects, the state is kept; with a selection whose end that slot reaches, the loop stops; otherwise the character is written there and the write position moves just past it; any write keeps the frame and writes an accepted character |
| MaskEdit.FillLoopFacts | DateTextFieldDemo/KCMaskTextField/KCMaskTextField.swift:232-246 | from any state, the loop keeps every format and tag and leaves slots outside the written span unchanged; it fills every editable slot in that span with an accepted character; it reports an edit iff the span is non-empty; it never writes at or past a selection's end |
| MaskEdit.FillLoopSubsequence | DateTextFieldDemo/KCMaskTextField/KCMaskTextField.swift:232-246 | from any state, the characters written, read in slot order, are a subsequence of the input characters tried |
| MaskEdit.InsertFrame | DateTextFieldDemo/KCMaskTextField/KCMaskTextField.swift:226-246 | an insertion keeps every format and tag and changes no slot before the location or at or after the new cursor; inside that span each editable slot is filled with a character its class accepts and each delimiter is unchanged |
| MaskEdit.InsertCursor | DateTextFieldDemo/KCMaskTextField/KCMaskTextField.swift:226-252 | an insertion reports an edit iff the cursor moved; a moved cursor sits just after an editable slot; with a selection shorter than the input it stays within the selection |
| MaskEdit.InsertUnedited | DateTextFieldDemo/KCMaskTextField/KCMaskTextField.swift:248-252 | an insertion that reports no edit leaves the slots and the cursor as they were |
| MaskEdit.InsertSubsequence | DateTextFieldDemo/KCMaskTextField/KCMaskTextField.swift:226-246 | the characters an insertion writes, in slot order, are a subsequence of the input characters it tries; rejected characters are dropped and order is kept |
| MaskEdit.InsertWellFormed | DateTextFieldDemo/KCMaskTextField/KCMaskTextField.swift:238-243 | insertion keeps the slots well formed: a cleared slot shows its format and a delimiter stays cleared |
| MaskEdit.FillLoopFits | DateTextFieldDemo/KCMaskTextField/KCMaskTextField.swift:232-246 | when the input fits the remaining editable slots one by one, the loop fills them all and their edited text is that input |
| MaskEdit.InsertRoundTrip | DateTextFieldDemo/KCMaskTextField/KCMaskTextField.swift:226-246 | typing at 0, with one accepted character per editable slot, makes the edited text equal to the input and the status Complete |
| MaskEdit.RejectedCharacterIsSkipped | DateTextFieldDemo/KCMaskTextField/KCMaskTextField.swift:238-243 | with no selection, a first character the target slot rejects is dropped: the insertion equals the insertion of the rest of the input at the same location |
| MaskEdit.AcceptedCharacterIsWritten | DateTextFieldDemo/KCMaskTextField/KCMaskTextField.swift:233-245 | with no selection, a first character the target slot accepts is written there: the insertion equals writing it and inserting the rest of the input from the next slot on, with the edit reported |
| MaskEdit.FirstAcceptedIsWritten | DateTextFieldDemo/KCMaskTextField/KCMaskTextField.swift:227-246 | with or without a selection, a first character that the first editable slot accepts is written there and kept, the edit is reported and the cursor lies past that slot, provided the slot lies inside a selection shorter than the input |
| MaskEdit.SelectionCut | DateTextFieldDemo/KCMaskTextField/KCMaskTextField.swift:229-246 | with a selection ending inside the field, the loop runs as the loop without a selection on the slots before the selection's end, and the slots from there on are untouched |
| MaskEdit.LongSelectionIsPlainInsert | DateTextFieldDemo/KCMaskTextField/KCMaskTextField.swift:227-230 | typing over a selection at least as long as the input is typing with no selection |
| MaskEdit.ShortSelectionIsCutInsert | DateTextFieldDemo/KCMaskTextField/KCMaskTextField.swift:227-246 | typing over a selection shorter than the input types its length of input characters with no selection, into the slots before the selection's end when it ends inside the field, the later slots kept, and into the whole field when it runs past the last slot |
| MaskEdit.ClearLoop | DateTextFieldDemo/KCMaskTextField/KCMaskTextField.swift:259-267 | the deletion loop; what it does is stated by ClearLoopSpec and DeleteSpec |
| MaskEdit.ClearLoopSpec | DateTextFieldDemo/KCMaskTextField/KCMaskTextField.swift:259-267 | from any slot, the deletion loop resets each editable slot left in the range and leaves every other slot alone; it reports an edit iff one of those slots was filled or an edit was already reported |
| MaskEdit.DeleteSpec | DateTextFieldDemo/KCMaskTextField/KCMaskTextField.swift:255-267 | a deletion clears each editable slot in the range back to its format and leaves every other slot unchanged; it reports an edit iff one of them was filled |
| MaskEdit.DeleteCursor | DateTextFieldDemo/KCMaskTextField/KCMaskTextField.swift:271-277 | after a deletion the cursor sits just after the nearest editable slot before the location; if there is none, it sits on the first editable slot at or after the location; if the field has no editable slot, it sits at the location |
| MaskEdit.Rendered | DateTextFieldDemo/KCMaskTextField/KCMaskTextField.swift:343-358 | the slots after the display step, slot by slot as RenderSlot; what it does is stated by RenderedFrame, RenderedIdempotent, RenderedStatus and CaseStringEffect |
| MaskEdit.RenderedFrame | DateTextFieldDemo/KCMaskTextField/KCMaskTextField.swift:343-358 | the display step changes only the values of filled editable slots; it keeps formats, tags and cleared flags; with no case string it changes nothing; it keeps the slots well formed |
| MaskEdit.RenderedIdempotent | DateTextFieldDemo/KCMaskTextField/KCMaskTextField.swift:343-358 | running the display step a second time changes nothing |
| MaskEdit.RenderedStatus | DateTextFieldDemo/KCMaskTextField/KCMaskTextField.swift:323-364 | the display step changes neither the status nor the length of the edited text |
| MaskEdit.CaseStringEffect | DateTextFieldDemo/KCMaskTextField/KCMaskTextField.swift:345-358 | a one-character case string applies at every slot and a longer one position by position: directive `A` leaves a filled slot with no lower-case letter and `a` with no upper-case letter, keeping the letter; any other directive, a position past the string, a cleared slot and a delimiter are shown unchanged |
| MaskEdit.PaintedEditedText | DateTextFieldDemo/KCMaskTextField/KCMaskTextField.swift:330-362 | the characters painted in the editable colour, in order, spell the edited text |
| MaskEdit.StatusSameFills | DateTextFieldDemo/KCMaskTextField/KCMaskTextField.swift:125-129 | the editable and filled counts depend only on which slots are editable and which are filled |
| MaskEdit.Cleared | DateTextFieldDemo/KCMaskTextField/KCMaskTextField.swift:181-186 | every slot becomes cleared, formats and tags are kept, a filled slot gets its format character back and a cleared one is untouched; nothing is filled and well-formedness is kept |
| MaskEdit.ClearedIsFresh | DateTextFieldDemo/KCMaskTextField/KCMaskTextField.swift:180-186 | clearing well-formed slots gives exactly the slots the format and mask build |
| MaskEdit.ClearedIdempotent | DateTextFieldDemo/KCMaskTextField/KCMaskTextField.swift:180-187 | clearing twice equals clearing once, and the display step leaves cleared slots alone |
| MaskEdit.ApplyEdit | DateTextFieldDemo/KCMaskTextField/KCMaskTextField.swift:221-287 | one edit of the field; what it does is stated by ApplyEditSelection, ApplyEditInsertion, ApplyEditSpec, EditKeepsValid, DeleteSpec, DeleteCursor and UpdateTextCompletes |
| MaskEdit.ApplyEditSpec | DateTextFieldDemo/KCMaskTextField/KCMaskTextField.swift:221-287 | an edit keeps formats and tags and well-formedness, with the cursor inside the field; an unedited insertion changes nothing and leaves the cursor at the location; an edited insertion leaves it past the location, after an editable slot; a deletion reports an edit iff it cleared a filled slot |
| MaskEdit.InsertEditFacts | DateTextFieldDemo/KCMaskTextField/KCMaskTextField.swift:226-253 | an insertion keeps formats, tags and well-formedness and leaves the cursor inside the field; without an edit the slots and cursor are unchanged, with one the cursor is past the location and just after an editable slot |
| MaskEdit.DeleteEditFacts | DateTextFieldDemo/KCMaskTextField/KCMaskTextField.swift:255-278 | a deletion keeps formats, tags and well-formedness and leaves the cursor inside the field; it reports an edit iff some editable slot of the range was filled |
| MaskEdit.ApplyEditInsertion | DateTextFieldDemo/KCMaskTextField/KCMaskTextField.swift:226-253 | after an edited insertion, slots outside the written span are only redisplayed, editable slots inside it are filled and delimiters kept; without a case string the written characters are a subsequence of those tried; a first character the first editable slot accepts is written there in its position's case, with the edit reported and the cursor past it |
| MaskEdit.ApplyEditSelection | DateTextFieldDemo/KCMaskTextField/KCMaskTextField.swift:221-253 | an edit over a selection at least as long as the input is the edit with no selection; over a shorter one it is the edit with no selection of its length of input characters, on the slots before the selection's end when that lies inside the field, the later slots only redisplayed |
| MaskEdit.EditKeepsValid | DateTextFieldDemo/KCMaskTextField/KCMaskTextField.swift:221-287 | an edit keeps the slots shaped by the same format and mask, well formed, and the cursor inside the field |
| MaskEdit.UpdateTextCompletes | DateTextFieldDemo/KCMaskTextField/KCMaskTextField.swift:170-175 | updating a field with a fitting text makes it Complete; the edited text has the input's length, and with no case string it is the input |
| MaskField.KCMaskTextField.constructor | DateTextFieldDemo/KCMaskTextField/KCMaskTextField.swift:42-43 | a new field has no slots, cursor 0 and empty format, mask and case strings |
| MaskField.KCMaskTextField.Initialize | DateTextFieldDemo/KCMaskTextField/KCMaskTextField.swift:103-117 | the slots become those the format and mask build and the cursor goes to the home position; the invariant holds |
| MaskField.KCMaskTextField.SetFormatString | DateTextFieldDemo/KCMaskTextField/KCMaskTextField.swift:73-77 | setting the format rebuilds the slots from the new format and the current mask |
| MaskField.KCMaskTextField.SetMaskString | DateTextFieldDemo/KCMaskTextField/KCMaskTextField.swift:90-94 | setting the mask rebuilds the slots from the current format and the new mask |
| MaskField.KCMaskTextField.SetCaseString | DateTextFieldDemo/KCMaskTextField/KCMaskTextField.swift:97-100 | setting the case string only stores it and keeps the invariant |
| MaskField.KCMaskTextField.SetFormat | DateTextFieldDemo/KCMaskTextField/KCMaskTextField.swift:195-198 | the slots and cursor depend only on the two arguments, so a repeated call changes nothing |
| MaskField.KCMaskTextField.DisplayFormattedText | DateTextFieldDemo/KCMaskTextField/KCMaskTextField.swift:323-364 | the slots become their rendered form; the painted cells are exactly `Cells` of the new slots, each slot's value with its colour role |
| MaskField.KCMaskTextField.ColorDidChange | DateTextFieldDemo/KCMaskTextField/KCMaskTextField.swift:49-70 | a colour change repaints the slots, returns exactly their painted cells, and leaves the cursor where it was |
| MaskField.KCMaskTextField.BeginEditing | DateTextFieldDemo/KCMaskTextField/KCMaskTextField.swift:203-206 | beginning to edit leaves the cursor where it was and keeps the invariant |
| MaskField.KCMaskTextField.MoveCursorTo | DateTextFieldDemo/KCMaskTextField/KCMaskTextField.swift:289-295 | the remembered cursor position becomes the given one |
| MaskField.KCMaskTextField.FindLocationForward | DateTextFieldDemo/KCMaskTextField/KCMaskTextField.swift:297-306 | the loop returns the first editable slot at or after the start, as NextEditable gives it |
| MaskField.KCMaskTextField.FindLocationBackward | DateTextFieldDemo/KCMaskTextField/KCMaskTextField.swift:308-317 | the loop returns the last editable slot at or before the start, as PrevEditable gives it |
| MaskField.KCMaskTextField.ShouldChangeCharacters | DateTextFieldDemo/KCMaskTextField/KCMaskTextField.swift:212-219 | the text view is never allowed to apply the change; a location past the end changes nothing; otherwise the new slots, cursor and edited flag are the ones ApplyEdit gives |
| MaskField.KCMaskTextField.FormatInput | DateTextFieldDemo/KCMaskTextField/KCMaskTextField.swift:221-287 | the new slots, cursor and edited flag are those of ApplyEdit; the invariant holds |
| MaskField.KCMaskTextField.InsertInput | DateTextFieldDemo/KCMaskTextField/KCMaskTextField.swift:226-253 | the insertion branch: after a write, the slots are the rendered insertion; without one, nothing changes and the cursor stays at the location |
| MaskField.KCMaskTextField.DeleteInput | DateTextFieldDemo/KCMaskTextField/KCMaskTextField.swift:255-278 | the deletion branch: the slots are the rendered cleared range and the cursor is DeleteCursor |
| MaskField.KCMaskTextField.InsertLoop | DateTextFieldDemo/KCMaskTextField/KCMaskTextField.swift:228-246 | the loop over the input ends in exactly the state Insert gives |
| MaskField.KCMaskTextField.ClearRange | DateTextFieldDemo/KCMaskTextField/KCMaskTextField.swift:257-267 | the loop over the range ends in exactly the state ClearLoop gives |
| MaskField.KCMaskTextField.UpdateText | DateTextFieldDemo/KCMaskTextField/KCMaskTextField.swift:170-175 | an empty text changes nothing; otherwise the state is that of an insertion of the text at 0 |
| MaskField.KCMaskTextField.ClearText | DateTextFieldDemo/KCMaskTextField/KCMaskTextField.swift:180-190 | every slot goes back to its format character, so the slots equal a freshly built field; the cursor goes to the home position |
| MaskField.KCMaskTextField.ResetSlots | DateTextFieldDemo/KCMaskTextField/KCMaskTextField.swift:181-186 | the reset loop turns every filled slot back into its cleared form |
| MaskScenarios.FreshDateField | DateTextFieldDemo/DemoViewController.swift:17-21 | a fresh `MM/DD/YY` date field shows its format, is Clear and puts the cursor on slot 0 |
| MaskScenarios.ExpirySlots | DateTextFieldDemo/DemoViewController.swift:36-39 | the `MM/YY` expiry format with mask `dd*dd` builds four digit slots around one delimiter |
| MaskScenarios.FullExpiryQueries | DateTextFieldDemo/KCMaskTextField/KCMaskTextField.swift:125-165 | a full expiry field has raw text `12/25`, edited text `1225`, components `12` and `25`, and status Complete |
| MaskScenarios.MonthOnlyQueries | DateTextFieldDemo/KCMaskTextField/KCMaskTextField.swift:125-165 | with only the month filled, the raw text is `12/YY`, the components are `12` and the empty string, and the status is Incomplete |
| MaskScenarios.TypeOneDigit | DateTextFieldDemo/KCMaskTextField/KCMaskTextField.swift:226-253 | a single digit typed into a fresh expiry field is written into slot 0, the edit is reported and the cursor moves to 1 |
| MaskScenarios.TypeFullExpiry | DateTextFieldDemo/KCMaskTextField/KCMaskTextField.swift:226-253 | typing `1225` into a fresh expiry field skips the delimiter, fills every slot and leaves the cursor at 5 |
| MaskScenarios.TypeExpiryWithLetter | DateTextFieldDemo/KCMaskTextField/KCMaskTextField.swift:232-246 | typing `1a2` drops the letter and fills the month with `12`, leaving the cursor at 2 |
| MaskScenarios.DeleteExpiryYear | DateTextFieldDemo/KCMaskTextField/KCMaskTextField.swift:255-278 | deleting the year clears it, reports an edit and puts the cursor just after the month |
| MaskScenarios.ReplaceSelection | DateTextFieldDemo/KCMaskTextField/KCMaskTextField.swift:227-237 | replacing a one-slot selection with two characters writes only the first |
| MaskScenarios.ReplaceTwoSlots | DateTextFieldDemo/KCMaskTextField/KCMaskTextField.swift:227-246 | replacing a two-slot selection with three characters writes the first two and leaves the cursor at 2 |
| MaskScenarios.TypeOverSelection | DateTextFieldDemo/KCMaskTextField/KCMaskTextField.swift:227-230 | typing one character over the whole selected field overwrites only the first slot |
| MaskScenarios.OverwrittenText | DateTextFieldDemo/KCMaskTextField/KCMaskTextField.swift:163-165 | after that overwrite the edited text is `3225` |
| MaskScenarios.HexSlots | DateTextFieldDemo/DemoViewController.swift:27-30 | the hex colour configuration builds one leading delimiter and eight hex slots |
| MaskScenarios.TypeHexColor | DateTextFieldDemo/KCMaskTextField/KCMaskTextField.swift:343-358 | typing `fF` into the hex field skips its leading delimiter and keeps both cases; a case string `A` raises both |
| MaskScenarios.DeleteHexDelimiter | DateTextFieldDemo/KCMaskTextField/KCMaskTextField.swift:255-278 | deleting the leading delimiter of a fresh hex field changes nothing, reports no edit and puts the cursor on slot 1 |

## Left out

- Presentation through UIKit is not modelled. That covers the attributed string, the actual colours (reduced to `ColorRole`), clearing the placeholder, `attributedText`, and the text-position calls in `moveCursorTo`. The display step returns its painted cells instead.
- The delegate is not modelled: `maskDelegate` and its three callbacks, `textFieldDidEndEditing`, and setting `self.delegate`. These only notify other objects. `FormatInput` returns the `edited` flag that would trigger the change callback.
- MaskChar.IsValidCharacter: the decimal-digit, letter and alphanumeric classes are the ASCII ranges, not Foundation's Unicode character sets. The `h` class and `.` are exact.
- MaskChar.ToLower: only ASCII letters are mapped. Swift's case conversion can turn one character into several, of which the source keeps the first. That case does not arise in ASCII.
- MaskChar.ToUpper: only ASCII letters are mapped, for the same reason.
- A Swift `Character` is a grapheme cluster. Here a character is one Dafny `char`.
- Line 109 of KCMaskTextField.swift reads the mask with an index computed on the format string. The model reads the mask at the same position, which is what that index evaluates to for single-scalar characters.
- `previousCursorPosition` is a plain Int in the source. Every caller passes a position inside the field, so the class invariant bounds it by the number of slots.
- `NSRange` locations and lengths are Swift `Int`s. The text view never passes negative ones, and `updateText` passes `NSMakeRange(0,0)`, so the model takes them as `nat`. The value `location - 1` that the deletion branch hands to the backward scan stays an `int`, so it can be -1, as in the source. A deletion range that runs past the last slot makes the Swift code trap on an array index. `ApplyEdit`, `FormatInput` and `ShouldChangeCharacters` therefore require such a range to lie inside the field.
- The screens DemoViewController.swift and CustomViewController.swift are not modelled. Only their format and mask strings appear, in `MaskScenarios`.
