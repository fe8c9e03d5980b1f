/** The state transitions of a mask field, as functions of its slot sequence:
    building the slots, the two cursor scans, insertion, deletion and the
    case transform of the display step. The class in MaskField runs them
    as loops and is proved to compute exactly these functions. */
module MaskEdit {
  import opened MaskChar
  import opened MaskText

  /** The class tag of position `index`: the mask's character there, or the
      accept-anything class past the end of the mask. */
  function MaskTag(mask: string, index: nat): char
  {
    if index < |mask| then mask[index] else '.'
  }

  /** The slots built from a format and a mask, one per format character,
      appended in order. */
  function NewSlots(format: string, mask: string): (r: seq<KCChar>)
    ensures |r| == |format|
    ensures forall i :: 0 <= i < |format| ==>
              r[i].format == format[i] && r[i].value == format[i] && r[i].isClear
              && r[i].tag == (if i < |mask| then mask[i] else '.')
    decreases |format|
  {
    if format == [] then []
    else
      var last := |format| - 1;
      NewSlots(format[..last], mask) + [NewChar(format[last], MaskTag(mask, last))]
  }

  /** Two slot sequences of the same length with the same format and tag in
      every position. */
  predicate SameShape(a: seq<KCChar>, b: seq<KCChar>)
  {
    |a| == |b| && forall i :: 0 <= i < |a| ==> a[i].format == b[i].format && a[i].tag == b[i].tag
  }

  /** The slots have one position per format character, with that character
      as its format and the mask's tag for the position. */
  predicate ShapedBy(s: seq<KCChar>, format: string, mask: string)
  {
    |s| == |format| && forall i :: 0 <= i < |s| ==> s[i].format == format[i] && s[i].tag == MaskTag(mask, i)
  }

  /** What the engine keeps true of every slot: a cleared slot shows its
      format character, and a delimiter slot is always cleared. */
  predicate WellFormed(s: seq<KCChar>)
  {
    forall i :: 0 <= i < |s| ==>
      (s[i].isClear ==> s[i].value == s[i].format) && (!s[i].IsEditable() ==> s[i].isClear)
  }

  /** The first editable slot at or after `from`, or none. */
  function NextEditable(s: seq<KCChar>, from: nat): (r: Option<nat>)
    requires from <= |s|
    ensures r.Some? ==> from <= r.value < |s| && s[r.value].IsEditable()
                        && forall j :: from <= j < r.value ==> !s[j].IsEditable()
    ensures r.None? ==> forall j :: from <= j < |s| ==> !s[j].IsEditable()
    decreases |s| - from
  {
    if from == |s| then None
    else if s[from].IsEditable() then Some(from)
    else NextEditable(s, from + 1)
  }

  /** The last editable slot at or before `from`, or none; none for any
      negative `from`. */
  function PrevEditable(s: seq<KCChar>, from: int): (r: Option<nat>)
    requires from < |s|
    ensures r.Some? ==> r.value <= from && s[r.value].IsEditable()
                        && forall j :: r.value < j <= from ==> !s[j].IsEditable()
    ensures r.None? ==> forall j :: 0 <= j <= from ==> !s[j].IsEditable()
    decreases if from < 0 then 0 else from + 1
  {
    if from < 0 then None
    else if s[from].IsEditable() then Some(from)
    else PrevEditable(s, from - 1)
  }

  /** Where the cursor rests after the slots are built or cleared: the first
      editable slot, or 0 when there is none. */
  function HomePosition(s: seq<KCChar>): (p: nat)
    ensures HasEditable(s) ==> p < |s| && s[p].IsEditable()
                               && forall j :: 0 <= j < p ==> !s[j].IsEditable()
    ensures !HasEditable(s) ==> p == 0
  {
    match NextEditable(s, 0)
    case Some(i) => i
    case None => 0
  }

  /** The scans look only at the tags, so slots of the same shape give the
      same answers. */
  lemma {:induction false} ScansSameShape(a: seq<KCChar>, b: seq<KCChar>, from: nat)
    requires SameShape(a, b) && from <= |a|
    ensures NextEditable(a, from) == NextEditable(b, from)
    ensures PrevEditable(a, from - 1) == PrevEditable(b, from - 1)
    decreases |a| - from
  {
    if from < |a| {
      ScansSameShape(a, b, from + 1);
    }
    BackwardSameShape(a, b, from - 1);
  }

  lemma {:induction false} BackwardSameShape(a: seq<KCChar>, b: seq<KCChar>, from: int)
    requires SameShape(a, b) && from < |a|
    ensures PrevEditable(a, from) == PrevEditable(b, from)
    decreases if from < 0 then 0 else from + 1
  {
    if from >= 0 {
      BackwardSameShape(a, b, from - 1);
    }
  }

  /** Freshly built slots are well formed, nothing in them is filled, and
      they show the format string. */
  lemma NewSlotsClear(format: string, mask: string)
    ensures var s := NewSlots(format, mask);
      && WellFormed(s)
      && NoneFilled(s)
      && RawText(s) == format
      && EditedText(s) == []
      && Status(s) == (if HasEditable(s) then Clear else Complete)
  {
    var s := NewSlots(format, mask);
    NewSlotsBlank(format, mask);
    EditedTextEmpty(s);
    StatusMeaning(s);
  }

  lemma NewSlotsBlank(format: string, mask: string)
    ensures var s := NewSlots(format, mask);
      WellFormed(s) && NoneFilled(s) && RawText(s) == format
  {
    var s := NewSlots(format, mask);
    assert RawText(s) == format;
  }

  /** Freshly built slots have their own shape, are left alone by the
      display step, and give a home position inside the field. */
  lemma NewSlotsValid(format: string, mask: string, caseString: string)
    ensures var s := NewSlots(format, mask);
      && ShapedBy(s, format, mask)
      && WellFormed(s)
      && Rendered(s, caseString) == s
      && HomePosition(s) <= |s|
  {
    var s := NewSlots(format, mask);
    NewSlotsClear(format, mask);
    RenderedFrame(s, caseString);
  }

  // ---------------------------------------------------------------------
  // Insertion

  /** The loop state of an insertion: the slots, the next slot a write may
      go to, and whether anything has been written. */
  datatype FillState = FillState(slots: seq<KCChar>, next: nat, edited: bool)

  /** How many input characters an insertion tries: the selection's length
      when there is a selection shorter than the input, else all of them. */
  function Consumed(length: nat, inputLength: nat): (k: nat)
    ensures 0 < length < inputLength ==> k == length
    ensures !(0 < length < inputLength) ==> k == inputLength
  {
    if length == 0 then inputLength
    else if length >= inputLength then inputLength
    else length
  }

  /** One iteration of the insertion loop for the input character `c`: the
      character goes to the first editable slot at or after `next`; with a
      selection, reaching the selection's end breaks the loop (None); a
      character the slot's class rejects, or one for which no editable slot
      remains, leaves the state as it is. */
  function FillStep(st: FillState, c: char, hasSelection: bool, end: nat): (r: Option<FillState>)
    requires st.next <= |st.slots|
    ensures r.Some? ==> |r.value.slots| == |st.slots| && st.next <= r.value.next <= |st.slots|
  {
    match NextEditable(st.slots, st.next)
    case None => Some(st)
    case Some(location) =>
      if hasSelection && location >= end then None
      else if IsValidCharacter(c, st.slots[location].tag) then
        var written := st.slots[location].(value := c, isClear := false);
        Some(FillState(st.slots[location := written], location + 1, true))
      else Some(st)
  }

  /** The insertion loop from input character `i` of the `k` it tries. */
  function FillLoop(st: FillState, input: string, i: nat, k: nat,
                    hasSelection: bool, end: nat): (r: FillState)
    requires i <= k <= |input|
    requires st.next <= |st.slots|
    ensures |r.slots| == |st.slots| && st.next <= r.next <= |st.slots|
    decreases k - i
  {
    if i == k then st
    else
      match FillStep(st, input[i], hasSelection, end)
      case None => st
      case Some(st') => FillLoop(st', input, i + 1, k, hasSelection, end)
  }

  /** Inserting (or replacing a selection with) a non-empty `input` at
      `location`, before the display step. */
  function Insert(s: seq<KCChar>, location: nat, length: nat, input: string): FillState
    requires location <= |s|
  {
    var hasSelection := length > 0 && length < |input|;
    var k := Consumed(length, |input|);
    FillLoop(FillState(s, location, false), input, 0, k, hasSelection, location + k)
  }

  /** Outside [from, r.next) the slots of `r` are those of `s`. */
  predicate Untouched(s: seq<KCChar>, from: nat, r: FillState)
  {
    |r.slots| == |s| && r.next <= |s|
    && forall j :: 0 <= j < |s| && (j < from || j >= r.next) ==> r.slots[j] == s[j]
  }

  /** Inside [from, r.next) every editable slot of `s` is filled in `r` with a
      character its class accepts, and every delimiter is as in `s`. */
  predicate WrittenBetween(s: seq<KCChar>, from: nat, r: FillState)
  {
    |r.slots| == |s| && r.next <= |s|
    && forall j :: from <= j < r.next ==>
         if s[j].IsEditable() then !r.slots[j].isClear && IsValidCharacter(r.slots[j].value, s[j].tag)
         else r.slots[j] == s[j]
  }

  /** What one run of the insertion loop from `st` to `r` does, for the
      selection end `end` when there is a selection. */
  predicate FillFacts(st: FillState, r: FillState, hasSelection: bool, end: nat)
  {
    && SameShape(r.slots, st.slots)
    && st.next <= r.next <= |st.slots|
    && (r.edited <==> st.edited || r.next != st.next)
    && Untouched(st.slots, st.next, r)
    && WrittenBetween(st.slots, st.next, r)
    && (r.next > st.next ==> st.slots[r.next - 1].IsEditable())
    && (hasSelection && st.next <= end ==> r.next <= end)
  }

  /** One iteration, case by case: with no editable slot left, or a
      character the first editable slot rejects, the state is kept; with a
      selection whose end that slot reaches, the loop stops; otherwise the
      character is written there. Any step keeps the frame of FillFacts. */
  lemma StepSpec(st: FillState, c: char, hasSelection: bool, end: nat)
    requires st.next <= |st.slots|
    ensures FillStep(st, c, hasSelection, end).Some? ==>
      var st' := FillStep(st, c, hasSelection, end).value;
      && FillFacts(st, st', hasSelection, end)
      && EditedText(st'.slots[st.next..st'.next]) == (if st'.next > st.next then [c] else [])
    ensures NextEditable(st.slots, st.next).Some? ==>
      var l := NextEditable(st.slots, st.next).value;
      IsValidCharacter(c, st.slots[l].tag) && (hasSelection ==> l < end) ==>
        FillStep(st, c, hasSelection, end)
          == Some(FillState(st.slots[l := st.slots[l].(value := c, isClear := false)], l + 1, true))
    ensures NextEditable(st.slots, st.next).Some? ==>
      var l := NextEditable(st.slots, st.next).value;
      && (!IsValidCharacter(c, st.slots[l].tag) && (hasSelection ==> l < end) ==>
            FillStep(st, c, hasSelection, end) == Some(st))
      && (hasSelection && l >= end ==> FillStep(st, c, hasSelection, end).None?)
    ensures NextEditable(st.slots, st.next).None? ==> FillStep(st, c, hasSelection, end) == Some(st)
  {
    StepFacts(st, c, hasSelection, end);
    StepCases(st, c, hasSelection, end);
  }

  /** Any step keeps the frame of FillFacts and adds at most its character
      to the edited text. */
  lemma StepFacts(st: FillState, c: char, hasSelection: bool, end: nat)
    requires st.next <= |st.slots|
    ensures FillStep(st, c, hasSelection, end).Some? ==>
      var st' := FillStep(st, c, hasSelection, end).value;
      && FillFacts(st, st', hasSelection, end)
      && EditedText(st'.slots[st.next..st'.next]) == (if st'.next > st.next then [c] else [])
  {
    if FillStep(st, c, hasSelection, end).Some? {
      var st' := FillStep(st, c, hasSelection, end).value;
      if st'.next == st.next {
        assert st' == st;
        EmptyEditedText(st.slots, st.next);
      } else {
        StepWrite(st, c, hasSelection, end);
      }
    }
  }

  lemma StepCases(st: FillState, c: char, hasSelection: bool, end: nat)
    requires st.next <= |st.slots|
    ensures NextEditable(st.slots, st.next).Some? ==>
      var l := NextEditable(st.slots, st.next).value;
      IsValidCharacter(c, st.slots[l].tag) && (hasSelection ==> l < end) ==>
        FillStep(st, c, hasSelection, end)
          == Some(FillState(st.slots[l := st.slots[l].(value := c, isClear := false)], l + 1, true))
    ensures NextEditable(st.slots, st.next).Some? ==>
      var l := NextEditable(st.slots, st.next).value;
      && (!IsValidCharacter(c, st.slots[l].tag) && (hasSelection ==> l < end) ==>
            FillStep(st, c, hasSelection, end) == Some(st))
      && (hasSelection && l >= end ==> FillStep(st, c, hasSelection, end).None?)
    ensures NextEditable(st.slots, st.next).None? ==> FillStep(st, c, hasSelection, end) == Some(st)
  {
  }

  /** A step that moves the cursor wrote `c` at the first editable slot. */
  lemma StepWrite(st: FillState, c: char, hasSelection: bool, end: nat)
    requires st.next <= |st.slots|
    requires FillStep(st, c, hasSelection, end).Some?
    requires FillStep(st, c, hasSelection, end).value.next != st.next
    ensures var st' := FillStep(st, c, hasSelection, end).value;
      && NextEditable(st.slots, st.next) == Some(st'.next - 1)
      && st'.slots == st.slots[st'.next - 1 := st.slots[st'.next - 1].(value := c, isClear := false)]
      && IsValidCharacter(c, st.slots[st'.next - 1].tag)
      && FillFacts(st, st', hasSelection, end)
      && EditedText(st'.slots[st.next..st'.next]) == [c]
  {
    var st' := FillStep(st, c, hasSelection, end).value;
    var location := st'.next - 1;
    EditedTextSkipGap(st'.slots, st.next, location, location + 1);
    EmptyEditedText(st'.slots, location + 1);
    assert EditedChars(st'.slots[location]) == [c];
  }

  lemma EmptyEditedText(s: seq<KCChar>, i: nat)
    requires i <= |s|
    ensures EditedText(s[i..i]) == []
  {
    assert s[i..i] == [];
  }

  /** A step from `st` to `st'` followed by a run from `st'` to `r` is a run
      from `st` to `r`. */
  lemma ComposeFacts(st: FillState, st': FillState, r: FillState, hasSelection: bool, end: nat)
    requires FillFacts(st, st', hasSelection, end)
    requires FillFacts(st', r, hasSelection, end)
    ensures FillFacts(st, r, hasSelection, end)
  {
    forall j | st.next <= j < r.next
      ensures if st.slots[j].IsEditable()
              then !r.slots[j].isClear && IsValidCharacter(r.slots[j].value, st.slots[j].tag)
              else r.slots[j] == st.slots[j]
    {
      if j < st'.next {
        assert r.slots[j] == st'.slots[j];
      } else {
        assert st'.slots[j] == st.slots[j];
      }
    }
  }

  lemma ComposeSubsequence(st: FillState, st': FillState, r: FillState, input: string, i: nat, k: nat)
    requires i < k <= |input|
    requires st.next <= st'.next <= r.next <= |r.slots| == |st'.slots|
    requires Untouched(st'.slots, st'.next, r)
    requires EditedText(st'.slots[st.next..st'.next]) == (if st'.next > st.next then [input[i]] else [])
    requires IsSubsequence(EditedText(r.slots[st'.next..r.next]), input[i + 1..k])
    ensures IsSubsequence(EditedText(r.slots[st.next..r.next]), input[i..k])
  {
    SliceSplit(r.slots, st.next, st'.next, r.next);
    SliceAgree(r.slots, st'.slots, st.next, st'.next);
    EditedTextAppend(r.slots[st.next..st'.next], r.slots[st'.next..r.next]);
    SplitFirst(input, i, k);
    assert input[i..k][1..] == input[i + 1..k];
  }

  lemma SplitFirst<T>(s: seq<T>, i: nat, k: nat)
    requires i < k <= |s|
    ensures s[i..k] == [s[i]] + s[i + 1..k]
  {
  }

  lemma SliceSplit<T>(s: seq<T>, lo: nat, mid: nat, hi: nat)
    requires lo <= mid <= hi <= |s|
    ensures s[lo..hi] == s[lo..mid] + s[mid..hi]
  {
  }

  lemma SliceAgree<T>(a: seq<T>, b: seq<T>, lo: nat, hi: nat)
    requires lo <= hi <= |a| && hi <= |b|
    requires forall j :: lo <= j < hi ==> a[j] == b[j]
    ensures a[lo..hi] == b[lo..hi]
  {
  }

  /** The edited text of [lo, hi) when [lo, mid) holds no editable slot. */
  lemma EditedTextSkipGap(t: seq<KCChar>, lo: nat, mid: nat, hi: nat)
    requires lo <= mid < hi <= |t|
    requires forall j :: lo <= j < mid ==> !t[j].IsEditable()
    ensures EditedText(t[lo..hi]) == EditedChars(t[mid]) + EditedText(t[mid + 1..hi])
  {
    var gap := t[lo..mid];
    var tail := t[mid..hi];
    assert t[lo..hi] == gap + tail;
    forall j | 0 <= j < |gap| ensures !gap[j].IsEditable() {
      assert gap[j] == t[lo + j];
    }
    NoEditableNoEditedText(gap);
    EditedTextAppend(gap, tail);
    assert tail[0] == t[mid] && tail[1..] == t[mid + 1..hi];
    assert EditedText(tail) == EditedChars(tail[0]) + EditedText(tail[1..]);
  }

  /** `a` can be obtained from `b` by deleting characters. */
  predicate IsSubsequence(a: string, b: string)
    decreases |b|
  {
    a == [] || (b != [] && ((a[0] == b[0] && IsSubsequence(a[1..], b[1..])) || IsSubsequence(a, b[1..])))
  }

  lemma {:induction false} NoEditableNoEditedText(s: seq<KCChar>)
    requires forall j :: 0 <= j < |s| ==> !s[j].IsEditable()
    ensures EditedText(s) == []
  {
    if s != [] {
      NoEditableNoEditedText(s[1..]);
    }
  }

  /** A run of the insertion loop from input character `i` does what
      FillFacts says. */
  lemma {:induction false} FillLoopFacts(st: FillState, input: string, i: nat, k: nat,
                                         hasSelection: bool, end: nat)
    requires i <= k <= |input|
    requires st.next <= |st.slots|
    ensures FillFacts(st, FillLoop(st, input, i, k, hasSelection, end), hasSelection, end)
    decreases k - i
  {
    if i < k {
      StepFacts(st, input[i], hasSelection, end);
      match FillStep(st, input[i], hasSelection, end)
      case None =>
      case Some(st') =>
        FillLoopFacts(st', input, i + 1, k, hasSelection, end);
        ComposeFacts(st, st', FillLoop(st', input, i + 1, k, hasSelection, end), hasSelection, end);
    }
  }

  /** The characters a run of the insertion loop writes, read in slot order,
      are the input characters it tried with the rejected ones left out. */
  lemma {:induction false} FillLoopSubsequence(st: FillState, input: string, i: nat, k: nat,
                                               hasSelection: bool, end: nat)
    requires i <= k <= |input|
    requires st.next <= |st.slots|
    ensures var r := FillLoop(st, input, i, k, hasSelection, end);
      IsSubsequence(EditedText(r.slots[st.next..r.next]), input[i..k])
    decreases k - i
  {
    if i < k && FillStep(st, input[i], hasSelection, end).Some? {
      var st' := FillStep(st, input[i], hasSelection, end).value;
      FillLoopSubsequence(st', input, i + 1, k, hasSelection, end);
      SubsequenceStep(st, input, i, k, hasSelection, end);
    } else {
      var r := FillLoop(st, input, i, k, hasSelection, end);
      assert r == st;
      EmptyEditedText(r.slots, st.next);
    }
  }

  /** One step of FillLoopSubsequence: a subsequence after the first step
      extends to one before it. */
  lemma SubsequenceStep(st: FillState, input: string, i: nat, k: nat, hasSelection: bool, end: nat)
    requires i < k <= |input|
    requires st.next <= |st.slots|
    requires FillStep(st, input[i], hasSelection, end).Some?
    requires var st' := FillStep(st, input[i], hasSelection, end).value;
      var r := FillLoop(st', input, i + 1, k, hasSelection, end);
      IsSubsequence(EditedText(r.slots[st'.next..r.next]), input[i + 1..k])
    ensures var r := FillLoop(st, input, i, k, hasSelection, end);
      IsSubsequence(EditedText(r.slots[st.next..r.next]), input[i..k])
  {
    var st' := FillStep(st, input[i], hasSelection, end).value;
    var r := FillLoop(st', input, i + 1, k, hasSelection, end);
    assert r == FillLoop(st, input, i, k, hasSelection, end);
    StepFacts(st, input[i], hasSelection, end);
    FillLoopUntouched(st', input, i + 1, k, hasSelection, end);
    ComposeSubsequence(st, st', r, input, i, k);
  }

  /** Insertion writes only editable slots at or after `location`, each with
      a character its class accepts, and leaves every other slot, and every
      format and tag, unchanged. */
  lemma InsertFrame(s: seq<KCChar>, location: nat, length: nat, input: string)
    requires location <= |s|
    ensures var r := Insert(s, location, length, input);
      && SameShape(r.slots, s)
      && location <= r.next <= |s|
      && (forall j :: 0 <= j < |s| && (j < location || j >= r.next) ==> r.slots[j] == s[j])
      && (forall j :: location <= j < r.next ==>
            if s[j].IsEditable() then
              !r.slots[j].isClear && IsValidCharacter(r.slots[j].value, s[j].tag)
            else r.slots[j] == s[j])
  {
    var k := Consumed(length, |input|);
    FillLoopFacts(FillState(s, location, false), input, 0, k, length > 0 && length < |input|, location + k);
  }

  /** Insertion reports an edit exactly when the cursor moved; the cursor
      then sits just after the last written slot, which is editable; with a
      selection shorter than the input nothing at or past the selection's
      end is written. */
  lemma InsertCursor(s: seq<KCChar>, location: nat, length: nat, input: string)
    requires location <= |s|
    ensures var r := Insert(s, location, length, input);
      && location <= r.next <= |s|
      && (r.edited <==> r.next != location)
      && (r.next != location ==> s[r.next - 1].IsEditable())
      && (0 < length < |input| ==> r.next <= location + length)
  {
    var k := Consumed(length, |input|);
    FillLoopFacts(FillState(s, location, false), input, 0, k, length > 0 && length < |input|, location + k);
  }

  /** An insertion that reports no edit wrote nothing and left the cursor
      where it started. */
  lemma InsertUnedited(s: seq<KCChar>, location: nat, length: nat, input: string)
    requires location <= |s|
    requires !Insert(s, location, length, input).edited
    ensures Insert(s, location, length, input).slots == s
    ensures Insert(s, location, length, input).next == location
  {
    InsertFrame(s, location, length, input);
    InsertCursor(s, location, length, input);
  }

  /** The characters an insertion writes, in slot order, are a subsequence
      of the input characters it tries: a selection's length of them when
      the selection is shorter than the input, else all. */
  lemma InsertSubsequence(s: seq<KCChar>, location: nat, length: nat, input: string)
    requires location <= |s|
    ensures var r := Insert(s, location, length, input);
      IsSubsequence(EditedText(r.slots[location..r.next]), input[..Consumed(length, |input|)])
  {
    var k := Consumed(length, |input|);
    var st := FillState(s, location, false);
    FillLoopSubsequence(st, input, 0, k, length > 0 && length < |input|, location + k);
    assert Insert(s, location, length, input) == FillLoop(st, input, 0, k, length > 0 && length < |input|, location + k);
    assert input[0..k] == input[..k];
  }

  /** Insertion keeps the slots well formed. */
  lemma InsertWellFormed(s: seq<KCChar>, location: nat, length: nat, input: string)
    requires location <= |s| && WellFormed(s)
    ensures WellFormed(Insert(s, location, length, input).slots)
  {
    InsertFrame(s, location, length, input);
  }

  /** The tags of the editable slots, in order. */
  function EditableTags(s: seq<KCChar>): (t: string)
    ensures |t| == EditableCount(s)
  {
    if s == [] then [] else (if s[0].IsEditable() then [s[0].tag] else []) + EditableTags(s[1..])
  }

  lemma {:induction false} EditableTagsAppend(a: seq<KCChar>, b: seq<KCChar>)
    ensures EditableTags(a + b) == EditableTags(a) + EditableTags(b)
  {
    if a == [] {
      assert a + b == b;
    } else {
      assert (a + b)[1..] == a[1..] + b;
      EditableTagsAppend(a[1..], b);
    }
  }

  lemma {:induction false} NoEditableTags(s: seq<KCChar>)
    requires forall j :: 0 <= j < |s| ==> !s[j].IsEditable()
    ensures EditableTags(s) == []
  {
    if s != [] {
      NoEditableTags(s[1..]);
    }
  }

  /** `input` has one character per editable slot, each accepted by the class
      of its slot. */
  predicate Fits(input: string, s: seq<KCChar>)
  {
    |input| == EditableCount(s)
    && forall j :: 0 <= j < |input| ==> IsValidCharacter(input[j], EditableTags(s)[j])
  }

  lemma {:induction false} FillLoopFits(st: FillState, input: string, i: nat, k: nat, end: nat)
    requires i <= k <= |input|
    requires st.next <= |st.slots|
    requires Fits(input[i..k], st.slots[st.next..])
    ensures var r := FillLoop(st, input, i, k, false, end);
      && EditedText(r.slots[st.next..]) == input[i..k]
      && forall j :: st.next <= j < |st.slots| && st.slots[j].IsEditable() ==> !r.slots[j].isClear
    decreases k - i
  {
    var s := st.slots;
    match NextEditable(s, st.next)
    case None =>
      NothingToFill(st, input, i, k, end);
    case Some(location) =>
      FitsAdvance(st, input, i, k, end, location);
      var st' := FillState(s[location := s[location].(value := input[i], isClear := false)], location + 1, true);
      FillLoopFits(st', input, i + 1, k, end);
      FitsStep(st, input, i, k, end, location);
  }

  /** With a fitting input the first step writes the first character into the
      first editable slot, and the rest of the input fits the rest. */
  lemma FitsAdvance(st: FillState, input: string, i: nat, k: nat, end: nat, location: nat)
    requires i <= k <= |input|
    requires st.next <= |st.slots|
    requires Fits(input[i..k], st.slots[st.next..])
    requires NextEditable(st.slots, st.next) == Some(location)
    ensures i < k
    ensures var s := st.slots;
      var st' := FillState(s[location := s[location].(value := input[i], isClear := false)], location + 1, true);
      && FillLoop(st, input, i, k, false, end) == FillLoop(st', input, i + 1, k, false, end)
      && Fits(input[i + 1..k], st'.slots[st'.next..])
  {
    var s := st.slots;
    TagsSkipGap(s, st.next, location);
    assert i < k;
    FitsHead(input[i..k], s[st.next..], s[location].tag);
    assert input[i..k][0] == input[i];
    var written := s[location].(value := input[i], isClear := false);
    var st' := FillState(s[location := written], location + 1, true);
    StepAccepts(st, input[i], end, location);
    SuffixAfterWrite(s, location, written);
    FitsTail(input[i..k], s[st.next..], st'.slots[st'.next..]);
    SplitFirst(input, i, k);
    assert input[i..k][1..] == input[i + 1..k];
  }

  /** One step of FillLoopFits: the filled run after the first write extends
      to the whole run. */
  lemma FitsStep(st: FillState, input: string, i: nat, k: nat, end: nat, location: nat)
    requires i <= k <= |input|
    requires st.next <= |st.slots|
    requires Fits(input[i..k], st.slots[st.next..])
    requires NextEditable(st.slots, st.next) == Some(location)
    requires i < k
    requires var s := st.slots;
      var st' := FillState(s[location := s[location].(value := input[i], isClear := false)], location + 1, true);
      var r := FillLoop(st', input, i + 1, k, false, end);
      && EditedText(r.slots[st'.next..]) == input[i + 1..k]
      && forall j :: st'.next <= j < |s| && st'.slots[j].IsEditable() ==> !r.slots[j].isClear
    ensures var r := FillLoop(st, input, i, k, false, end);
      && EditedText(r.slots[st.next..]) == input[i..k]
      && forall j :: st.next <= j < |st.slots| && st.slots[j].IsEditable() ==> !r.slots[j].isClear
  {
    var s := st.slots;
    FitsAdvance(st, input, i, k, end, location);
    var st' := FillState(s[location := s[location].(value := input[i], isClear := false)], location + 1, true);
    var r := FillLoop(st', input, i + 1, k, false, end);
    FillLoopUntouched(st', input, i + 1, k, false, end);
    FitsCompose(s, r.slots, st.next, location, input[i], input[i + 1..k]);
    SplitFirst(input, i, k);
  }

  /** With no editable slot left the loop writes nothing, and only an empty
      input fits. */
  lemma NothingToFill(st: FillState, input: string, i: nat, k: nat, end: nat)
    requires i <= k <= |input|
    requires st.next <= |st.slots|
    requires NextEditable(st.slots, st.next).None?
    requires Fits(input[i..k], st.slots[st.next..])
    ensures var r := FillLoop(st, input, i, k, false, end);
      && EditedText(r.slots[st.next..]) == input[i..k]
      && forall j :: st.next <= j < |st.slots| && st.slots[j].IsEditable() ==> !r.slots[j].isClear
  {
    var s := st.slots;
    assert forall j :: 0 <= j < |s[st.next..]| ==> s[st.next..][j] == s[st.next + j];
    NoEditableTags(s[st.next..]);
    assert i == k;
    NoEditableNoEditedText(s[st.next..]);
  }

  /** The first character of a fit is accepted by the first editable tag. */
  lemma FitsHead(input: string, s: seq<KCChar>, tag: char)
    requires Fits(input, s) && |input| > 0
    requires EditableTags(s)[0] == tag
    ensures IsValidCharacter(input[0], tag)
  {
  }

  /** A step without a selection whose character is accepted writes it at
      the next editable slot. */
  lemma StepAccepts(st: FillState, c: char, end: nat, location: nat)
    requires st.next <= |st.slots|
    requires NextEditable(st.slots, st.next) == Some(location)
    requires IsValidCharacter(c, st.slots[location].tag)
    ensures FillStep(st, c, false, end)
      == Some(FillState(st.slots[location := st.slots[location].(value := c, isClear := false)], location + 1, true))
  {
  }

  lemma SuffixAfterWrite(s: seq<KCChar>, location: nat, written: KCChar)
    requires location < |s|
    ensures s[location := written][location + 1..] == s[location + 1..]
  {
  }

  /** A run keeps the slots outside the span it wrote. */
  lemma FillLoopUntouched(st: FillState, input: string, i: nat, k: nat, hasSelection: bool, end: nat)
    requires i <= k <= |input|
    requires st.next <= |st.slots|
    ensures Untouched(st.slots, st.next, FillLoop(st, input, i, k, hasSelection, end))
  {
    FillLoopFacts(st, input, i, k, hasSelection, end);
  }

  /** Gluing a filled first editable slot onto the edited text after it. */
  lemma FitsCompose(s: seq<KCChar>, r: seq<KCChar>, from: nat, location: nat, c: char, rest: string)
    requires from <= location < |s| == |r|
    requires s[location].IsEditable()
    requires forall j :: from <= j < location ==> !s[j].IsEditable()
    requires forall j :: 0 <= j < |s| && j < location + 1 ==>
               r[j] == s[location := s[location].(value := c, isClear := false)][j]
    requires EditedText(r[location + 1..]) == rest
    requires forall j :: location + 1 <= j < |s| && s[j].IsEditable() ==> !r[j].isClear
    ensures EditedText(r[from..]) == [c] + rest
    ensures forall j :: from <= j < |s| && s[j].IsEditable() ==> !r[j].isClear
  {
    assert forall j :: from <= j < location ==> r[j] == s[j];
    EditedTextSkipGap(r, from, location, |r|);
    assert r[from..|r|] == r[from..];
    assert r[location + 1..|r|] == r[location + 1..];
  }

  /** The editable tags of s[lo..] when [lo, mid) holds no editable slot and
      slot `mid` is editable. */
  lemma TagsSkipGap(s: seq<KCChar>, lo: nat, mid: nat)
    requires lo <= mid < |s|
    requires s[mid].IsEditable()
    requires forall j :: lo <= j < mid ==> !s[j].IsEditable()
    ensures EditableTags(s[lo..]) == [s[mid].tag] + EditableTags(s[mid + 1..])
  {
    var gap := s[lo..mid];
    forall j | 0 <= j < |gap| ensures !gap[j].IsEditable() {
      assert gap[j] == s[lo + j];
    }
    NoEditableTags(gap);
    assert s[lo..] == gap + s[mid..];
    EditableTagsAppend(gap, s[mid..]);
    assert s[mid..][1..] == s[mid + 1..];
  }

  /** Dropping the first character and the first editable tag keeps a fit. */
  lemma FitsTail(input: string, s: seq<KCChar>, rest: seq<KCChar>)
    requires Fits(input, s) && |input| > 0
    requires EditableTags(s) == [EditableTags(s)[0]] + EditableTags(rest)
    ensures Fits(input[1..], rest)
  {
    forall j | 0 <= j < |input[1..]|
      ensures IsValidCharacter(input[1..][j], EditableTags(rest)[j])
    {
      assert input[1..][j] == input[j + 1];
      assert EditableTags(rest)[j] == EditableTags(s)[j + 1];
    }
  }

  /** Typing into an empty selection at the start, one character per
      editable slot with each accepted by its slot, fills the field:
      the edited text is the input and the status is complete. */
  lemma InsertRoundTrip(s: seq<KCChar>, input: string)
    requires Fits(input, s)
    ensures EditedText(Insert(s, 0, 0, input).slots) == input
    ensures Status(Insert(s, 0, 0, input).slots) == Complete
  {
    var st := FillState(s, 0, false);
    assert s[0..] == s;
    assert input[0..|input|] == input;
    FillLoopFits(st, input, 0, |input|, |input|);
    FillLoopFacts(st, input, 0, |input|, false, |input|);
    var r := Insert(s, 0, 0, input);
    assert r.slots[0..] == r.slots;
    assert AllFilled(r.slots);
    StatusMeaning(r.slots);
  }

  lemma {:induction false} FillLoopShift(st: FillState, input: string, i: nat, k: nat, end1: nat, end2: nat)
    requires i < k <= |input|
    requires st.next <= |st.slots|
    ensures FillLoop(st, input, i + 1, k, false, end1) == FillLoop(st, input[1..], i, k - 1, false, end2)
    decreases k - i
  {
    if i + 1 < k {
      assert input[1..][i] == input[i + 1];
      assert FillStep(st, input[i + 1], false, end1) == FillStep(st, input[i + 1], false, end2);
      match FillStep(st, input[i + 1], false, end1)
      case None =>
      case Some(st') =>
        FillLoopShift(st', input, i + 1, k, end1, end2);
    }
  }

  /** A character the target slot rejects is simply dropped: typing it
      followed by more text is the same as typing only the rest. */
  lemma RejectedCharacterIsSkipped(s: seq<KCChar>, location: nat, input: string)
    requires location <= |s| && |input| > 0
    requires NextEditable(s, location).Some?
    requires !IsValidCharacter(input[0], s[NextEditable(s, location).value].tag)
    ensures Insert(s, location, 0, input) == Insert(s, location, 0, input[1..])
  {
    FillLoopShift(FillState(s, location, false), input, 0, |input|, location + |input|, location + |input| - 1);
  }

  /** Whether anything was written before a run changes only the edited
      flag the run ends with. */
  lemma {:induction false} FillLoopEdited(st: FillState, input: string, i: nat, k: nat,
                                          hasSelection: bool, end: nat)
    requires i <= k <= |input|
    requires st.next <= |st.slots|
    ensures FillLoop(st.(edited := true), input, i, k, hasSelection, end)
         == FillLoop(st, input, i, k, hasSelection, end).(edited := true)
    decreases k - i
  {
    if i < k {
      match FillStep(st, input[i], hasSelection, end)
      case None =>
        assert FillStep(st.(edited := true), input[i], hasSelection, end).None?;
      case Some(st') =>
        assert FillStep(st.(edited := true), input[i], hasSelection, end) == Some(st'.(edited := true));
        FillLoopEdited(st', input, i + 1, k, hasSelection, end);
    }
  }

  /** A character the target slot accepts is written there: typing it
      followed by more text is writing it and then typing the rest from the
      next slot on. */
  lemma AcceptedCharacterIsWritten(s: seq<KCChar>, location: nat, input: string, l: nat)
    requires location <= |s| && |input| > 0
    requires NextEditable(s, location) == Some(l)
    requires IsValidCharacter(input[0], s[l].tag)
    ensures Insert(s, location, 0, input)
         == Insert(s[l := s[l].(value := input[0], isClear := false)], l + 1, 0, input[1..]).(edited := true)
  {
    var s' := s[l := s[l].(value := input[0], isClear := false)];
    var st := FillState(s, location, false);
    var st0 := FillState(s', l + 1, false);
    var st' := st0.(edited := true);
    var end1 := location + |input|;
    var end2 := l + |input|;
    assert Consumed(0, |input|) == |input| && Consumed(0, |input| - 1) == |input| - 1;
    StepAccepts(st, input[0], end1, l);
    assert Insert(s, location, 0, input) == FillLoop(st, input, 0, |input|, false, end1);
    assert FillLoop(st, input, 0, |input|, false, end1) == FillLoop(st', input, 1, |input|, false, end1);
    FillLoopShift(st', input, 0, |input|, end1, end2);
    FillLoopEdited(st0, input[1..], 0, |input| - 1, false, end2);
    assert Insert(s', l + 1, 0, input[1..]) == FillLoop(st0, input[1..], 0, |input| - 1, false, end2);
  }

  /** With or without a selection, a first input character that the first
      editable slot at the location accepts is written there and stays, as
      long as that slot lies inside a selection shorter than the input: the
      insertion reports an edit and the cursor lies past that slot. */
  lemma FirstAcceptedIsWritten(s: seq<KCChar>, location: nat, length: nat, input: string, l: nat)
    requires location <= |s| && |input| > 0
    requires NextEditable(s, location) == Some(l)
    requires IsValidCharacter(input[0], s[l].tag)
    requires 0 < length < |input| ==> l < location + length
    ensures var r := Insert(s, location, length, input);
      && r.edited && l < r.next
      && r.slots[l] == s[l].(value := input[0], isClear := false)
  {
    var hasSelection := length > 0 && length < |input|;
    var k := Consumed(length, |input|);
    var st := FillState(s, location, false);
    var st' := FillState(s[l := s[l].(value := input[0], isClear := false)], l + 1, true);
    assert FillStep(st, input[0], hasSelection, location + k) == Some(st');
    FillLoopFacts(st', input, 1, k, hasSelection, location + k);
  }

  // ---------------------------------------------------------------------
  // Insertion over a selection

  /** The loop reads no input character at or past `k`. */
  lemma {:induction false} FillLoopPrefix(st: FillState, input: string, i: nat, k: nat,
                                          hasSelection: bool, end: nat)
    requires i <= k <= |input|
    requires st.next <= |st.slots|
    ensures FillLoop(st, input, i, k, hasSelection, end) == FillLoop(st, input[..k], i, k, hasSelection, end)
    decreases k - i
  {
    if i < k {
      assert input[..k][i] == input[i];
      match FillStep(st, input[i], hasSelection, end)
      case None =>
      case Some(st') =>
        FillLoopPrefix(st', input, i + 1, k, hasSelection, end);
    }
  }

  /** A selection end at or past the last slot is never reached. */
  lemma {:induction false} SelectionPastEnd(st: FillState, input: string, i: nat, k: nat, end: nat)
    requires i <= k <= |input|
    requires st.next <= |st.slots| <= end
    ensures FillLoop(st, input, i, k, true, end) == FillLoop(st, input, i, k, false, end)
    decreases k - i
  {
    if i < k {
      assert FillStep(st, input[i], true, end) == FillStep(st, input[i], false, end);
      match FillStep(st, input[i], false, end)
      case None =>
      case Some(st') =>
        SelectionPastEnd(st', input, i + 1, k, end);
    }
  }

  /** With no editable slot left the loop changes nothing. */
  lemma {:induction false} NothingLeft(st: FillState, input: string, i: nat, k: nat, end: nat)
    requires i <= k <= |input|
    requires st.next <= |st.slots|
    requires NextEditable(st.slots, st.next).None?
    ensures FillLoop(st, input, i, k, false, end) == st
    decreases k - i
  {
    if i < k {
      assert FillStep(st, input[i], false, end) == Some(st);
      NothingLeft(st, input, i + 1, k, end);
    }
  }

  /** The first editable slot of the slots cut at `end`. */
  lemma NextEditableCut(s: seq<KCChar>, from: nat, end: nat)
    requires from <= end <= |s|
    ensures NextEditable(s[..end], from)
         == match NextEditable(s, from)
            case Some(l) => if l < end then Some(l) else None
            case None => None
  {
    assert forall j :: from <= j < end ==> s[..end][j] == s[j];
  }

  /** The loop state with its slots cut at `end`. */
  function Cut(st: FillState, end: nat): FillState
    requires st.next <= end <= |st.slots|
  {
    FillState(st.slots[..end], st.next, st.edited)
  }

  /** With a selection that ends at `end` inside the field, the loop runs as
      a loop without a selection on the slots before `end`, and the slots
      from `end` on are left alone. */
  lemma {:induction false} SelectionCut(st: FillState, input: string, i: nat, k: nat, end: nat)
    requires i <= k <= |input|
    requires st.next <= end <= |st.slots|
    ensures var t := FillLoop(Cut(st, end), input, i, k, false, end);
      FillLoop(st, input, i, k, true, end) == FillState(t.slots + st.slots[end..], t.next, t.edited)
    decreases k - i
  {
    var c := Cut(st, end);
    assert st.slots == c.slots + st.slots[end..];
    if i < k {
      NextEditableCut(st.slots, st.next, end);
      match NextEditable(st.slots, st.next)
      case None =>
        assert FillStep(st, input[i], true, end) == Some(st);
        assert FillStep(c, input[i], false, end) == Some(c);
        SelectionCut(st, input, i + 1, k, end);
      case Some(l) =>
        if l >= end {
          assert FillStep(st, input[i], true, end).None?;
          NothingLeft(c, input, i, k, end);
        } else if IsValidCharacter(input[i], st.slots[l].tag) {
          var w := st.slots[l].(value := input[i], isClear := false);
          var st' := FillState(st.slots[l := w], l + 1, true);
          assert FillStep(st, input[i], true, end) == Some(st');
          assert st.slots[l := w][..end] == c.slots[l := w];
          assert st.slots[l := w][end..] == st.slots[end..];
          assert FillStep(c, input[i], false, end) == Some(Cut(st', end));
          SelectionCut(st', input, i + 1, k, end);
        } else {
          assert FillStep(st, input[i], true, end) == Some(st);
          assert FillStep(c, input[i], false, end) == Some(c);
          SelectionCut(st, input, i + 1, k, end);
        }
    }
  }

  /** Typing over a selection at least as long as the input is typing with
      no selection. */
  lemma LongSelectionIsPlainInsert(s: seq<KCChar>, location: nat, length: nat, input: string)
    requires location <= |s| && length >= |input|
    ensures Insert(s, location, length, input) == Insert(s, location, 0, input)
  {
  }

  /** Typing over a selection shorter than the input tries the selection's
      length of input characters. Inside the field this is typing them with
      no selection into the slots before the selection's end, the slots from
      there on kept; a selection running past the last slot never stops the
      loop, so it is typing them with no selection. */
  lemma ShortSelectionIsCutInsert(s: seq<KCChar>, location: nat, length: nat, input: string)
    requires location <= |s| && 0 < length < |input|
    ensures location + length <= |s| ==>
      var t := Insert(s[..location + length], location, 0, input[..length]);
      Insert(s, location, length, input) == FillState(t.slots + s[location + length..], t.next, t.edited)
    ensures location + length > |s| ==>
      Insert(s, location, length, input) == Insert(s, location, 0, input[..length])
  {
    var end := location + length;
    var st := FillState(s, location, false);
    assert Consumed(length, |input|) == length && Consumed(0, |input[..length]|) == length;
    assert Insert(s, location, length, input) == FillLoop(st, input, 0, length, true, end);
    if end <= |s| {
      SelectionCut(st, input, 0, length, end);
      FillLoopPrefix(Cut(st, end), input, 0, length, false, end);
      assert Insert(s[..end], location, 0, input[..length])
          == FillLoop(Cut(st, end), input[..length], 0, length, false, end);
    } else {
      SelectionPastEnd(st, input, 0, length, end);
      FillLoopPrefix(st, input, 0, length, false, end);
      assert Insert(s, location, 0, input[..length]) == FillLoop(st, input[..length], 0, length, false, end);
    }
  }

  // ---------------------------------------------------------------------
  // Deletion

  /** The loop state of a deletion: the slots and whether a filled slot was
      cleared. */
  datatype ClearState = ClearState(slots: seq<KCChar>, edited: bool)

  /** The deletion loop from slot `i` up to `end`: an editable slot gets its
      format character back, and one that was filled becomes cleared and
      counts as an edit. */
  function ClearLoop(s: seq<KCChar>, i: nat, end: nat, edited: bool): ClearState
    requires i <= end <= |s|
    decreases end - i
  {
    if i == end then ClearState(s, edited)
    else if s[i].IsEditable() then
      var reset := s[i].(value := s[i].format);
      if !s[i].isClear then ClearLoop(s[i := reset.(isClear := true)], i + 1, end, true)
      else ClearLoop(s[i := reset], i + 1, end, edited)
    else ClearLoop(s, i + 1, end, edited)
  }

  lemma {:induction false} ClearLoopSpec(s: seq<KCChar>, i: nat, end: nat, edited: bool)
    requires i <= end <= |s|
    ensures var r := ClearLoop(s, i, end, edited);
      && |r.slots| == |s|
      && (forall j :: 0 <= j < |s| ==>
            r.slots[j] == if i <= j < end && s[j].IsEditable()
                          then s[j].(value := s[j].format, isClear := true) else s[j])
      && (r.edited <==> edited || exists j :: i <= j < end && s[j].IsEditable() && !s[j].isClear)
    decreases end - i
  {
    if i < end {
      if s[i].IsEditable() {
        var reset := s[i].(value := s[i].format);
        if !s[i].isClear {
          ClearLoopSpec(s[i := reset.(isClear := true)], i + 1, end, true);
        } else {
          ClearLoopSpec(s[i := reset], i + 1, end, edited);
        }
      } else {
        ClearLoopSpec(s, i + 1, end, edited);
      }
    }
  }

  /** Deleting [lo, hi) clears every editable slot in the range back to its
      format character and leaves every other slot unchanged; it reports an
      edit exactly when some slot in the range was filled. */
  lemma DeleteSpec(s: seq<KCChar>, lo: nat, hi: nat)
    requires lo <= hi <= |s|
    ensures var r := ClearLoop(s, lo, hi, false);
      && SameShape(r.slots, s)
      && (forall j :: lo <= j < hi && s[j].IsEditable() ==>
            r.slots[j].isClear && r.slots[j].value == s[j].format)
      && (forall j :: 0 <= j < |s| && !(lo <= j < hi && s[j].IsEditable()) ==> r.slots[j] == s[j])
      && (r.edited <==> exists j :: lo <= j < hi && s[j].IsEditable() && !s[j].isClear)
  {
    ClearLoopSpec(s, lo, hi, false);
  }

  /** Where the cursor goes after a deletion at `location`: just after the
      nearest editable slot before it, else the first editable slot at or
      after it, else `location` itself. */
  function DeleteCursor(s: seq<KCChar>, location: nat): (p: nat)
    requires location < |s|
    ensures p <= |s|
    ensures (exists j :: 0 <= j < location && s[j].IsEditable()) ==>
              0 < p <= location && s[p - 1].IsEditable()
              && forall j :: p <= j < location ==> !s[j].IsEditable()
    ensures (forall j :: 0 <= j < location ==> !s[j].IsEditable()) ==>
              location <= p && forall j :: location <= j < p && j < |s| ==> !s[j].IsEditable()
    ensures (forall j :: 0 <= j < location ==> !s[j].IsEditable())
            && (exists j :: location <= j < |s| && s[j].IsEditable()) ==>
              p < |s| && s[p].IsEditable()
    ensures (forall j :: 0 <= j < |s| ==> !s[j].IsEditable()) ==> p == location
  {
    match PrevEditable(s, location - 1)
    case Some(i) => i + 1
    case None =>
      match NextEditable(s, location)
      case Some(i) => i
      case None => location
  }

  // ---------------------------------------------------------------------
  // Display

  /** A filled editable slot takes the case directive of its position; every
      other slot is shown as it is. */
  function RenderSlot(ch: KCChar, index: nat, caseString: string): KCChar
  {
    if ch.IsEditable() && !ch.isClear
    then ch.(value := CaseTransform(ch.value, CaseDirective(caseString, index)))
    else ch
  }

  /** The slots after the display step has written back the case transform. */
  function Rendered(s: seq<KCChar>, caseString: string): seq<KCChar>
  {
    seq(|s|, i requires 0 <= i < |s| => RenderSlot(s[i], i, caseString))
  }

  /** One painted character and the colour role it is painted with. */
  datatype Cell = Cell(ch: char, role: ColorRole)

  /** The painted cells of the slots. */
  function Cells(s: seq<KCChar>): (cells: seq<Cell>)
    ensures |cells| == |s|
  {
    seq(|s|, i requires 0 <= i < |s| => Cell(s[i].value, RoleOf(s[i])))
  }

  /** The characters painted in the editable colour, in order. */
  function EditableCellText(cells: seq<Cell>): string
  {
    if cells == [] then []
    else (if cells[0].role == EditableColor then [cells[0].ch] else []) + EditableCellText(cells[1..])
  }

  /** The characters painted in the editable colour spell the edited text. */
  lemma {:induction false} PaintedEditedText(s: seq<KCChar>)
    ensures EditableCellText(Cells(s)) == EditedText(s)
  {
    if s != [] {
      assert Cells(s)[1..] == Cells(s[1..]);
      PaintedEditedText(s[1..]);
    }
  }

  /** The case string at work: a one-character case string applies to every
      slot, a longer one is read position by position, and slots past its
      end are left alone. A directive `A` leaves a filled slot with no
      lower-case letter and `a` with no upper-case letter, keeping the same
      letter each time; any other directive, a cleared slot and a delimiter
      are shown unchanged. */
  lemma CaseStringEffect(s: seq<KCChar>, caseString: string)
    ensures var r := Rendered(s, caseString);
      forall j | 0 <= j < |s| && EditedChars(s[j]) != []
                 && (caseString == "A" || (|caseString| > 1 && j < |caseString| && caseString[j] == 'A')) ::
          !('a' <= r[j].value <= 'z') && ToLower(r[j].value) == ToLower(s[j].value)
    ensures var r := Rendered(s, caseString);
      forall j | 0 <= j < |s| && EditedChars(s[j]) != []
                 && (caseString == "a" || (|caseString| > 1 && j < |caseString| && caseString[j] == 'a')) ::
          !('A' <= r[j].value <= 'Z') && ToUpper(r[j].value) == ToUpper(s[j].value)
    ensures var r := Rendered(s, caseString);
      forall j | 0 <= j < |s|
                 && (|| EditedChars(s[j]) == []
                     || (|caseString| == 1 && caseString[0] != 'a' && caseString[0] != 'A')
                     || (|caseString| != 1 && (j >= |caseString| || (caseString[j] != 'a' && caseString[j] != 'A')))) ::
          r[j] == s[j]
  {
  }

  /** The display step changes only the values of filled editable slots, and
      only by the case directive of their position; without a case string it
      changes nothing at all. */
  lemma RenderedFrame(s: seq<KCChar>, caseString: string)
    ensures var r := Rendered(s, caseString);
      && SameShape(r, s)
      && (forall j :: 0 <= j < |s| ==> r[j].isClear == s[j].isClear)
      && (forall j :: 0 <= j < |s| && (s[j].isClear || !s[j].IsEditable()) ==> r[j] == s[j])
      && (caseString == [] ==> r == s)
      && (WellFormed(s) ==> WellFormed(r))
  {
  }

  /** Doing the display step again changes nothing. */
  lemma RenderedIdempotent(s: seq<KCChar>, caseString: string)
    ensures Rendered(Rendered(s, caseString), caseString) == Rendered(s, caseString)
  {
    var r := Rendered(s, caseString);
    forall j | 0 <= j < |s| ensures RenderSlot(r[j], j, caseString) == r[j] {
      CaseTransformIdempotent(s[j].value, CaseDirective(caseString, j));
    }
  }

  /** The display step changes neither the status nor how many characters
      the edited text has. */
  lemma RenderedStatus(s: seq<KCChar>, caseString: string)
    ensures Status(Rendered(s, caseString)) == Status(s)
    ensures |EditedText(Rendered(s, caseString))| == |EditedText(s)|
  {
    StatusSameFills(Rendered(s, caseString), s);
  }

  /** Status and the emptiness of the edited text depend only on which slots
      are editable and which are filled. */
  lemma {:induction false} StatusSameFills(a: seq<KCChar>, b: seq<KCChar>)
    requires |a| == |b|
    requires forall j :: 0 <= j < |a| ==> a[j].IsEditable() == b[j].IsEditable() && a[j].isClear == b[j].isClear
    ensures EditableCount(a) == EditableCount(b) && FilledCount(a) == FilledCount(b)
  {
    if a != [] {
      StatusSameFills(a[1..], b[1..]);
    }
  }

  // ---------------------------------------------------------------------
  // Clearing the text

  /** A filled slot gets its format character back and becomes cleared; a
      cleared slot is left alone. */
  function ClearSlot(ch: KCChar): KCChar
  {
    if !ch.isClear then ch.(value := ch.format, isClear := true) else ch
  }

  /** Every slot cleared back to its format character, formats and tags
      kept. */
  function Cleared(s: seq<KCChar>): (r: seq<KCChar>)
    ensures |r| == |s| && SameShape(r, s) && NoneFilled(r)
    ensures forall j :: 0 <= j < |s| ==>
              r[j].isClear && (s[j].isClear ==> r[j] == s[j]) && (!s[j].isClear ==> r[j].value == s[j].format)
    ensures WellFormed(s) ==> WellFormed(r)
  {
    seq(|s|, i requires 0 <= i < |s| => ClearSlot(s[i]))
  }

  /** Clearing well-formed slots shaped by a format and a mask gives back
      exactly the slots that format and mask build, so the raw text is the
      format string and nothing is edited. */
  lemma ClearedIsFresh(s: seq<KCChar>, format: string, mask: string)
    requires ShapedBy(s, format, mask) && WellFormed(s)
    ensures Cleared(s) == NewSlots(format, mask)
  {
  }

  /** Clearing twice is clearing once, and cleared slots are left alone by
      the display step. */
  lemma ClearedIdempotent(s: seq<KCChar>, caseString: string)
    ensures Cleared(Cleared(s)) == Cleared(s)
    ensures Rendered(Cleared(s), caseString) == Cleared(s)
  {
  }

  // ---------------------------------------------------------------------
  // One edit of the field

  /** The slots, the cursor and the edited flag an edit leaves behind. */
  datatype EditResult = EditResult(slots: seq<KCChar>, cursor: nat, edited: bool)

  /** Replacing `length` slots at `location` by `input`: a non-empty input
      is inserted, and the display step runs only if something was written;
      an empty input deletes the range, and the display step always runs. */
  function ApplyEdit(s: seq<KCChar>, caseString: string, location: nat, length: nat,
                     input: string): EditResult
    requires location < |s|
    requires input == [] ==> location + length <= |s|
  {
    if |input| > 0 then
      var r := Insert(s, location, length, input);
      if r.edited then EditResult(Rendered(r.slots, caseString), r.next, true)
      else EditResult(s, location, false)
    else
      var r := ClearLoop(s, location, location + length, false);
      EditResult(Rendered(r.slots, caseString), DeleteCursor(s, location), r.edited)
  }

  /** An edit keeps every format and tag and keeps the slots well formed; the
      cursor stays within the field. An insertion that writes nothing changes
      nothing and leaves the cursor at `location`; one that writes leaves the
      cursor just after an editable slot. A deletion reports an edit exactly
      when it cleared a filled slot. */
  lemma ApplyEditSpec(s: seq<KCChar>, caseString: string, location: nat, length: nat, input: string)
    requires location < |s|
    requires input == [] ==> location + length <= |s|
    requires WellFormed(s)
    ensures var e := ApplyEdit(s, caseString, location, length, input);
      && SameShape(e.slots, s)
      && WellFormed(e.slots)
      && e.cursor <= |s|
      && (|input| > 0 && !e.edited ==> e.slots == s && e.cursor == location)
      && (|input| > 0 && e.edited ==> location < e.cursor && s[e.cursor - 1].IsEditable())
      && (|input| == 0 ==> (e.edited <==> exists j :: location <= j < location + length
                                                 && s[j].IsEditable() && !s[j].isClear))
  {
    if |input| > 0 {
      InsertEditFacts(s, caseString, location, length, input);
    } else {
      DeleteEditFacts(s, caseString, location, length);
    }
  }

  lemma InsertEditFacts(s: seq<KCChar>, caseString: string, location: nat, length: nat, input: string)
    requires location < |s| && |input| > 0 && WellFormed(s)
    ensures var e := ApplyEdit(s, caseString, location, length, input);
      && SameShape(e.slots, s) && WellFormed(e.slots) && e.cursor <= |s|
      && (!e.edited ==> e.slots == s && e.cursor == location)
      && (e.edited ==> location < e.cursor && s[e.cursor - 1].IsEditable())
  {
    InsertFrame(s, location, length, input);
    InsertCursor(s, location, length, input);
    InsertWellFormed(s, location, length, input);
    var r := Insert(s, location, length, input);
    RenderedFrame(r.slots, caseString);
  }

  lemma DeleteEditFacts(s: seq<KCChar>, caseString: string, location: nat, length: nat)
    requires location + length <= |s| && location < |s| && WellFormed(s)
    ensures var e := ApplyEdit(s, caseString, location, length, []);
      && SameShape(e.slots, s) && WellFormed(e.slots) && e.cursor <= |s|
      && (e.edited <==> exists j :: location <= j < location + length && s[j].IsEditable() && !s[j].isClear)
  {
    DeleteSpec(s, location, location + length);
    var r := ClearLoop(s, location, location + length, false);
    RenderedFrame(r.slots, caseString);
  }

  /** What an insertion that reports an edit leaves behind: outside the
      written span every slot is only redisplayed; inside it every editable
      slot is filled and every delimiter is kept; without a case string the
      written characters are a subsequence of the input characters tried.
      When the first editable slot at the location accepts the first input
      character (and lies inside a selection shorter than the input), that
      character is written there, in the case its position asks for. */
  lemma ApplyEditInsertion(s: seq<KCChar>, caseString: string, location: nat, length: nat, input: string)
    requires location < |s| && |input| > 0
    ensures var e := ApplyEdit(s, caseString, location, length, input);
      && (e.edited ==> location <= e.cursor <= |s| && |e.slots| == |s|)
      && (e.edited ==> forall j :: 0 <= j < |s| && (j < location || j >= e.cursor) ==>
                         e.slots[j] == RenderSlot(s[j], j, caseString))
      && (e.edited ==> forall j :: location <= j < e.cursor ==>
                         if s[j].IsEditable() then !e.slots[j].isClear else e.slots[j] == s[j])
      && (e.edited && caseString == [] ==>
            IsSubsequence(EditedText(e.slots[location..e.cursor]), input[..Consumed(length, |input|)]))
      && (NextEditable(s, location).Some? ==>
            var l := NextEditable(s, location).value;
            IsValidCharacter(input[0], s[l].tag) && (0 < length < |input| ==> l < location + length) ==>
              && e.edited && l < e.cursor
              && e.slots[l] == s[l].(value := CaseTransform(input[0], CaseDirective(caseString, l)), isClear := false))
  {
    var r := Insert(s, location, length, input);
    InsertFrame(s, location, length, input);
    InsertCursor(s, location, length, input);
    InsertSubsequence(s, location, length, input);
    RenderedFrame(r.slots, caseString);
    if NextEditable(s, location).Some? {
      var l := NextEditable(s, location).value;
      if IsValidCharacter(input[0], s[l].tag) && (0 < length < |input| ==> l < location + length) {
        FirstAcceptedIsWritten(s, location, length, input, l);
      }
    }
  }

  /** An edit over a selection reduces to an edit without one. A selection at
      least as long as the input is ignored. One shorter than the input lets
      its length of input characters be typed: inside the field into the
      slots before its end, whose edit it then is, the slots from there on
      being only redisplayed; running past the last slot, into the whole
      field. */
  lemma ApplyEditSelection(s: seq<KCChar>, caseString: string, location: nat, length: nat, input: string)
    requires location < |s| && |input| > 0
    ensures length >= |input| ==>
      ApplyEdit(s, caseString, location, length, input) == ApplyEdit(s, caseString, location, 0, input)
    ensures 0 < length < |input| && location + length > |s| ==>
      ApplyEdit(s, caseString, location, length, input) == ApplyEdit(s, caseString, location, 0, input[..length])
    ensures 0 < length < |input| && location + length <= |s| ==>
      var e := ApplyEdit(s, caseString, location, length, input);
      var t := ApplyEdit(s[..location + length], caseString, location, 0, input[..length]);
      && e.edited == t.edited && e.cursor == t.cursor
      && e.slots == t.slots + (if t.edited then Rendered(s, caseString)[location + length..] else s[location + length..])
  {
    if length >= |input| {
      LongSelectionIsPlainInsert(s, location, length, input);
    } else if 0 < length {
      ShortSelectionIsCutInsert(s, location, length, input);
      var end := location + length;
      if end <= |s| {
        var r := Insert(s[..end], location, 0, input[..length]);
        RenderedAppend(r.slots, s[end..], s, caseString);
        assert s == s[..end] + s[end..];
      }
    }
  }

  /** The display step renders each slot by its own position, so it can be
      done on a prefix and on the rest separately. */
  lemma RenderedAppend(a: seq<KCChar>, b: seq<KCChar>, s: seq<KCChar>, caseString: string)
    requires |a| + |b| == |s| && b == s[|a|..]
    ensures Rendered(a + b, caseString) == Rendered(a, caseString) + Rendered(s, caseString)[|a|..]
  {
    var lhs := Rendered(a + b, caseString);
    var rhs := Rendered(a, caseString) + Rendered(s, caseString)[|a|..];
    assert |lhs| == |rhs|;
    forall j | 0 <= j < |lhs| ensures lhs[j] == rhs[j] {
      if j >= |a| {
        assert (a + b)[j] == s[j];
      }
    }
  }

  /** An edit of slots shaped by a format and a mask leaves them shaped by
      the same format and mask, well formed, with the cursor in the field. */
  lemma EditKeepsValid(s: seq<KCChar>, caseString: string, location: nat, length: nat,
                       input: string, format: string, mask: string)
    requires location < |s|
    requires input == [] ==> location + length <= |s|
    requires ShapedBy(s, format, mask) && WellFormed(s)
    ensures var e := ApplyEdit(s, caseString, location, length, input);
      ShapedBy(e.slots, format, mask) && WellFormed(e.slots) && e.cursor <= |e.slots|
  {
    ApplyEditSpec(s, caseString, location, length, input);
  }

  /** Typing a fitting input into an empty selection at the start completes
      the field; the edited text has one character per input character, and
      without a case string it is the input itself. */
  lemma UpdateTextCompletes(s: seq<KCChar>, caseString: string, input: string)
    requires |s| > 0 && |input| > 0
    requires Fits(input, s)
    ensures var e := ApplyEdit(s, caseString, 0, 0, input);
      && Status(e.slots) == Complete
      && |EditedText(e.slots)| == |input|
      && (caseString == [] ==> EditedText(e.slots) == input)
  {
    InsertRoundTrip(s, input);
    InsertFrame(s, 0, 0, input);
    InsertCursor(s, 0, 0, input);
    var r := Insert(s, 0, 0, input);
    RenderedStatus(r.slots, caseString);
    RenderedFrame(r.slots, caseString);
    if !r.edited {
      assert r.slots == s;
    }
  }
}
