/** The read-only queries of a mask field over its slot sequence: the
    completion status, the text components, the raw text and the edited text. */
module MaskText {
  import opened MaskChar

  datatype KCMaskTextFieldStatus = Clear | Incomplete | Complete

  /** The number of editable slots. */
  function EditableCount(s: seq<KCChar>): (n: nat)
    ensures n <= |s|
  {
    if s == [] then 0 else (if s[0].IsEditable() then 1 else 0) + EditableCount(s[1..])
  }

  /** The number of editable slots the user has filled. */
  function FilledCount(s: seq<KCChar>): (n: nat)
    ensures n <= EditableCount(s)
  {
    if s == [] then 0
    else (if s[0].IsEditable() && !s[0].isClear then 1 else 0) + FilledCount(s[1..])
  }

  /** The status compares the filled editable slots with all editable slots:
      equal counts (no editable slot at all included) is complete, none
      filled is clear, anything else is incomplete. */
  function Status(s: seq<KCChar>): KCMaskTextFieldStatus
  {
    var completedChar := FilledCount(s);
    if completedChar == EditableCount(s) then Complete
    else if completedChar == 0 then Clear
    else Incomplete
  }

  predicate HasEditable(s: seq<KCChar>)
  {
    exists i :: 0 <= i < |s| && s[i].IsEditable()
  }

  predicate AllFilled(s: seq<KCChar>)
  {
    forall i :: 0 <= i < |s| && s[i].IsEditable() ==> !s[i].isClear
  }

  predicate NoneFilled(s: seq<KCChar>)
  {
    forall i :: 0 <= i < |s| && s[i].IsEditable() ==> s[i].isClear
  }

  /** The counts Status compares, read slot by slot. */
  lemma {:induction false} CountsMeaning(s: seq<KCChar>)
    ensures EditableCount(s) == 0 <==> !HasEditable(s)
    ensures FilledCount(s) == 0 <==> NoneFilled(s)
    ensures FilledCount(s) == EditableCount(s) <==> AllFilled(s)
  {
    if s != [] {
      CountsMeaning(s[1..]);
      assert forall i :: 1 <= i < |s| ==> s[i] == s[1..][i - 1];
      if s[0].IsEditable() {
        assert HasEditable(s);
      }
      if HasEditable(s[1..]) {
        var i :| 0 <= i < |s[1..]| && s[1..][i].IsEditable();
        assert s[i + 1].IsEditable();
      }
    }
  }

  /** Status in terms of the slots: complete exactly when every editable slot
      is filled (so also when there is none), clear exactly when editable
      slots exist and none is filled, incomplete otherwise. */
  lemma StatusMeaning(s: seq<KCChar>)
    ensures Status(s) == Complete <==> AllFilled(s)
    ensures Status(s) == Clear <==> HasEditable(s) && NoneFilled(s)
    ensures Status(s) == Incomplete <==> !AllFilled(s) && !NoneFilled(s)
  {
    CountsMeaning(s);
  }

  /** The text shown in the field: one character per slot, its value. */
  function RawText(s: seq<KCChar>): (r: string)
    ensures |r| == |s|
    ensures forall i :: 0 <= i < |s| ==> r[i] == s[i].value
  {
    if s == [] then [] else [s[0].value] + RawText(s[1..])
  }

  /** The values of the filled editable slots, in slot order. */
  function EditedText(s: seq<KCChar>): (r: string)
    ensures |r| == FilledCount(s)
  {
    if s == [] then [] else EditedChars(s[0]) + EditedText(s[1..])
  }

  lemma {:induction false} EditedTextAppend(a: seq<KCChar>, b: seq<KCChar>)
    ensures EditedText(a + b) == EditedText(a) + EditedText(b)
  {
    if a == [] {
      assert a + b == b;
    } else {
      assert (a + b)[1..] == a[1..] + b;
      EditedTextAppend(a[1..], b);
    }
  }

  /** The edited text is empty exactly when no editable slot is filled. */
  lemma EditedTextEmpty(s: seq<KCChar>)
    ensures EditedText(s) == [] <==> NoneFilled(s)
  {
    CountsMeaning(s);
  }

  /** Whether slot `i` begins a maximal run of editable slots. */
  predicate StartsRun(s: seq<KCChar>, i: nat)
    requires i < |s|
  {
    s[i].IsEditable() && (i == 0 || !s[i - 1].IsEditable())
  }

  /** The number of maximal editable runs that begin before index `hi`. */
  function RunsBefore(s: seq<KCChar>, hi: nat): nat
    requires hi <= |s|
  {
    if hi == 0 then 0 else RunsBefore(s, hi - 1) + (if StartsRun(s, hi - 1) then 1 else 0)
  }

  /** The number of maximal runs of editable slots. */
  function RunCount(s: seq<KCChar>): nat
  {
    RunsBefore(s, |s|)
  }

  /** The loop of textComponents from slot `index` on, with its accumulators:
      the characters gathered for the current run, how many editable slots
      that run has seen, and the components emitted so far. A run is emitted
      at a delimiter or at the last slot once it has seen an editable slot,
      whether or not any of them is filled. */
  function ComponentsFrom(s: seq<KCChar>, index: nat, str: string, count: nat,
                          components: seq<string>): seq<string>
    requires index <= |s|
    decreases |s| - index
  {
    if index == |s| then components
    else
      var ch := s[index];
      var str' := if ch.IsEditable() then str + EditedChars(ch) else str;
      var count' := if ch.IsEditable() then count + 1 else count;
      if (!ch.IsEditable() || index == |s| - 1) && count' > 0 then
        ComponentsFrom(s, index + 1, [], 0, components + [str'])
      else
        ComponentsFrom(s, index + 1, str', count', components)
  }

  function TextComponents(s: seq<KCChar>): seq<string>
  {
    ComponentsFrom(s, 0, [], 0, [])
  }

  /** All the strings of a sequence, joined in order. */
  function Concat(ss: seq<string>): string
  {
    if ss == [] then [] else Concat(ss[..|ss| - 1]) + ss[|ss| - 1]
  }

  lemma {:induction false} ComponentsFromConcat(s: seq<KCChar>, index: nat, str: string, count: nat,
                                                components: seq<string>)
    requires index <= |s|
    requires count == 0 ==> str == []
    requires index == |s| ==> str == []
    ensures Concat(ComponentsFrom(s, index, str, count, components))
            == Concat(components) + str + EditedText(s[index..])
    decreases |s| - index
  {
    if index < |s| {
      var ch := s[index];
      var str' := if ch.IsEditable() then str + EditedChars(ch) else str;
      var count' := if ch.IsEditable() then count + 1 else count;
      assert s[index..][1..] == s[index + 1..];
      assert EditedText(s[index..]) == EditedChars(ch) + EditedText(s[index + 1..]);
      assert str' == str + EditedChars(ch);
      if (!ch.IsEditable() || index == |s| - 1) && count' > 0 {
        ComponentsFromConcat(s, index + 1, [], 0, components + [str']);
        assert (components + [str'])[..|components|] == components;
      } else {
        ComponentsFromConcat(s, index + 1, str', count', components);
      }
    }
  }

  /** Joining the components gives back the edited text. */
  lemma ComponentsConcatToEditedText(s: seq<KCChar>)
    ensures Concat(TextComponents(s)) == EditedText(s)
  {
    ComponentsFromConcat(s, 0, [], 0, []);
    assert s[0..] == s;
  }

  lemma {:induction false} ComponentsFromCount(s: seq<KCChar>, index: nat, str: string, count: nat,
                                               components: seq<string>)
    requires index <= |s|
    requires 0 < index < |s| ==> (count > 0 <==> s[index - 1].IsEditable())
    requires index == 0 || index == |s| ==> count == 0
    ensures |ComponentsFrom(s, index, str, count, components)|
            == |components| + (if count > 0 then 1 else 0) + RunCount(s) - RunsBefore(s, index)
    decreases |s| - index
  {
    if index < |s| {
      var ch := s[index];
      var str' := if ch.IsEditable() then str + EditedChars(ch) else str;
      var count' := if ch.IsEditable() then count + 1 else count;
      RunsBeforeMonotone(s, index + 1, |s|);
      if (!ch.IsEditable() || index == |s| - 1) && count' > 0 {
        ComponentsFromCount(s, index + 1, [], 0, components + [str']);
      } else {
        ComponentsFromCount(s, index + 1, str', count', components);
      }
    }
  }

  lemma {:induction false} RunsBeforeMonotone(s: seq<KCChar>, lo: nat, hi: nat)
    requires lo <= hi <= |s|
    ensures RunsBefore(s, lo) <= RunsBefore(s, hi)
    decreases hi - lo
  {
    if lo < hi {
      RunsBeforeMonotone(s, lo, hi - 1);
    }
  }

  /** There is one component per maximal run of editable slots. */
  lemma ComponentsPerRun(s: seq<KCChar>)
    ensures |TextComponents(s)| == RunCount(s)
  {
    ComponentsFromCount(s, 0, [], 0, []);
  }

  lemma {:induction false} ConcatEmpty(ss: seq<string>)
    requires Concat(ss) == []
    ensures forall j :: 0 <= j < |ss| ==> ss[j] == []
  {
    if ss != [] {
      ConcatEmpty(ss[..|ss| - 1]);
    }
  }

  /** With no filled slot, every run is still reported, as the empty string. */
  lemma ClearFieldComponents(s: seq<KCChar>)
    requires NoneFilled(s)
    ensures |TextComponents(s)| == RunCount(s)
    ensures forall j :: 0 <= j < |TextComponents(s)| ==> TextComponents(s)[j] == []
  {
    ComponentsPerRun(s);
    ComponentsConcatToEditedText(s);
    EditedTextEmpty(s);
    ConcatEmpty(TextComponents(s));
  }

  /** The length of the leading run of editable slots. */
  function RunLength(t: seq<KCChar>): (n: nat)
    ensures n <= |t|
    ensures forall j :: 0 <= j < n ==> t[j].IsEditable()
    ensures n < |t| ==> !t[n].IsEditable()
  {
    if t == [] || !t[0].IsEditable() then 0 else 1 + RunLength(t[1..])
  }

  /** The edited text of every maximal run of editable slots, in order: a
      reference definition of the text components that splits the slots at
      their delimiters. */
  function RunTexts(t: seq<KCChar>): seq<string>
    decreases |t|
  {
    if t == [] then []
    else if !t[0].IsEditable() then RunTexts(t[1..])
    else
      var n := RunLength(t);
      [EditedText(t[..n])] + RunTexts(t[n..])
  }

  /** The state of the textComponents loop at `index`: the pending run began
      `count` slots back and `str` holds its edited text so far. */
  predicate InRun(s: seq<KCChar>, index: nat, str: string, count: nat)
  {
    && count <= index <= |s|
    && (count > 0 ==> index < |s|)
    && (forall j :: index - count <= j < index ==> s[j].IsEditable())
    && str == EditedText(s[index - count..index])
  }

  /** From any state inside a run, the loop of textComponents emits the
      edited text of each maximal run still ahead, the pending one included. */
  lemma {:induction false} ComponentsFromRuns(s: seq<KCChar>, index: nat, str: string, count: nat,
                                              components: seq<string>)
    requires InRun(s, index, str, count)
    ensures ComponentsFrom(s, index, str, count, components) == components + RunTexts(s[index - count..])
    decreases |s| - index
  {
    if index == |s| {
      assert s[index - count..] == [];
    } else if s[index].IsEditable() && index == |s| - 1 {
      LastSlotStep(s, index, str, count, components);
    } else if s[index].IsEditable() {
      var str' := str + EditedChars(s[index]);
      EditedTextSnoc(s, index - count, index);
      ComponentsFromRuns(s, index + 1, str', count + 1, components);
      assert ComponentsFrom(s, index, str, count, components)
          == ComponentsFrom(s, index + 1, str', count + 1, components);
    } else if count > 0 {
      assert s[index + 1..index + 1] == [];
      ComponentsFromRuns(s, index + 1, [], 0, components + [str]);
      DelimiterEndsRun(s, index, str, count, components);
    } else {
      assert s[index + 1..index + 1] == [];
      ComponentsFromRuns(s, index + 1, [], 0, components);
      DelimiterOutsideRun(s, index, str, components);
    }
  }

  /** The step at the last slot, when it is editable, emits the pending run. */
  lemma LastSlotStep(s: seq<KCChar>, index: nat, str: string, count: nat, components: seq<string>)
    requires InRun(s, index, str, count) && index == |s| - 1 && s[index].IsEditable()
    ensures ComponentsFrom(s, index, str, count, components) == components + RunTexts(s[index - count..])
  {
    var start := index - count;
    EditedTextSnoc(s, start, index);
    var str' := str + EditedChars(s[index]);
    assert s[start..index + 1] == s[start..];
    assert ComponentsFrom(s, index, str, count, components)
        == ComponentsFrom(s, index + 1, [], 0, components + [str']);
    assert ComponentsFrom(s, index + 1, [], 0, components + [str']) == components + [str'];
    RunTextsAllEditable(s, start);
  }

  /** A delimiter after a pending run emits it. */
  lemma DelimiterEndsRun(s: seq<KCChar>, index: nat, str: string, count: nat, components: seq<string>)
    requires InRun(s, index, str, count) && index < |s| && !s[index].IsEditable() && count > 0
    requires ComponentsFrom(s, index + 1, [], 0, components + [str])
             == components + [str] + RunTexts(s[index + 1..])
    ensures ComponentsFrom(s, index, str, count, components) == components + RunTexts(s[index - count..])
  {
    assert ComponentsFrom(s, index, str, count, components)
        == ComponentsFrom(s, index + 1, [], 0, components + [str]);
    RunTextsSplit(s, index - count, index, str);
    var rest := RunTexts(s[index + 1..]);
    assert components + [str] + rest == components + ([str] + rest);
  }

  /** A delimiter outside a run emits nothing. */
  lemma DelimiterOutsideRun(s: seq<KCChar>, index: nat, str: string, components: seq<string>)
    requires InRun(s, index, str, 0) && index < |s| && !s[index].IsEditable()
    requires ComponentsFrom(s, index + 1, [], 0, components) == components + RunTexts(s[index + 1..])
    ensures ComponentsFrom(s, index, str, 0, components) == components + RunTexts(s[index..])
  {
    assert s[index..index] == [];
    assert ComponentsFrom(s, index, str, 0, components) == ComponentsFrom(s, index + 1, [], 0, components);
    RunTextsSkip(s, index);
  }

  lemma EditedTextSnoc(s: seq<KCChar>, lo: nat, hi: nat)
    requires lo <= hi < |s|
    ensures EditedText(s[lo..hi + 1]) == EditedText(s[lo..hi]) + EditedChars(s[hi])
  {
    assert s[lo..hi + 1] == s[lo..hi] + [s[hi]];
    EditedTextAppend(s[lo..hi], [s[hi]]);
    assert [s[hi]][1..] == [];
  }

  /** A delimiter starts no component. */
  lemma RunTextsSkip(s: seq<KCChar>, i: nat)
    requires i < |s| && !s[i].IsEditable()
    ensures RunTexts(s[i..]) == RunTexts(s[i + 1..])
  {
    assert s[i..][1..] == s[i + 1..];
  }

  /** Editable slots up to the end are one component. */
  lemma RunTextsAllEditable(s: seq<KCChar>, lo: nat)
    requires lo < |s| && forall j :: lo <= j < |s| ==> s[j].IsEditable()
    ensures RunTexts(s[lo..]) == [EditedText(s[lo..])]
  {
    var t := s[lo..];
    assert forall j :: 0 <= j < |t| ==> t[j] == s[lo + j];
    var n := RunLength(t);
    if n < |t| {
      assert false;
    }
    assert t[..n] == t;
    assert t[n..] == [];
  }

  /** A run of editable slots ended by the delimiter at `hi` is one
      component, followed by those after the delimiter. */
  lemma RunTextsSplit(s: seq<KCChar>, lo: nat, hi: nat, str: string)
    requires lo < hi < |s| && !s[hi].IsEditable()
    requires forall j :: lo <= j < hi ==> s[j].IsEditable()
    requires str == EditedText(s[lo..hi])
    ensures RunTexts(s[lo..]) == [str] + RunTexts(s[hi + 1..])
  {
    var t := s[lo..];
    assert forall j :: 0 <= j < |t| ==> t[j] == s[lo + j];
    var n := RunLength(t);
    if n < hi - lo {
      assert false;
    }
    if n > hi - lo {
      assert false;
    }
    assert t[..n] == s[lo..hi];
    assert t[n..] == s[hi..] && s[hi..][1..] == s[hi + 1..];
  }

  /** Entry j of the text components is the edited text of the j-th maximal
      run of editable slots. */
  lemma TextComponentsAreRunTexts(s: seq<KCChar>)
    ensures TextComponents(s) == RunTexts(s)
  {
    assert s[0..0] == [];
    assert InRun(s, 0, [], 0);
    ComponentsFromRuns(s, 0, [], 0, []);
    assert s[0..] == s;
  }
}
