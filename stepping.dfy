/** What finishEditing, increment and decrement do to the text, stated
    against the widget's settings rather than against the order of its
    branches. */
module Stepping {
  import opened QtText
  import opened Validation
  import opened Widget

  /** finishEditing settles the text: when every element of a strict list
      lies inside the range and a strict value list ends at or below max,
      the finished text is acceptable, so finishing it again leaves it as it
      is. */
  lemma FinishedSettles(v: ValidatorExt, s: string)
    requires v.Valid()
    requires v.valueList != [] && v.listStrict ==>
      (forall i :: 0 <= i < |v.valueList| ==> v.InRange(v.valueList[i])) && v.valueList[|v.valueList| - 1] <= v.max
    requires v.textList != [] && v.listStrict ==>
      forall i :: 0 <= i < |v.textList| ==> v.InRange(Parse(v.textList[i]))
    ensures v.Validate(Finished(v, s)) == Acceptable
    ensures Finished(v, Finished(v, s)) == Finished(v, s)
  {
    if v.Validate(s) != Acceptable {
      RepairIsAcceptable(v, s);
    }
  }

  /** When the value-list fallback lands outside the list, as with the list
      [1, 2, 3] and no range, one finishEditing is not enough. A double click
      resetting to the default number 5 sets the value, which finishes "5"
      into "0", and then finishes again, which gives "1"; the finish of the
      emission keeps "1". */
  lemma DefaultResetFinishesTwice()
    ensures var v := InitialValidator.SetValueList([1, 2, 3], true);
            && Finished(v, Format(5)) == "0"
            && Finished(v, Finished(v, Format(5))) == "1"
            && Finished(v, Finished(v, Finished(v, Format(5)))) == "1"
  {
    var v := InitialValidator.SetValueList([1, 2, 3], true);
    ValueListFallbackLeavesList();
    assert Format(5) == "5";
    assert Parse("5") == 5 by { assert DigitsValue("5") == DigitsValue("") * 10 + 5; }
    assert v.Validate("5") == Intermediate;
    assert Parse("1") == 1 by { assert DigitsValue("1") == DigitsValue("") * 10 + 1; }
    assert v.Validate("1") == Acceptable;
  }

  /** Without lists, finishing a formatted number clamps the number into the
      range: its strict sides are applied and the rest is left alone. */
  lemma FinishedFormat(v: ValidatorExt, x: int)
    requires v.valueList == [] && v.textList == []
    ensures Finished(v, Format(x)) == Format(v.RangeClamp(x))
    ensures v.Validate(Format(v.RangeClamp(x))) == Acceptable
  {
    ParseFormat(x);
    RepairedRange(v, Format(x));
    ParseFormat(v.RangeClamp(x));
  }

  /** A fixed step without lists: the number plus delta, clamped into the
      range. */
  lemma FixedStep(v: ValidatorExt, step: int, delta: int, t: string, dir: IncrementDiff)
    requires v.valueList == [] && v.textList == [] && step != 0
    ensures StepOutcome(v, step, delta, t, dir) == Format(v.RangeClamp(Parse(t) + delta))
  {
    var x := Parse(t) + delta;
    FinishedFormat(v, x);
    FinishedFormat(v, v.RangeClamp(x));
    assert v.RangeClamp(v.RangeClamp(x)) == v.RangeClamp(x);
  }

  /** In the fixed-step mode a step adds the signed current step to the value
      and clamps the sum into the range; a sum inside the range is kept. */
  lemma FixedStepping(w: LineEditExt, dir: IncrementDiff, ctrl: bool)
    requires w.Consistent() && w.step != 0 && dir != None
    ensures var x := w.Value() + w.SignedStep(dir, ctrl);
            && w.Stepped(dir, ctrl) == Format(w.validator.RangeClamp(x))
            && w.validator.Validate(w.Stepped(dir, ctrl)) == Acceptable
            && (w.validator.InRange(x) ==> Parse(w.Stepped(dir, ctrl)) == x)
            && (w.validator.RangeActive() && w.validator.minStrict && w.validator.maxStrict ==>
                  w.validator.min <= Parse(w.Stepped(dir, ctrl)) <= w.validator.max)
  {
    var v := w.validator;
    var x := w.Value() + w.SignedStep(dir, ctrl);
    FixedStep(v, w.step, w.SignedStep(dir, ctrl), w.text, dir);
    FinishedFormat(v, x);
    ParseFormat(v.RangeClamp(x));
  }

  /** A fixed step whose sum lies in the range gives the sum. */
  lemma FixedStepInRange(v: ValidatorExt, step: int, delta: int, t: string, dir: IncrementDiff)
    requires v.valueList == [] && v.textList == [] && step != 0 && v.InRange(Parse(t) + delta)
    ensures StepOutcome(v, step, delta, t, dir) == Format(Parse(t) + delta)
  {
    FixedStep(v, step, delta, t, dir);
  }

  /** Away from the ends of the range a decrement undoes an increment in the
      fixed-step mode: from the value x an increment by s gives x + s, and a
      decrement by s from there gives x back. */
  lemma FixedRoundTrip(v: ValidatorExt, step: int, t: string, s: int)
    requires v.valueList == [] && v.textList == [] && step != 0
    requires v.InRange(Parse(t)) && v.InRange(Parse(t) + s)
    ensures var up := Format(Parse(t) + s);
            && StepOutcome(v, step, s, t, IncrementDiff.Increment) == up
            && StepOutcome(v, step, -s, up, IncrementDiff.Decrement) == Format(Parse(t))
  {
    var x := Parse(t);
    FixedStepInRange(v, step, s, t, IncrementDiff.Increment);
    ParseFormat(x + s);
    assert Parse(Format(x + s)) + -s == x;
    FixedStepInRange(v, step, -s, Format(x + s), IncrementDiff.Decrement);
  }

  /** No element of s occurs twice. */
  ghost predicate Distinct<T>(s: seq<T>) {
    forall j, k :: 0 <= j < k < |s| ==> s[j] != s[k]
  }

  /** In a list without repetitions, position i is the first to hold s[i]. */
  lemma DistinctFirst<T>(s: seq<T>, i: nat)
    requires Distinct(s) && i < |s|
    ensures s[i] !in s[..i]
  {
    assert forall j :: 0 <= j < i ==> s[..i][j] == s[j];
  }

  /** The position next to i in a list of n elements, in the direction of
      the step and held at either end. */
  function Neighbour(i: nat, n: nat, dir: IncrementDiff): nat
    requires i < n
  {
    if dir == IncrementDiff.Increment then Min(i + 1, n - 1) else Max(i - 1, 0)
  }

  /** The position a list step lands on, when x first occurs at position i:
      one further along in the direction of the step, held at either end. */
  lemma ListStepFrom<T>(list: seq<T>, x: T, i: nat, dir: IncrementDiff)
    requires i < |list| && list[i] == x && x !in list[..i] && dir != None
    ensures ListIndex(IndexOf(list, x) + Delta(dir), |list|) == Neighbour(i, |list|, dir)
  {
    IndexOfFirst(list, x);
    var j := IndexOf(list, x);
    assert j >= 0;
    assert j <= i;
    assert forall m :: 0 <= m < i ==> list[..i][m] == list[m];
  }

  /** An element of the value list, inside the range, is acceptable as it is. */
  lemma ListElementSettles(v: ValidatorExt, k: nat)
    requires v.textList == [] && k < |v.valueList| && v.InRange(v.valueList[k])
    ensures Parse(Format(v.valueList[k])) == v.valueList[k]
    ensures Finished(v, Format(v.valueList[k])) == Format(v.valueList[k])
  {
    ParseFormat(v.valueList[k]);
    assert v.Validate(Format(v.valueList[k])) == Acceptable;
  }

  /** A value-list step, with every element inside the range: the element
      next to the first occurrence of the value, held at either end. */
  lemma ValueListStep(v: ValidatorExt, delta: int, t: string, dir: IncrementDiff)
    requires v.Valid() && v.valueList != [] && dir != None
    requires forall i :: 0 <= i < |v.valueList| ==> v.InRange(v.valueList[i])
    ensures var L := v.valueList;
            var k := ListIndex(IndexOf(L, Parse(t)) + Delta(dir), |L|);
            StepOutcome(v, 0, delta, t, dir) == Format(L[k]) && Parse(Format(L[k])) == L[k]
  {
    var L := v.valueList;
    var k := ListIndex(IndexOf(L, Parse(t)) + Delta(dir), |L|);
    ListElementSettles(v, k);
    assert MovedText(v, 0, delta, t, dir) == Format(L[k]);
  }

  /** In the value-list mode, with every element inside the range, a step
      moves the value to its neighbour in the list, held at either end; a
      value missing from the list moves to the first element. The text is
      always an element of the list. */
  lemma ValueListStepping(w: LineEditExt, dir: IncrementDiff, ctrl: bool)
    requires w.Consistent() && w.validator.valueList != [] && dir != None
    requires forall i :: 0 <= i < |w.validator.valueList| ==> w.validator.InRange(w.validator.valueList[i])
    ensures var L := w.validator.valueList;
            && w.Stepped(dir, ctrl) == Format(L[ListIndex(IndexOf(L, w.Value()) + Delta(dir), |L|)])
            && Parse(w.Stepped(dir, ctrl)) in L
            && (w.Value() !in L ==> w.Stepped(dir, ctrl) == Format(L[0]))
  {
    IndexOfFirst(w.validator.valueList, w.Value());
    ValueListStep(w.validator, w.SignedStep(dir, ctrl), w.text, dir);
  }

  /** From position i of a value list, the first to hold its element, a
      step lands on the neighbouring position. */
  lemma ValueListNeighbour(v: ValidatorExt, delta: int, t: string, i: nat, dir: IncrementDiff)
    requires v.Valid() && dir != None && i < |v.valueList|
    requires Parse(t) == v.valueList[i] && v.valueList[i] !in v.valueList[..i]
    requires v.InRange(v.valueList[Neighbour(i, |v.valueList|, dir)])
    ensures StepOutcome(v, 0, delta, t, dir) == Format(v.valueList[Neighbour(i, |v.valueList|, dir)])
  {
    var k := Neighbour(i, |v.valueList|, dir);
    ListStepFrom(v.valueList, Parse(t), i, dir);
    ListElementSettles(v, k);
    assert MovedText(v, 0, delta, t, dir) == Format(v.valueList[k]);
  }

  /** Below the last position of a value list, a decrement undoes an
      increment. */
  lemma ValueListIncrementUndone(v: ValidatorExt, up: int, down: int, t: string, i: nat)
    requires v.Valid() && i + 1 < |v.valueList| && Parse(t) == v.valueList[i]
    requires v.valueList[i] !in v.valueList[..i] && v.valueList[i + 1] !in v.valueList[..i + 1]
    requires v.InRange(v.valueList[i]) && v.InRange(v.valueList[i + 1])
    ensures var u := StepOutcome(v, 0, up, t, IncrementDiff.Increment);
            u == Format(v.valueList[i + 1]) && StepOutcome(v, 0, down, u, IncrementDiff.Decrement) == Format(v.valueList[i])
  {
    var L := v.valueList;
    assert Neighbour(i, |L|, IncrementDiff.Increment) == i + 1 && Neighbour(i + 1, |L|, IncrementDiff.Decrement) == i;
    ValueListNeighbour(v, up, t, i, IncrementDiff.Increment);
    ParseFormat(L[i + 1]);
    ValueListNeighbour(v, down, Format(L[i + 1]), i + 1, IncrementDiff.Decrement);
  }

  /** Above the first position of a value list, an increment undoes a
      decrement. */
  lemma ValueListDecrementUndone(v: ValidatorExt, up: int, down: int, t: string, i: nat)
    requires v.Valid() && 0 < i < |v.valueList| && Parse(t) == v.valueList[i]
    requires v.valueList[i] !in v.valueList[..i] && v.valueList[i - 1] !in v.valueList[..i - 1]
    requires v.InRange(v.valueList[i]) && v.InRange(v.valueList[i - 1])
    ensures var d := StepOutcome(v, 0, down, t, IncrementDiff.Decrement);
            d == Format(v.valueList[i - 1]) && StepOutcome(v, 0, up, d, IncrementDiff.Increment) == Format(v.valueList[i])
  {
    var L := v.valueList;
    assert Neighbour(i, |L|, IncrementDiff.Decrement) == i - 1 && Neighbour(i - 1, |L|, IncrementDiff.Increment) == i;
    ValueListNeighbour(v, down, t, i, IncrementDiff.Decrement);
    ParseFormat(L[i - 1]);
    ValueListNeighbour(v, up, Format(L[i - 1]), i - 1, IncrementDiff.Increment);
  }

  /** The same round trips on the widget, with the current step for the Ctrl
      state and the settings a step leaves alone. */
  lemma ValueListUndo(w: LineEditExt, ctrl: bool, i: nat)
    requires w.Consistent()
    requires forall j :: 0 <= j < |w.validator.valueList| ==> w.validator.InRange(w.validator.valueList[j])
    requires Distinct(w.validator.valueList) && i < |w.validator.valueList| && w.Value() == w.validator.valueList[i]
    ensures var L := w.validator.valueList;
            var up := w.Stepped(IncrementDiff.Increment, ctrl);
            i + 1 < |L| ==>
              up == Format(L[i + 1]) &&
              StepOutcome(w.validator, w.step, w.SignedStep(IncrementDiff.Decrement, ctrl), up, IncrementDiff.Decrement) == Format(L[i])
    ensures var L := w.validator.valueList;
            var down := w.Stepped(IncrementDiff.Decrement, ctrl);
            0 < i ==>
              down == Format(L[i - 1]) &&
              StepOutcome(w.validator, w.step, w.SignedStep(IncrementDiff.Increment, ctrl), down, IncrementDiff.Increment) == Format(L[i])
  {
    var L := w.validator.valueList;
    var up, down := w.SignedStep(IncrementDiff.Increment, ctrl), w.SignedStep(IncrementDiff.Decrement, ctrl);
    assert w.step == 0;
    DistinctFirst(L, i);
    if i + 1 < |L| {
      DistinctFirst(L, i + 1);
      ValueListIncrementUndone(w.validator, up, down, w.text, i);
    }
    if 0 < i {
      DistinctFirst(L, i - 1);
      ValueListDecrementUndone(w.validator, up, down, w.text, i);
    }
  }

  /** A text-list step, with every entry inside the range: the entry next to
      the first occurrence of the text, held at either end. */
  lemma TextListStep(v: ValidatorExt, delta: int, t: string, dir: IncrementDiff)
    requires v.Valid() && v.textList != [] && dir != None
    requires forall i :: 0 <= i < |v.textList| ==> v.InRange(Parse(v.textList[i]))
    ensures var L := v.textList;
            StepOutcome(v, 0, delta, t, dir) == L[ListIndex(IndexOf(L, t) + Delta(dir), |L|)]
  {
    var L := v.textList;
    var k := ListIndex(IndexOf(L, t) + Delta(dir), |L|);
    assert v.Validate(L[k]) == Acceptable;
    assert MovedText(v, 0, delta, t, dir) == L[k];
  }

  /** In the text-list mode, with every entry inside the range, a step moves
      the text to its neighbour in the list, held at either end; a text
      missing from the list moves to the first entry. The text is always an
      entry of the list. */
  lemma TextListStepping(w: LineEditExt, dir: IncrementDiff, ctrl: bool)
    requires w.Consistent() && w.validator.textList != [] && dir != None
    requires forall i :: 0 <= i < |w.validator.textList| ==> w.validator.InRange(Parse(w.validator.textList[i]))
    ensures var L := w.validator.textList;
            && w.Stepped(dir, ctrl) == L[ListIndex(IndexOf(L, w.text) + Delta(dir), |L|)]
            && w.Stepped(dir, ctrl) in L
            && (w.text !in L ==> w.Stepped(dir, ctrl) == L[0])
  {
    IndexOfFirst(w.validator.textList, w.text);
    TextListStep(w.validator, w.SignedStep(dir, ctrl), w.text, dir);
  }

  /** From position i of a text list, the first to hold its entry, a step
      lands on the neighbouring position. */
  lemma TextListNeighbour(v: ValidatorExt, delta: int, i: nat, dir: IncrementDiff)
    requires v.Valid() && dir != None && i < |v.textList| && v.textList[i] !in v.textList[..i]
    requires v.InRange(Parse(v.textList[Neighbour(i, |v.textList|, dir)]))
    ensures StepOutcome(v, 0, delta, v.textList[i], dir) == v.textList[Neighbour(i, |v.textList|, dir)]
  {
    var L, k := v.textList, Neighbour(i, |v.textList|, dir);
    ListStepFrom(L, L[i], i, dir);
    assert v.Validate(L[k]) == Acceptable;
    assert MovedText(v, 0, delta, L[i], dir) == L[k];
  }

  /** In a text list without repetitions, away from its ends, a decrement
      undoes an increment and an increment undoes a decrement. */
  lemma TextListUndo(w: LineEditExt, ctrl: bool, i: nat)
    requires w.Consistent()
    requires forall j :: 0 <= j < |w.validator.textList| ==> w.validator.InRange(Parse(w.validator.textList[j]))
    requires Distinct(w.validator.textList) && i < |w.validator.textList| && w.text == w.validator.textList[i]
    ensures var L := w.validator.textList;
            var up := w.Stepped(IncrementDiff.Increment, ctrl);
            i + 1 < |L| ==>
              up == L[i + 1] &&
              StepOutcome(w.validator, w.step, w.SignedStep(IncrementDiff.Decrement, ctrl), up, IncrementDiff.Decrement) == L[i]
    ensures var L := w.validator.textList;
            var down := w.Stepped(IncrementDiff.Decrement, ctrl);
            0 < i ==>
              down == L[i - 1] &&
              StepOutcome(w.validator, w.step, w.SignedStep(IncrementDiff.Increment, ctrl), down, IncrementDiff.Increment) == L[i]
  {
    var v, L := w.validator, w.validator.textList;
    var up, down := w.SignedStep(IncrementDiff.Increment, ctrl), w.SignedStep(IncrementDiff.Decrement, ctrl);
    assert w.step == 0;
    DistinctFirst(L, i);
    if i + 1 < |L| {
      DistinctFirst(L, i + 1);
      assert Neighbour(i, |L|, IncrementDiff.Increment) == i + 1 && Neighbour(i + 1, |L|, IncrementDiff.Decrement) == i;
      TextListNeighbour(v, up, i, IncrementDiff.Increment);
      TextListNeighbour(v, down, i + 1, IncrementDiff.Decrement);
    }
    if 0 < i {
      DistinctFirst(L, i - 1);
      assert Neighbour(i, |L|, IncrementDiff.Decrement) == i - 1 && Neighbour(i - 1, |L|, IncrementDiff.Increment) == i;
      TextListNeighbour(v, down, i, IncrementDiff.Decrement);
      TextListNeighbour(v, up, i - 1, IncrementDiff.Increment);
    }
  }

  /** Without a stepping mode (the count mode is not part of this model) a
      step only finishes the text. */
  lemma NoModeStepping(w: LineEditExt, dir: IncrementDiff, ctrl: bool)
    requires w.Consistent() && w.step == 0 && w.validator.valueList == [] && w.validator.textList == []
    requires dir != None
    ensures w.Stepped(dir, ctrl) == Finished(w.validator, Finished(w.validator, w.text))
  {
    assert MovedText(w.validator, w.step, w.SignedStep(dir, ctrl), w.text, dir) == w.text;
  }
}
