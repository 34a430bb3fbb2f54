/** The QLineEditExt widget: its constraint settings and stepping modes,
    increment and decrement, finishEditing, and the handlers that turn
    wheel, drag, double-click, touch, focus and key input into steps. */
module Widget {
  import opened QtText
  import opened Validation

  /** QLineEditExt::IncrementDiff: why editingFinished is being emitted. */
  datatype IncrementDiff = Decrement | None | Increment

  /** One emission of editingFinished, as an observer connected to it sees
      the widget: incrementDiff() and text() during the callback. */
  datatype Commit = Commit(diff: IncrementDiff, text: string)

  /** The default value; qQNaN() stands for "no default value". */
  datatype DefaultValue = NaN | Number(value: int)

  datatype Key = KeyUp | KeyDown | OtherKey

  datatype TouchType = TouchBegin | TouchUpdate | TouchEnd | TouchCancel

  datatype TouchPointState = TouchPointPressed | TouchPointMoved | TouchPointStationary | TouchPointReleased

  function Delta(dir: IncrementDiff): int {
    match dir
    case Increment => 1
    case Decrement => -1
    case None => 0
  }

  function Abs(x: int): nat { if x < 0 then -x else x }

  /** C++ division of int by int, which truncates toward zero: the size of
      the quotient is |a| / |b| rounded down, and its sign is the product of
      the signs of a and b. */
  function TruncDiv(a: int, b: int): (q: int)
    requires b != 0
    ensures Abs(q) == Abs(a) / Abs(b)
    ensures q > 0 ==> (a > 0) == (b > 0)
    ensures q < 0 ==> (a > 0) != (b > 0)
  {
    var n := Abs(a) / Abs(b);
    assert 0 <= n by { DivNonNegative(Abs(a), Abs(b)); }
    if (a < 0) == (b < 0) then n else -n
  }

  /** Stated apart, so that TruncDiv's proof need not rediscover it. */
  lemma DivNonNegative(x: nat, y: nat)
    requires y > 0
    ensures x / y >= 0
  {
  }

  /** A drag shorter than one drag distance, in either direction, is at step
      position 0. */
  lemma TruncDivBelowOne(a: int, b: int)
    requires b != 0 && Abs(a) < Abs(b)
    ensures TruncDiv(a, b) == 0
  {
  }

  /** Truncation against Dafny's Euclidean division by a positive drag
      distance: they agree on a non-negative distance dragged and on an exact
      multiple, and otherwise truncation is one step nearer to zero (-9 / 8
      is -1 in C++, where the Euclidean quotient is -2). */
  lemma TruncDivAgainstEuclid(a: int, b: int)
    requires b > 0
    ensures a >= 0 || a % b == 0 ==> TruncDiv(a, b) == a / b
    ensures a < 0 && a % b != 0 ==> TruncDiv(a, b) == a / b + 1
  {
    if a < 0 {
      var q, r := a / b, a % b;
      assert a == b * q + r && 0 <= r < b;
      if r == 0 {
        DivUnique(-a, b, -q, 0);
      } else {
        assert -a == b * (-q - 1) + (b - r);
        DivUnique(-a, b, -q - 1, b - r);
      }
    }
  }

  /** The quotient is the only q with x == b * q + r and 0 <= r < b. */
  lemma DivUnique(x: int, b: int, q: int, r: int)
    requires b > 0 && x == b * q + r && 0 <= r < b
    ensures x / b == q
  {
    var k := x / b - q;
    assert b * k == r - x % b;
  }

  /** What finishEditing leaves of the text t: t itself when the validator
      accepts it, and its repair otherwise. */
  function Finished(v: ValidatorExt, t: string): string {
    if v.Validate(t) == Acceptable then t else v.Repaired(t)
  }

  /** The fixed-step branch: when a step is set, setValue(value() + delta),
      where delta is the current step for an increment and its negation for
      a decrement. */
  function FixedStepped(v: ValidatorExt, step: int, t: string, delta: int): string {
    if step == 0 then t else Finished(v, Format(Parse(t) + delta))
  }

  /** The value-list branch: when the list is not empty, setValue on the
      neighbour of value() in the list, bounded to the list; a value not in
      the list counts as position -1. */
  function ValueListStepped(v: ValidatorExt, list: seq<int>, t: string, dir: IncrementDiff): string {
    if list == [] then t else Finished(v, Format(list[ListIndex(IndexOf(list, Parse(t)) + Delta(dir), |list|)]))
  }

  /** The text-list branch: when the list is not empty, setText on the
      neighbour of the text in the list, bounded to the list. */
  function TextListStepped(list: seq<string>, t: string, dir: IncrementDiff): string {
    if list == [] then t else list[ListIndex(IndexOf(list, t) + Delta(dir), |list|)]
  }

  /** The three stepping branches of increment (dir == IncrementDiff.Increment,
      delta the current step) or decrement (delta its negation) applied to
      the text t, for the validator v and the fixed step `step`. */
  function MovedText(v: ValidatorExt, step: int, delta: int, t: string, dir: IncrementDiff): string {
    var t1 := FixedStepped(v, step, t, delta);
    var t2 := ValueListStepped(v, v.valueList, t1, dir);
    TextListStepped(v.textList, t2, dir)
  }

  /** The text a whole increment or decrement leaves: the moved text,
      finished twice (once directly, once through the editingFinished
      connection). */
  function StepOutcome(v: ValidatorExt, step: int, delta: int, t: string, dir: IncrementDiff): string {
    Finished(v, Finished(v, MovedText(v, step, delta, t, dir)))
  }

  class LineEditExt {
    var text: string
    var readOnly: bool

    var step: int
    var ctrlStep: int
    var count: int
    var ctrlCount: int
    var incrementable: bool

    var defaultValue: DefaultValue
    var defaultText: string

    var mouseDragStep: int
    var touchDragStep: int
    var dragStep: int
    var dragStartX: int
    var dragStartY: int
    var lastIncrement: int
    var wheelSum: int

    var incrementDiff: IncrementDiff

    /** The validator, which also holds the range and the two lists: the
        widget's own copies of them are always the validator's. */
    var validator: ValidatorExt

    /** The emissions of editingFinished so far, oldest first. */
    var emitted: seq<Commit>

    /** The object invariant: the settings are consistent, and the wheel
        accumulator stays below the threshold between events. */
    ghost predicate Valid()
      reads this
    {
      Consistent() && -60 < wheelSum < 60
    }

    /** Each setter clears the other stepping modes, so at most one is set;
        drag distances are non-zero and the current one is the mouse or the
        touch one; incrementDiff is None outside increment and decrement; at
        most one default is set. */
    ghost predicate Consistent()
      reads this
    {
      && (step != 0 ==> count == 0 && validator.valueList == [] && validator.textList == [])
      && (count != 0 ==> validator.valueList == [] && validator.textList == [])
      && validator.Valid()
      && mouseDragStep != 0 && touchDragStep != 0
      && (dragStep == mouseDragStep || dragStep == touchDragStep)
      && incrementDiff == None
      && (defaultValue.Number? ==> defaultText == "")
    }

    /** Both constructors; the one without contents starts from the empty
        text. The drag start is the default QPoint (0, 0); lastIncrement is
        an int the C++ code leaves uninitialised, so it is left unconstrained. */
    constructor (contents: string)
      ensures Valid()
      ensures text == contents && !readOnly && emitted == []
      ensures validator == InitialValidator
      ensures step == 0 && ctrlStep == 0 && count == 0 && ctrlCount == 0 && !incrementable
      ensures defaultValue == NaN && defaultText == ""
      ensures mouseDragStep == 8 && touchDragStep == 12 && dragStep == 8
      ensures wheelSum == 0 && incrementDiff == None
      ensures dragStartX == 0 && dragStartY == 0
    {
      text := contents;
      readOnly := false;
      step, ctrlStep, count, ctrlCount := 0, 0, 0, 0;
      defaultValue, defaultText := NaN, "";
      mouseDragStep, touchDragStep, dragStep := 8, 12, 8;
      wheelSum := 0;
      dragStartX, dragStartY := 0, 0;
      incrementDiff := None;
      incrementable := false;
      validator := InitialValidator;
      emitted := [];
    }

    /** value(): the number the text spells, 0 when it spells none. */
    function Value(): (r: int)
      reads this
      ensures !IsNumeral(text) ==> r == 0
      ensures r < 0 ==> |text| > 1 && text[0] == '-'
    {
      ParseSign(text);
      Parse(text)
    }

    /** currentStep(), with the state of the Ctrl key passed in. */
    function CurrentStep(ctrl: bool): int
      reads this
    {
      if ctrl then ctrlStep else step
    }

    /** The change the fixed-step branch applies: the current step for an
        increment, its negation for a decrement. */
    function SignedStep(dir: IncrementDiff, ctrl: bool): int
      reads this
    {
      if dir == IncrementDiff.Increment then CurrentStep(ctrl) else -CurrentStep(ctrl)
    }

    /** The text the three stepping branches of increment (dir ==
        IncrementDiff.Increment) or decrement leave, before the closing
        finishEditing. */
    function Moved(dir: IncrementDiff, ctrl: bool): string
      reads this
    {
      MovedText(validator, step, SignedStep(dir, ctrl), text, dir)
    }

    /** The text increment or decrement leaves: the moved text, finished
        twice (once directly, once through the editingFinished connection). */
    function Stepped(dir: IncrementDiff, ctrl: bool): string
      reads this
      requires dir != None
    {
      StepOutcome(validator, step, SignedStep(dir, ctrl), text, dir)
    }

    /** QLineEdit::setText. On an editable widget it also stands for
        typing, since the validator never answers Invalid; a read-only
        widget takes no typing, which is not part of this model. */
    method SetText(t: string)
      modifies this`text
      ensures text == t
    {
      text := t;
    }

    /** finishEditing: repair a text the validator does not accept, and lock
        the widget for dragging when it is incrementable. */
    method FinishEditing()
      modifies this`text, this`readOnly
      ensures text == Finished(validator, old(text))
      ensures readOnly == (old(readOnly) || incrementable)
    {
      var input := text;
      if validator.Validate(input) != Acceptable {
        input := validator.Fixup(input);
        text := input;
      }
      if incrementable {
        readOnly := true;
      }
    }

    /** emit editingFinished(). The constructor connects the signal to
        finishEditing, which runs first; the log then records what the
        other observers read. QLineEdit also emits it on Return and when the
        widget loses focus, after its own validation; those paths are not
        part of this model. */
    method EmitEditingFinished()
      modifies this`text, this`readOnly, this`emitted
      ensures text == Finished(validator, old(text))
      ensures readOnly == (old(readOnly) || incrementable)
      ensures emitted == old(emitted) + [Commit(incrementDiff, text)]
    {
      FinishEditing();
      emitted := emitted + [Commit(incrementDiff, text)];
    }

    /** setValue: format the number, then finishEditing. */
    method SetValue(value: int)
      modifies this`text, this`readOnly
      ensures text == Finished(validator, Format(value))
      ensures readOnly == (old(readOnly) || incrementable)
    {
      text := Format(value);
      FinishEditing();
    }

    /** setRange, for numbers without decimals. */
    method SetRange(min: int, max: int, minStrict: bool, maxStrict: bool)
      requires Valid()
      modifies this`validator, this`text, this`readOnly
      ensures Valid()
      ensures validator == old(validator).SetRange(min, max, minStrict, maxStrict)
      ensures text == Finished(validator, old(text))
      ensures readOnly == (old(readOnly) || incrementable)
    {
      validator := validator.SetRange(min, max, minStrict, maxStrict);
      FinishEditing();
    }

    /** setIncrementable: clears every stepping mode and both lists; the
        validator keeps its range and loses its lists. */
    method SetIncrementable(incrementable': bool)
      requires Valid()
      modifies this`incrementable, this`step, this`ctrlStep, this`count, this`ctrlCount
      modifies this`validator, this`text, this`readOnly
      ensures Valid()
      ensures incrementable == incrementable'
      ensures step == 0 && ctrlStep == 0 && count == 0 && ctrlCount == 0
      ensures validator == old(validator).SetValueList([], true)
      ensures text == Finished(validator, old(text))
      ensures readOnly == (old(readOnly) || incrementable')
    {
      ClearModes(incrementable');
      FinishEditing();
    }

    /** The assignments of setIncrementable before its finishEditing. */
    method ClearModes(incrementable': bool)
      requires Valid()
      modifies this`incrementable, this`step, this`ctrlStep, this`count, this`ctrlCount, this`validator
      ensures Valid()
      ensures incrementable == incrementable'
      ensures step == 0 && ctrlStep == 0 && count == 0 && ctrlCount == 0
      ensures validator == old(validator).SetValueList([], true)
    {
      incrementable := incrementable';
      step, ctrlStep := 0, 0;
      count, ctrlCount := 0, 0;
      validator := validator.SetValueList([], true);
    }

    /** setStep: the fixed-step mode; a ctrl step of 0 means "the same as step". */
    method SetStep(step': int, ctrlStep': int)
      requires Valid()
      modifies this`incrementable, this`step, this`ctrlStep, this`count, this`ctrlCount
      modifies this`validator, this`text, this`readOnly
      ensures Valid()
      ensures incrementable == (step' > 0)
      ensures step == step' && ctrlStep == (if ctrlStep' == 0 then step' else ctrlStep')
      ensures CurrentStep(false) == step'
      ensures CurrentStep(true) == (if ctrlStep' == 0 then step' else ctrlStep')
      ensures count == 0 && ctrlCount == 0
      ensures validator == old(validator).SetValueList([], true)
      ensures text == Finished(validator, Finished(validator, old(text)))
      ensures readOnly == (old(readOnly) || step' > 0)
    {
      SetIncrementable(step' > 0);
      InstallStep(step', ctrlStep');
    }

    /** The part of setStep after its setIncrementable: the two steps, then
        finishEditing. */
    method InstallStep(step': int, ctrlStep': int)
      requires Valid() && count == 0 && validator.valueList == [] && validator.textList == []
      modifies this`step, this`ctrlStep, this`text, this`readOnly
      ensures Valid()
      ensures step == step' && ctrlStep == (if ctrlStep' == 0 then step' else ctrlStep')
      ensures text == Finished(validator, old(text))
      ensures readOnly == (old(readOnly) || incrementable)
    {
      step := step';
      ctrlStep := if ctrlStep' == 0 then step' else ctrlStep';
      FinishEditing();
    }

    /** setCount: the count mode's parameters; a ctrl count of 0 means "the
        same as count". The power is not part of this model. */
    method SetCount(count': int, ctrlCount': int)
      requires Valid()
      modifies this`incrementable, this`step, this`ctrlStep, this`count, this`ctrlCount
      modifies this`validator, this`text, this`readOnly
      ensures Valid()
      ensures incrementable == (count' > 0)
      ensures count == count' && ctrlCount == (if ctrlCount' == 0 then count' else ctrlCount')
      ensures step == 0 && ctrlStep == 0
      ensures validator == old(validator).SetValueList([], true)
      ensures text == Finished(validator, Finished(validator, old(text)))
      ensures readOnly == (old(readOnly) || count' > 0)
    {
      SetIncrementable(count' > 0);
      InstallCount(count', ctrlCount');
    }

    /** The part of setCount after its setIncrementable: the two counts,
        then finishEditing. */
    method InstallCount(count': int, ctrlCount': int)
      requires Valid() && step == 0 && validator.valueList == [] && validator.textList == []
      modifies this`count, this`ctrlCount, this`text, this`readOnly
      ensures Valid()
      ensures count == count' && ctrlCount == (if ctrlCount' == 0 then count' else ctrlCount')
      ensures text == Finished(validator, old(text))
      ensures readOnly == (old(readOnly) || incrementable)
    {
      count := count';
      ctrlCount := if ctrlCount' == 0 then count' else ctrlCount';
      FinishEditing();
    }

    /** setValueList: the value-list mode, handed to the validator. */
    method SetValueList(list: seq<int>, strict: bool)
      requires Valid()
      modifies this`incrementable, this`step, this`ctrlStep, this`count, this`ctrlCount
      modifies this`validator, this`text, this`readOnly
      ensures Valid()
      ensures incrementable == (list != [])
      ensures step == 0 && ctrlStep == 0 && count == 0 && ctrlCount == 0
      ensures validator == old(validator).SetValueList(list, strict)
      ensures text == Finished(validator, Finished(old(validator).SetValueList([], true), old(text)))
      ensures readOnly == (old(readOnly) || list != [])
    {
      SetIncrementable(list != []);
      ghost var t := text;
      validator := validator.SetValueList(list, strict);
      FinishEditing();
      assert text == Finished(validator, t);
    }

    /** setTextList: the text-list mode, handed to the validator. */
    method SetTextList(list: seq<string>, strict: bool)
      requires Valid()
      modifies this`incrementable, this`step, this`ctrlStep, this`count, this`ctrlCount
      modifies this`validator, this`text, this`readOnly
      ensures Valid()
      ensures incrementable == (list != [])
      ensures step == 0 && ctrlStep == 0 && count == 0 && ctrlCount == 0
      ensures validator == old(validator).SetTextList(list, strict)
      ensures text == Finished(validator, Finished(old(validator).SetValueList([], true), old(text)))
      ensures readOnly == (old(readOnly) || list != [])
    {
      SetIncrementable(list != []);
      ghost var t := text;
      validator := validator.SetTextList(list, strict);
      FinishEditing();
      assert text == Finished(validator, t);
    }

    /** setIncrementDragDistance: the drag distance per step for the mouse
        and for touch; the mouse distance becomes the current one. */
    method SetIncrementDragDistance(mouse: int, touch: int)
      requires Valid()
      requires mouse != 0 && touch != 0
      modifies this`mouseDragStep, this`touchDragStep, this`dragStep
      ensures Valid()
      ensures mouseDragStep == mouse && touchDragStep == touch && dragStep == mouse
    {
      dragStep, mouseDragStep := mouse, mouse;
      touchDragStep := touch;
    }

    /** setDefaultValue, with a number (the NaN argument is not modelled). */
    method SetDefaultValue(value: int)
      requires Valid()
      modifies this`defaultValue, this`defaultText, this`text, this`readOnly
      ensures Valid()
      ensures defaultValue == Number(value) && defaultText == ""
      ensures text == Finished(validator, Format(value))
      ensures readOnly == (old(readOnly) || incrementable)
    {
      defaultValue := Number(value);
      defaultText := "";
      SetValue(value);
    }

    /** setDefaultText: the text is set without being finished. */
    method SetDefaultText(t: string)
      requires Valid()
      modifies this`defaultValue, this`defaultText, this`text
      ensures Valid()
      ensures defaultText == t && defaultValue == NaN && text == t
    {
      defaultText := t;
      defaultValue := NaN;
      text := t;
    }

    /** The fixed-step branch of increment (delta == currentStep()) and
        decrement (delta == -currentStep()). */
    method StepFixed(delta: int)
      modifies this`text, this`readOnly
      ensures text == FixedStepped(validator, step, old(text), delta)
      ensures readOnly == (old(readOnly) || (step != 0 && incrementable))
    {
      if step != 0 {
        SetValue(Value() + delta);
      }
    }

    /** The value-list branch of increment and decrement. */
    method StepInValueList(dir: IncrementDiff)
      modifies this`text, this`readOnly
      ensures text == ValueListStepped(validator, validator.valueList, old(text), dir)
      ensures readOnly == (old(readOnly) || (validator.valueList != [] && incrementable))
    {
      var list := validator.valueList;
      if list != [] {
        SetValue(list[ListIndex(IndexOf(list, Value()) + Delta(dir), |list|)]);
      }
    }

    /** The text-list branch of increment and decrement. */
    method StepInTextList(dir: IncrementDiff)
      modifies this`text
      ensures text == TextListStepped(validator.textList, old(text), dir)
    {
      var list := validator.textList;
      if list != [] {
        text := list[ListIndex(IndexOf(list, text) + Delta(dir), |list|)];
      }
    }

    /** The three stepping branches, in the order increment and decrement
        take them. */
    method Move(dir: IncrementDiff, ctrl: bool)
      modifies this`text, this`readOnly
      ensures text == old(Moved(dir, ctrl))
      ensures readOnly == (old(readOnly) || ((step != 0 || validator.valueList != []) && incrementable))
    {
      StepFixed(SignedStep(dir, ctrl));
      StepInValueList(dir);
      StepInTextList(dir);
    }

    /** The closing part of increment and decrement: finishEditing, then
        editingFinished emitted with incrementDiff() telling the direction. */
    method CloseStep(dir: IncrementDiff)
      modifies this`text, this`readOnly, this`incrementDiff, this`emitted
      ensures text == Finished(validator, Finished(validator, old(text)))
      ensures readOnly == (old(readOnly) || incrementable)
      ensures emitted == old(emitted) + [Commit(dir, text)]
      ensures incrementDiff == None
    {
      FinishEditing();
      incrementDiff := dir;
      EmitEditingFinished();
      incrementDiff := None;
    }

    /** increment, with the state of the Ctrl key passed in. The count
        (power-curve) branch is not part of this model. */
    method Increment(ctrl: bool)
      requires Consistent()
      modifies this`text, this`readOnly, this`incrementDiff, this`emitted
      ensures Consistent()
      ensures text == old(Stepped(IncrementDiff.Increment, ctrl))
      ensures readOnly == (old(readOnly) || incrementable)
      ensures emitted == old(emitted) + [Commit(IncrementDiff.Increment, text)]
    {
      Move(IncrementDiff.Increment, ctrl);
      CloseStep(IncrementDiff.Increment);
    }

    /** decrement, with the state of the Ctrl key passed in. The count
        (power-curve) branch is not part of this model. */
    method Decrement(ctrl: bool)
      requires Consistent()
      modifies this`text, this`readOnly, this`incrementDiff, this`emitted
      ensures Consistent()
      ensures text == old(Stepped(IncrementDiff.Decrement, ctrl))
      ensures readOnly == (old(readOnly) || incrementable)
      ensures emitted == old(emitted) + [Commit(IncrementDiff.Decrement, text)]
    {
      Move(IncrementDiff.Decrement, ctrl);
      CloseStep(IncrementDiff.Decrement);
    }

    /** keyPressEvent: the Up and Down arrows step. */
    method KeyPress(key: Key, ctrl: bool)
      requires Valid()
      modifies this`text, this`readOnly, this`incrementDiff, this`emitted
      ensures Valid()
      ensures key == KeyUp ==> text == old(Stepped(IncrementDiff.Increment, ctrl)) && emitted == old(emitted) + [Commit(IncrementDiff.Increment, text)]
      ensures key == KeyDown ==> text == old(Stepped(IncrementDiff.Decrement, ctrl)) && emitted == old(emitted) + [Commit(IncrementDiff.Decrement, text)]
      ensures key == OtherKey ==> text == old(text) && emitted == old(emitted) && readOnly == old(readOnly)
      ensures key != OtherKey ==> readOnly == (old(readOnly) || incrementable)
    {
      if key == KeyUp {
        Increment(ctrl);
      }
      if key == KeyDown {
        Decrement(ctrl);
      }
    }

    /** focusInEvent: focus that does not come from the mouse opens the
        widget for typing. */
    method FocusIn(mouseReason: bool)
      modifies this`readOnly
      ensures readOnly == (old(readOnly) && mouseReason)
    {
      if !mouseReason {
        readOnly := false;
      }
    }

    /** wheelEvent: the wheel deltas (angleDelta x and y) accumulate; one
        step fires, and the sum restarts from 0, once it reaches 60 in
        either direction. */
    method WheelEvent(dx: int, dy: int, ctrl: bool)
      requires Valid()
      modifies this`wheelSum, this`text, this`readOnly, this`incrementDiff, this`emitted
      ensures Valid()
      ensures old(wheelSum) + dy - dx >= 60 ==>
        && wheelSum == 0 && text == old(Stepped(IncrementDiff.Increment, ctrl))
        && emitted == old(emitted) + [Commit(IncrementDiff.Increment, text)]
        && readOnly == (old(readOnly) || incrementable)
      ensures old(wheelSum) + dy - dx <= -60 ==>
        && wheelSum == 0 && text == old(Stepped(IncrementDiff.Decrement, ctrl))
        && emitted == old(emitted) + [Commit(IncrementDiff.Decrement, text)]
        && readOnly == (old(readOnly) || incrementable)
      ensures -60 < old(wheelSum) + dy - dx < 60 ==>
        wheelSum == old(wheelSum) + dy - dx && text == old(text) && emitted == old(emitted) && readOnly == old(readOnly)
    {
      var sum := wheelSum + dy - dx;
      var change := if sum >= 60 then 1 else if sum <= -60 then -1 else 0;
      StepToward(change, ctrl);
      wheelSum := if change == 0 then sum else 0;
    }

    /** One increment when change is positive, one decrement when it is
        negative, nothing otherwise: the step the wheel and the drag take. */
    method StepToward(change: int, ctrl: bool)
      requires Consistent()
      modifies this`text, this`readOnly, this`incrementDiff, this`emitted
      ensures Consistent()
      ensures change > 0 ==>
        && text == old(Stepped(IncrementDiff.Increment, ctrl))
        && emitted == old(emitted) + [Commit(IncrementDiff.Increment, text)]
        && readOnly == (old(readOnly) || incrementable)
      ensures change < 0 ==>
        && text == old(Stepped(IncrementDiff.Decrement, ctrl))
        && emitted == old(emitted) + [Commit(IncrementDiff.Decrement, text)]
        && readOnly == (old(readOnly) || incrementable)
      ensures change == 0 ==> text == old(text) && emitted == old(emitted) && readOnly == old(readOnly)
    {
      if change > 0 {
        Increment(ctrl);
      } else if change < 0 {
        Decrement(ctrl);
      }
    }

    /** mousePressEvent: a drag starts at (x, y) with no step taken yet. */
    method MousePress(x: int, y: int)
      modifies this`dragStartX, this`dragStartY, this`lastIncrement
      ensures dragStartX == x && dragStartY == y && lastIncrement == 0
    {
      dragStartX, dragStartY := x, y;
      lastIncrement := 0;
    }

    /** mouseMoveEvent, with the buttons held reduced to "the left button
        alone": on a locked widget the step position is the diagonal
        distance (dx - dy) divided by the drag distance, truncated; a move
        fires at most one step, in the direction the position changed. */
    method MouseMove(x: int, y: int, leftButtonOnly: bool, ctrl: bool)
      requires Valid()
      modifies this`lastIncrement, this`text, this`readOnly, this`incrementDiff, this`emitted
      ensures Valid()
      ensures !(old(readOnly) && leftButtonOnly) ==>
        lastIncrement == old(lastIncrement) && text == old(text) && emitted == old(emitted) && readOnly == old(readOnly)
      ensures old(readOnly) && leftButtonOnly ==>
        var n := TruncDiv((x - dragStartX) - (y - dragStartY), dragStep);
        && lastIncrement == n
        && readOnly
        && (n > old(lastIncrement) ==> text == old(Stepped(IncrementDiff.Increment, ctrl)) && emitted == old(emitted) + [Commit(IncrementDiff.Increment, text)])
        && (n < old(lastIncrement) ==> text == old(Stepped(IncrementDiff.Decrement, ctrl)) && emitted == old(emitted) + [Commit(IncrementDiff.Decrement, text)])
        && (n == old(lastIncrement) ==> text == old(text) && emitted == old(emitted))
    {
      if readOnly {
        if leftButtonOnly {
          var newIncrement := TruncDiv((x - dragStartX) - (y - dragStartY), dragStep);
          StepToward(newIncrement - lastIncrement, ctrl);
          lastIncrement := newIncrement;
        }
      }
    }

    /** mouseReleaseEvent: a press that took no step opens a locked widget
        for typing. */
    method MouseRelease()
      modifies this`readOnly
      ensures readOnly == (old(readOnly) && lastIncrement != 0)
    {
      if lastIncrement == 0 && readOnly {
        readOnly := false;
      }
    }

    /** mouseDoubleClickEvent: reset to the default value or text, and mark
        the gesture as stepped so that the release does not open the widget. */
    method MouseDoubleClick()
      requires Valid()
      modifies this`text, this`readOnly, this`lastIncrement, this`emitted
      ensures Valid()
      ensures defaultValue.Number? ==>
        && text == Finished(validator, Finished(validator, Finished(validator, Format(defaultValue.value))))
        && lastIncrement == 1 && emitted == old(emitted) + [Commit(None, text)]
        && readOnly == (old(readOnly) || incrementable)
      ensures defaultText != "" ==>
        && text == Finished(validator, Finished(validator, defaultText))
        && lastIncrement == 1 && emitted == old(emitted) + [Commit(None, text)]
        && readOnly == (old(readOnly) || incrementable)
      ensures defaultValue == NaN && defaultText == "" ==>
        text == old(text) && lastIncrement == old(lastIncrement) && emitted == old(emitted) && readOnly == old(readOnly)
    {
      if defaultValue.Number? {
        SetValue(defaultValue.value);
        FinishEditing();
        lastIncrement := 1;
        EmitEditingFinished();
      }
      if defaultText != "" {
        text := defaultText;
        FinishEditing();
        lastIncrement := 1;
        EmitEditingFinished();
      }
    }

    /** The touch part of event(): a single touch point going down selects
        the touch drag distance, and lifting it restores the mouse one; an
        empty or cancelled touch event changes nothing. The state of every
        touch point is given, first point first. */
    method Touch(kind: TouchType, points: seq<TouchPointState>)
      requires Valid()
      modifies this`dragStep
      ensures Valid()
      ensures dragStep ==
        if points == [] || kind == TouchCancel then old(dragStep)
        else if points[0] == TouchPointPressed && |points| == 1 then touchDragStep
        else if points[0] == TouchPointReleased && |points| == 1 then mouseDragStep
        else old(dragStep)
    {
      if points == [] || kind == TouchCancel {
        return;
      }
      if points[0] == TouchPointPressed && |points| == 1 {
        dragStep := touchDragStep;
      }
      if points[0] == TouchPointReleased && |points| == 1 {
        dragStep := mouseDragStep;
      }
    }
  }
}
