# QLineEditExt: value constraints and stepping

`QLineEditExt` is a Qt line edit for numbers and short option texts. Its
validator, `QValidatorExt`, classifies a candidate text as acceptable or
intermediate. The checks are an optional strict range, a strict list of
allowed values and a strict list of allowed texts. The validator also repairs
a text it does not accept: it clamps the number into the range, snaps it to
the value list, or picks the first text-list entry that contains the input,
compared case-insensitively.

On top of the validator the widget has one stepping mode at a time: a fixed
step, a value list or a text list (plus a count mode, not modelled here).
Arrow keys, the wheel and horizontal or vertical drags move the value by one
step. Every step ends in `finishEditing`, which repairs the text and, when
the widget is incrementable, locks it for dragging. Then `editingFinished` is emitted, with
`incrementDiff()` telling the direction of the step.

The project has four modules:

- `QtText` (qtext.dfy): the Qt text operations the widget uses, for a widget
  with no decimals. These are `QString::number(n, 'f', 0)` as `Format`,
  `QString::toDouble` as `Parse` (0 for a text that is not a numeral),
  `toLower`, `contains`, `QList::indexOf` and `qBound`. `ParseFormat` proves
  that parsing a formatted number gives the number back.
- `Validation` (validation.dfy): the validator as a value (`ValidatorExt`),
  since the widget holds it by value.
  - `Validate` models `validate`, and its contract is the full
    if-and-only-if.
  - `Fixup` models `fixup` with the two searching loops of the C++ code. It is
    proved equal to the function `Repaired`.
  - Lemmas state what `Repaired` yields in each mode.
- `Widget` (widget.dfy): the widget as the class `LineEditExt`, whose methods
  update its fields as the C++ class does.
  - Each emission of `editingFinished` is appended to the log `emitted`, as a
    `Commit` holding the `incrementDiff()` seen during the emission and the
    text.
  - The signal is connected to `finishEditing` in the constructor, so an
    emission finishes the text first.
  - The state of the Ctrl key is passed in as a parameter.
- `Stepping` (stepping.dfy): what one step does to the text in each mode,
  stated against the settings.

The object invariant `Valid()` says that at most one stepping mode is active,
that the validator holds at most one list, that both drag distances are
non-zero with the current one among them, that `incrementDiff()` is None
outside a step, that a default number leaves no default text, and that the
wheel sum stays strictly between -60 and 60 angle-delta units (half of a
120-unit wheel notch). Every setter, the key,
wheel, move, double-click and touch handlers require and ensure it.
`Increment`, `Decrement` and `StepToward` require and ensure the part of it
that does not mention the wheel sum, `Consistent()`. `SetText`, `SetValue`,
`FinishEditing`, `FocusIn`, `MousePress` and `MouseRelease` write none of
the fields the invariant mentions.

## Model

| member | source | states |
|---|---|---|
| QtText.Format | qlineeditext.h:79 | QString::number(n, 'f', 0) is a non-empty text that starts with '-' exactly when n is negative |
| QtText.Parse | qlineeditext.h:80 | toDouble: the number a numeral text spells |
| QtText.ParseSign | qlineeditext.h:80 | a text that is not a numeral reads as 0, and a negative reading comes from a text starting with '-' and a digit after it |
| QtText.FormatIsNumeral | qlineeditext.h:79 | a formatted number is a numeral, and it starts with '-' exactly when the number is negative |
| QtText.ParseFormat | qlineeditext.h:79-80 | value() after setValue(n), before any repair, reads back n |
| QtText.FormatInjective | qlineeditext.h:79 | two numbers format to the same text exactly when they are equal |
| QtText.NatDigitsAreDigits | qlineeditext.h:79 | the digits of a number are decimal digits |
| QtText.DigitsValueOfNatDigits | qlineeditext.h:79-80 | the digits of n spell n |
| QtText.Lower | qlineeditext.h:364 | toLower keeps the length of the text |
| QtText.LowerIs | qlineeditext.h:364 | toLower maps each character on its own: capital ASCII letters to small ones, every other character to itself |
| QtText.LowerIdempotent | qlineeditext.h:364 | the lower case of a text has no capital letter left, so lowering it again changes nothing |
| QtText.Contains | qlineeditext.h:364 | QString::contains: the empty text is contained in every text, and a contained text is no longer than the text holding it |
| QtText.ContainsMeansOccurs | qlineeditext.h:364 | QString::contains holds exactly when the needle occurs at some position of the text |
| QtText.IndexOf | qlineeditext.h:104 | QList::indexOf gives -1 or a position of the list |
| QtText.IndexOfFirst | qlineeditext.h:104 | indexOf is -1 exactly when the element is missing; otherwise it is a position holding it, with no earlier one holding it |
| QtText.MaxMinBounds | qlineeditext.h:350-351 | qMax gives the larger of its arguments and qMin the smaller |
| QtText.ListIndex | qlineeditext.h:104 | qBound(0, i, n - 1) is a position of the list: i itself inside, 0 below, n - 1 above |
| Validation.ValidatorExt.SetRange | qlineeditext.h:336 | the bounds and strict flags become the given ones, the lists and listStrict are kept, and the new range takes part in validation exactly when min < max |
| Validation.ValidatorExt.SetValueList | qlineeditext.h:337 | the value list becomes the given list in its order, listStrict the given flag, the text list is cleared and the range is kept |
| Validation.ValidatorExt.SetTextList | qlineeditext.h:338 | the text list becomes the given list in its order, listStrict the given flag, the value list is cleared and the range is kept |
| Validation.SettersKeepOtherChecks | qlineeditext.h:336-338 | setRange leaves the list checks alone; setValueList leaves the range check alone, accepts every text list entry, and its list check passes exactly when the list is empty, not strict or holds the number; setTextList likewise for texts |
| Validation.ValidatorExt.Validate | qlineeditext.h:339-346 | never Invalid; Acceptable exactly when no strict side of an active range (min < max) is broken, a strict value list holds the parsed number and a strict text list holds the text |
| Validation.ValidatorExt.RangeClamp | qlineeditext.h:350-351 | the clamped number lies in the range, equals the input when the input already does, is min(max, max(min, x)) with both sides strict, max(min, x) with only min strict, min(max, x) with only max strict, and x when no side is strict or the range is inactive |
| Validation.ValidatorExt.Fixup | qlineeditext.h:348-368 | fixup's output is Repaired(input): the range step, the value-list step, then the text-list step |
| Validation.ValidatorExt.FixupValueList | qlineeditext.h:352-359 | the value-list loop (with its break) produces ValueListRepaired(input) |
| Validation.ValidatorExt.FixupTextList | qlineeditext.h:360-367 | the text-list loop (with its break) produces TextListRepaired(input) |
| Validation.FirstAboveIs | qlineeditext.h:354-356 | the position the value-list loop stops at holds the first element greater than the input; every earlier element is at most the input |
| Validation.FirstContainingIs | qlineeditext.h:362-364 | the position the text-list loop stops at holds the first entry whose lower case contains the lower-case input; no earlier entry does |
| Validation.SnapToListBounds | qlineeditext.h:352-359 | the snapped number is an element of the list or max, and it is not above the input unless the input lies below the first element |
| Validation.RepairedRange | qlineeditext.h:350-351 | without strict lists, fixup clamps the number and reformats it when a side is strict, and leaves the text alone otherwise; with both sides strict the result lies in [min, max] |
| Validation.RepairedValueList | qlineeditext.h:352-359 | with a strict value list, the result is an element or max: the element before the first element greater than the number (the first element when that is the first), or min(max, last element) when none is greater |
| Validation.RepairedTextList | qlineeditext.h:360-367 | with a strict text list, the result is always an entry: the first one whose lower case contains the lower-case input, or the first entry when none does |
| Validation.RepairIsAcceptable | qlineeditext.h:339-368 | when every element of a strict list lies inside the range and a strict value list ends at or below max, the validator accepts what fixup produces |
| Validation.ValueListFallbackLeavesList | qlineeditext.h:357 | with the list [1, 2, 3] and no range (max stays 0), fixup turns "5" into "0", which the validator still rejects, and "0" into "1" |
| Widget.TruncDiv | qlineeditext.h:213 | C++ integer division: truncated toward zero, with the magnitude of the quotient the quotient of the magnitudes and the sign the product of the signs |
| Widget.TruncDivBelowOne | qlineeditext.h:213 | a drag shorter than one drag distance is at step position 0, in both directions |
| Widget.TruncDivAgainstEuclid | qlineeditext.h:213 | for a positive divisor C++ division agrees with Euclidean division when the dividend is non-negative or divisible, and is one more otherwise |
| Widget.DivUnique | qlineeditext.h:213 | the quotient and remainder of a division by a positive number are unique |
| Widget.LineEditExt.constructor | qlineeditext.h:17-54 | both constructors (with the defaults of lines 72 and 332-333): no range, strict flags set, no mode, no defaults, drag distances 8 and 12, drag start (0, 0), wheel sum 0, not incrementable |
| Widget.LineEditExt.Value | qlineeditext.h:80 | value() is 0 for a text that is not a numeral, and negative only for a text starting with '-' |
| Widget.LineEditExt.SetText | qlineeditext.h:157 | setText replaces the text; the validator never answers Invalid, so on an editable widget typing is modelled by it too |
| Widget.LineEditExt.FinishEditing | qlineeditext.h:142-163 | the text is repaired only when the validator does not accept it; the widget becomes read-only when incrementable |
| Widget.LineEditExt.EmitEditingFinished | qlineeditext.h:34 | an emission first runs finishEditing through the connection, then is logged with the current incrementDiff and the text |
| Widget.LineEditExt.SetValue | qlineeditext.h:79 | the text becomes the formatted number, finished |
| Widget.LineEditExt.SetRange | qlineeditext.h:57 | the validator takes the new range, and the text is finished against it |
| Widget.LineEditExt.SetIncrementable | qlineeditext.h:67 | clears the fixed step, the count and both lists (in the validator too), sets incrementable, finishes the text |
| Widget.LineEditExt.ClearModes | qlineeditext.h:67 | the field assignments of setIncrementable, keeping the invariant |
| Widget.LineEditExt.SetStep | qlineeditext.h:68 | fixed-step mode: incrementable exactly when step > 0; no count and no lists; afterwards currentStep() (line 139) is the step without Ctrl, and with Ctrl the ctrl step, or the step when the ctrl step was given as 0 |
| Widget.LineEditExt.InstallStep | qlineeditext.h:68 | the assignments of setStep after setIncrementable: the step, the ctrl step (the step when given as 0), then finishEditing; the invariant is kept |
| Widget.LineEditExt.SetCount | qlineeditext.h:69 | count mode: incrementable exactly when count > 0; the ctrl count is the count when given as 0; no step and no lists |
| Widget.LineEditExt.InstallCount | qlineeditext.h:69 | the assignments of setCount after setIncrementable: the count, the ctrl count (the count when given as 0), then finishEditing; the invariant is kept |
| Widget.LineEditExt.SetValueList | qlineeditext.h:70 | value-list mode: incrementable exactly when the list is non-empty; the validator holds the list and no text list |
| Widget.LineEditExt.SetTextList | qlineeditext.h:71 | text-list mode: incrementable exactly when the list is non-empty; the validator holds the list and no value list |
| Widget.LineEditExt.SetIncrementDragDistance | qlineeditext.h:72 | sets both drag distances; the mouse one becomes current |
| Widget.LineEditExt.SetDefaultValue | qlineeditext.h:77 | records the default number, clears the default text, sets the value |
| Widget.LineEditExt.SetDefaultText | qlineeditext.h:78 | records the default text, clears the default number, sets the text unfinished |
| Widget.LineEditExt.StepFixed | qlineeditext.h:93-94 | with a step set, setValue(value() + currentStep()) (value() - currentStep() for decrement, lines 116-117); otherwise nothing |
| Widget.LineEditExt.StepInValueList | qlineeditext.h:103-104 | with a value list, setValue on the bounded neighbour of value() in the list (lines 126-127 for decrement) |
| Widget.LineEditExt.StepInTextList | qlineeditext.h:105-106 | with a text list, setText on the bounded neighbour of the text in the list (lines 128-129 for decrement) |
| Widget.LineEditExt.Move | qlineeditext.h:93-106 | the three stepping branches in order (lines 116-129 for decrement) leave Moved(dir, ctrl) |
| Widget.LineEditExt.CloseStep | qlineeditext.h:109-112 | finishEditing, then one emission logged with the step's direction; incrementDiff is None again afterwards |
| Widget.LineEditExt.Increment | qlineeditext.h:91-113 | the text becomes Stepped(Increment, ctrl), exactly one Commit(Increment, text) is logged, and the invariant holds |
| Widget.LineEditExt.Decrement | qlineeditext.h:114-136 | the text becomes Stepped(Decrement, ctrl), exactly one Commit(Decrement, text) is logged, and the invariant holds |
| Widget.LineEditExt.KeyPress | qlineeditext.h:175-180 | Up increments, Down decrements; the model's other keys leave text, log and lock alone, since QLineEdit's own key handling is not modelled |
| Widget.LineEditExt.FocusIn | qlineeditext.h:165-173 | focus not given by the mouse unlocks the widget; mouse focus leaves the lock |
| Widget.LineEditExt.WheelEvent | qlineeditext.h:181-187 | y - x is added to the wheel sum; at 60 or more exactly one increment fires and the sum is reset, at -60 or less exactly one decrement, otherwise the sum carries over and nothing fires |
| Widget.LineEditExt.StepToward | qlineeditext.h:214-215 | one increment for a positive change, one decrement for a negative one, nothing for none |
| Widget.LineEditExt.MousePress | qlineeditext.h:189-194 | a drag starts at the press position with no step taken |
| Widget.LineEditExt.MouseMove | qlineeditext.h:206-220 | on a locked widget with the left button alone, the step position is (dx - dy) / dragStep truncated toward zero; one step at most fires, signed by the change of position; lastIncrement becomes the position; otherwise nothing changes |
| Widget.LineEditExt.MouseRelease | qlineeditext.h:195-205 | a press that took no step unlocks a locked widget |
| Widget.LineEditExt.MouseDoubleClick | qlineeditext.h:221-237 | resets to the default number or text with one emission and marks the gesture as stepped; with no default nothing changes |
| Widget.LineEditExt.Touch | qlineeditext.h:249-262 | an empty or cancelled touch changes nothing; one pressed point selects the touch drag distance, one released point the mouse one |
| Stepping.FinishedSettles | qlineeditext.h:153-158 | when every element of a strict list lies inside the range and a strict value list ends at or below max, the finished text is acceptable and finishing it again changes nothing |
| Stepping.DefaultResetFinishesTwice | qlineeditext.h:221-228 | with the list [1, 2, 3] and no range, a double click resetting to the default 5 sets the value, which finishes "5" into "0", and finishEditing then gives "1", which the emission's finish keeps |
| Stepping.FinishedFormat | qlineeditext.h:79 | without lists, setValue(x) leaves x clamped into the range |
| Stepping.FixedStep | qlineeditext.h:93-94 | without lists, a fixed step followed by the double finish gives the number plus the change, clamped into the range |
| Stepping.FixedStepping | qlineeditext.h:93-94 | a fixed step gives the value plus or minus the current step, clamped into the range; acceptable, kept when inside the range, in [min, max] with both sides strict |
| Stepping.FixedStepInRange | qlineeditext.h:93-94 | without lists, a fixed step whose sum lies in the range gives exactly the sum |
| Stepping.FixedRoundTrip | qlineeditext.h:93-117 | without lists, when x and x + s lie in the range, an increment by s from x gives x + s and a decrement by s from there gives x back (lines 93-94 and 116-117) |
| Stepping.DistinctFirst | qlineeditext.h:104 | in a list without repetitions, position i is the first to hold its element |
| Stepping.ListStepFrom | qlineeditext.h:104 | from the first position i of the current element, a step lands on i + 1 (held at the last) or i - 1 (held at 0) |
| Stepping.ListElementSettles | qlineeditext.h:104 | an element of the value list inside the range is kept by finishEditing |
| Stepping.ValueListStep | qlineeditext.h:103-104 | with the elements in the range, a value-list step followed by the double finish gives the bounded neighbour of the first occurrence of the value |
| Stepping.ValueListNeighbour | qlineeditext.h:103-104 | from the first position i holding the value, a step lands on position i + 1 (held at the last) or i - 1 (held at 0) |
| Stepping.ValueListIncrementUndone | qlineeditext.h:103-127 | below the last position of a value list, a decrement undoes an increment (lines 103-104 and 126-127) |
| Stepping.ValueListDecrementUndone | qlineeditext.h:103-127 | above the first position of a value list, an increment undoes a decrement (lines 103-104 and 126-127) |
| Stepping.ValueListStepping | qlineeditext.h:103-104 | in value-list mode (and lines 126-127 for decrement) with the elements in the range, a step lands on the bounded neighbour, always an element; a value outside the list goes to the first element |
| Stepping.ValueListUndo | qlineeditext.h:91-136 | on the widget, in a value list without repetitions with the elements in the range: from position i, an increment and then a decrement give back element i unless i is last, and a decrement and then an increment give it back unless i is 0 |
| Stepping.TextListStep | qlineeditext.h:105-106 | with the entries in the range, a text-list step followed by the double finish gives the bounded neighbour of the first occurrence of the text |
| Stepping.TextListNeighbour | qlineeditext.h:105-106 | from the first position i holding the text, a step lands on position i + 1 (held at the last) or i - 1 (held at 0) |
| Stepping.TextListStepping | qlineeditext.h:105-106 | in text-list mode (and lines 128-129 for decrement) with the entries in the range, a step lands on the bounded neighbour, always an entry; a text outside the list goes to the first entry |
| Stepping.TextListUndo | qlineeditext.h:91-136 | on the widget, in a text list without repetitions with the entries in the range: from position i, an increment and then a decrement give back entry i unless i is last, and a decrement and then an increment give it back unless i is 0 |
| Stepping.NoModeStepping | qlineeditext.h:91-113 | without a stepping mode a step only finishes the text |

## Left out

- The count mode's stepping (the `pow` curve of lines 95-102 and 118-125) works on doubles with fractional exponents. In the model its branch does nothing, and `setCount` does not store the power.
- The progress display, painting, prefix and suffix layout and `refreshLayout` are rendering code.
- The completer, which `setIncrementable` deletes and `setTextList` and `mouseReleaseEvent` open, is user interface.
- The Win32 touch keyboard is platform input and output.
- `selectAll`, `deselect` and `setCursor` affect only the user interface.
- Qt's event dispatch is not modelled. Each handler is a method whose parameters carry the parts of the event it reads.
- The base-class calls `QLineEdit::…Event` are also not modelled. Typing is `SetText`, and a key other than Up or Down leaves the text alone.
- QLineEdit's own commit of typed text is not modelled. On Return or Enter, and when the widget loses focus, QLineEdit validates or fixes up the text and emits `editingFinished`, which runs `finishEditing` (line 34), locks an incrementable widget and notifies observers. `EmitEditingFinished` models the emission itself.
- Integers are unbounded. The 32-bit `int` arithmetic of the wheel sum (line 183) and of the drag position (line 213) is not modelled, so its overflow is not either. Values are doubles in the C++ code, exact only up to 2^53; the model's integers are exact at every size.
- Mouse buttons are reduced to "the left button alone". The touch point's position is not read, because only the keyboard code uses it.
- `Parse`: `toDouble` on leading or trailing spaces, exponents, decimals, "nan" and "inf" is not modelled. Numbers are integers and the widget has no decimals, so `decimals` is not a field.
- `Lower` folds ASCII letters only.
- `SetDefaultValue` takes a number. The NaN default, which resets `defaultValue` without a value, is absent.
- `ctrlPressed()` reads global keyboard state. Its result is the `ctrl` parameter.
- The widget's own copies of the range and the lists are kept only once, in the validator. Every setter writes both copies of a list alike, and `setIncrementable` clears both, so the copies are always equal and the model reads the validator's where the C++ code reads the widget's: in increment and decrement (lines 103-106 and 126-129) and in `mouseReleaseEvent` (line 201). The widget's copy of the range is read only by the count mode and painting.
- The widget's own `listStrict` is not a field. `setIncrementable` resets only the validator's (lines 67 and 337), and the widget's is never read.
- `SetIncrementDragDistance` requires non-zero distances, because the drag divides by the current one (a zero distance is a division by zero in the C++ code).
- `lastIncrement` is an `int` the C++ code leaves uninitialised until the first press or double click. The model leaves it unconstrained. The drag start is a default `QPoint`, (0, 0).

Two behaviours the code has are kept as written:

- A drag move fires at most one step, even when the step position jumps by more than one (lines 214-215).
- The value-list repair falls back to min(max, last element) using the validator's max, which stays 0 while no range is set (lines 332 and 357). `Validation.ValueListFallbackLeavesList` and `Stepping.DefaultResetFinishesTwice` exhibit the consequence.
