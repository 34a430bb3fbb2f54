/** The line edit's validator (QValidatorExt): it classifies a candidate
    text against an optional strict range, a strict value list or a strict
    text list, and repairs a text that it does not accept. */
module Validation {
  import opened QtText

  /** QValidator::State. The validator never answers Invalid. */
  datatype State = Invalid | Intermediate | Acceptable

  /** The validator's settings. The widget holds its validator by value, so
      here it is a value, and each setter returns the updated settings. */
  datatype ValidatorExt = ValidatorExt(
    min: int, max: int,
    minStrict: bool, maxStrict: bool,
    valueList: seq<int>, textList: seq<string>, listStrict: bool)
  {
    /** Setting one list clears the other. */
    predicate Valid() {
      valueList == [] || textList == []
    }

    /** setRange: the bounds and strict flags become the given ones, and
        the new range takes part exactly when min' < max'; the lists are
        kept. */
    function SetRange(min': int, max': int, minStrict': bool, maxStrict': bool): (r: ValidatorExt)
      ensures r.min == min' && r.max == max' && r.minStrict == minStrict' && r.maxStrict == maxStrict'
      ensures r.valueList == valueList && r.textList == textList && r.listStrict == listStrict
      ensures r.RangeActive() <==> min' < max'
      ensures r.Valid() == Valid()
    {
      this.(min := min', max := max', minStrict := minStrict', maxStrict := maxStrict')
    }

    /** setValueList: the value list and its strictness become the given
        ones, the text list is cleared and the range is kept. */
    function SetValueList(list: seq<int>, strict: bool): (r: ValidatorExt)
      ensures r.valueList == list && r.listStrict == strict && r.textList == []
      ensures r.min == min && r.max == max && r.minStrict == minStrict && r.maxStrict == maxStrict
      ensures r.Valid()
    {
      this.(valueList := list, listStrict := strict, textList := [])
    }

    /** setTextList: the text list and its strictness become the given
        ones, the value list is cleared and the range is kept. */
    function SetTextList(list: seq<string>, strict: bool): (r: ValidatorExt)
      ensures r.textList == list && r.listStrict == strict && r.valueList == []
      ensures r.min == min && r.max == max && r.minStrict == minStrict && r.maxStrict == maxStrict
      ensures r.Valid()
    {
      this.(textList := list, listStrict := strict, valueList := [])
    }

    /** The range takes part only when min < max. */
    predicate RangeActive() {
      min < max
    }

    /** An active range with at least one strict side. */
    predicate RangeStrict() {
      RangeActive() && (minStrict || maxStrict)
    }

    /** x violates neither strict side of the active range. */
    predicate InRange(x: int) {
      !(RangeActive() && minStrict && x < min) && !(RangeActive() && maxStrict && x > max)
    }

    predicate InValueList(x: int) {
      valueList == [] || !listStrict || x in valueList
    }

    predicate InTextList(s: string) {
      textList == [] || !listStrict || s in textList
    }

    /** validate: Intermediate exactly when the parsed number breaks a strict
        side of the range or is missing from a strict value list, or the text
        is missing from a strict text list. */
    function Validate(input: string): (s: State)
      ensures s != Invalid
      ensures s == Acceptable <==> InRange(Parse(input)) && InValueList(Parse(input)) && InTextList(input)
    {
      if min < max && minStrict && Parse(input) < min then Intermediate
      else if min < max && maxStrict && Parse(input) > max then Intermediate
      else if valueList != [] && listStrict && Parse(input) !in valueList then Intermediate
      else if textList != [] && listStrict && input !in textList then Intermediate
      else Acceptable
    }

    /** The number the range part of fixup makes of x: raised to min on a
        strict lower side and lowered to max on a strict upper side. */
    function RangeClamp(x: int): (r: int)
      ensures InRange(r)
      ensures InRange(x) ==> r == x
      ensures RangeActive() && minStrict && maxStrict ==> r == Min(max, Max(min, x))
      ensures RangeActive() && minStrict && !maxStrict ==> r == Max(min, x)
      ensures RangeActive() && !minStrict && maxStrict ==> r == Min(max, x)
      ensures !RangeStrict() ==> r == x
    {
      var a := if min < max && minStrict then Max(min, x) else x;
      if min < max && maxStrict then Min(max, a) else a
    }

    /** The first two steps of fixup: each strict side of an active range
        reformats the text with its bound applied. */
    function RangeRepaired(input: string): string {
      var a := if min < max && minStrict then Format(Max(min, Parse(input))) else input;
      if min < max && maxStrict then Format(Min(max, Parse(a))) else a
    }

    /** The value-list step of fixup. */
    function ValueListRepaired(input: string): string {
      if valueList != [] && listStrict then Format(SnapToList(valueList, Parse(input), max)) else input
    }

    /** The text-list step of fixup. */
    function TextListRepaired(input: string): string {
      if textList != [] && listStrict then MatchInList(textList, input) else input
    }

    /** What fixup makes of input: the range, value-list and text-list steps in turn. */
    function Repaired(input: string): string {
      TextListRepaired(ValueListRepaired(RangeRepaired(input)))
    }

    /** fixup: the range step, then the two searching loops. */
    method Fixup(input: string) returns (output: string)
      ensures output == Repaired(input)
    {
      output := input;
      if min < max && minStrict {
        output := Format(Max(min, Parse(output)));
      }
      if min < max && maxStrict {
        output := Format(Min(max, Parse(output)));
      }
      output := FixupValueList(output);
      output := FixupTextList(output);
    }

    /** The value-list loop of fixup. */
    method FixupValueList(input: string) returns (output: string)
      ensures output == ValueListRepaired(input)
    {
      output := input;
      if valueList != [] && listStrict {
        FirstAboveIs(valueList, Parse(input));
        for i := 0 to |valueList| + 1
          invariant i <= |valueList| ==> output == input
          invariant forall j :: 0 <= j < i && j < |valueList| ==> valueList[j] <= Parse(input)
          invariant i == |valueList| + 1 ==> output == ValueListRepaired(input)
        {
          if i < |valueList| && Parse(output) < valueList[i] {
            output := Format(valueList[Max(i - 1, 0)]);
            break;
          } else if i == |valueList| {
            output := Format(Min(max, valueList[|valueList| - 1]));
          }
        }
      }
    }

    /** The text-list loop of fixup. */
    method FixupTextList(input: string) returns (output: string)
      ensures output == TextListRepaired(input)
    {
      output := input;
      if textList != [] && listStrict {
        FirstContainingIs(textList, Lower(input));
        for i := 0 to |textList| + 1
          invariant i <= |textList| ==> output == input
          invariant forall j :: 0 <= j < i && j < |textList| ==> !Contains(Lower(textList[j]), Lower(input))
          invariant i == |textList| + 1 ==> output == TextListRepaired(input)
        {
          if i < |textList| && Contains(Lower(textList[i]), Lower(output)) {
            output := textList[i];
            break;
          } else if i == |textList| {
            output := textList[0];
          }
        }
      }
    }
  }

  /** The initial settings: no range (min = max = 0), both sides strict,
      no lists, lists strict. */
  const InitialValidator := ValidatorExt(0, 0, true, true, [], [], true)

  /** The position of the first element of list greater than x, or |list|
      when there is none. */
  function FirstAbove(list: seq<int>, x: int): (i: nat)
    ensures i <= |list|
    decreases |list|
  {
    if list == [] || x < list[0] then 0 else 1 + FirstAbove(list[1..], x)
  }

  lemma {:induction false} FirstAboveIs(list: seq<int>, x: int)
    ensures FirstAbove(list, x) < |list| ==> x < list[FirstAbove(list, x)]
    ensures forall j :: 0 <= j < FirstAbove(list, x) ==> list[j] <= x
    decreases |list|
  {
    if list != [] && list[0] <= x {
      FirstAboveIs(list[1..], x);
      assert forall j :: 1 <= j < |list| ==> list[j] == list[1..][j - 1];
    }
  }

  /** The position of the first entry of list whose lower-case form contains
      needle, or |list| when there is none. */
  function FirstContaining(list: seq<string>, needle: string): (i: nat)
    ensures i <= |list|
    decreases |list|
  {
    if list == [] || Contains(Lower(list[0]), needle) then 0 else 1 + FirstContaining(list[1..], needle)
  }

  lemma {:induction false} FirstContainingIs(list: seq<string>, needle: string)
    ensures FirstContaining(list, needle) < |list| ==> Contains(Lower(list[FirstContaining(list, needle)]), needle)
    ensures forall j :: 0 <= j < FirstContaining(list, needle) ==> !Contains(Lower(list[j]), needle)
    decreases |list|
  {
    if list != [] && !Contains(Lower(list[0]), needle) {
      FirstContainingIs(list[1..], needle);
      assert forall j :: 1 <= j < |list| ==> list[j] == list[1..][j - 1];
    }
  }

  /** The value-list step on the number x: the element just before the first
      element greater than x (the first element if that is the first), or
      min(max, last element) when no element is greater than x. */
  function SnapToList(list: seq<int>, x: int, max: int): int
    requires list != []
  {
    var i := FirstAbove(list, x);
    if i < |list| then list[Max(i - 1, 0)] else Min(max, list[|list| - 1])
  }

  /** The snapped number is an element or max, and never above x unless x
      lies below the whole list. */
  lemma SnapToListBounds(list: seq<int>, x: int, max: int)
    requires list != []
    ensures SnapToList(list, x, max) in list || SnapToList(list, x, max) == max
    ensures SnapToList(list, x, max) <= x || (SnapToList(list, x, max) == list[0] && x < list[0])
  {
    FirstAboveIs(list, x);
  }

  /** The text-list step: the first entry whose lower-case form contains the
      lower-case input, or the first entry when none does. */
  function MatchInList(list: seq<string>, input: string): string
    requires list != []
  {
    var i := FirstContaining(list, Lower(input));
    if i < |list| then list[i] else list[0]
  }

  /** Without strict lists, fixup is the two-sided clamp when both sides are
      strict, a one-sided clamp on a single strict side, and the identity when
      no side of an active range is strict. */
  lemma RepairedRange(v: ValidatorExt, s: string)
    requires v.valueList == [] || !v.listStrict
    requires v.textList == [] || !v.listStrict
    ensures v.Repaired(s) == if v.RangeStrict() then Format(v.RangeClamp(Parse(s))) else s
    ensures v.RangeStrict() ==> v.InRange(Parse(v.Repaired(s)))
    ensures v.RangeActive() && v.minStrict && v.maxStrict ==>
      v.min <= Parse(v.Repaired(s)) <= v.max && v.Repaired(s) == Format(Min(v.max, Max(v.min, Parse(s))))
  {
    if v.RangeActive() && v.minStrict {
      ParseFormat(Max(v.min, Parse(s)));
    }
    if v.RangeStrict() {
      ParseFormat(v.RangeClamp(Parse(s)));
    }
  }

  /** With a strict value list, fixup snaps the number left by the range step
      to the element before the first greater one, or to min(max, last). */
  lemma RepairedValueList(v: ValidatorExt, s: string)
    requires v.valueList != [] && v.listStrict && v.textList == []
    ensures var x := Parse(v.RangeRepaired(s));
            var r := Parse(v.Repaired(s));
            var L := v.valueList;
            && v.Repaired(s) == Format(r)
            && (r in L || r == v.max)
            && ((exists i :: 0 <= i < |L| && x < L[i]) ==>
                  exists i :: 0 <= i < |L| && x < L[i] && (forall j :: 0 <= j < i ==> L[j] <= x) && r == L[Max(i - 1, 0)])
            && ((forall i :: 0 <= i < |L| ==> L[i] <= x) ==> r == Min(v.max, L[|L| - 1]))
  {
    var x := Parse(v.RangeRepaired(s));
    var L := v.valueList;
    var k := SnapToList(L, x, v.max);
    ParseFormat(k);
    SnapToListBounds(L, x, v.max);
    FirstAboveIs(L, x);
    var i := FirstAbove(L, x);
    if i < |L| {
      assert x < L[i] && (forall j :: 0 <= j < i ==> L[j] <= x) && k == L[Max(i - 1, 0)];
    }
  }

  /** With a strict text list, fixup yields the first entry that contains the
      text (compared in lower case), or the first entry; always an entry. */
  lemma RepairedTextList(v: ValidatorExt, s: string)
    requires v.Valid() && v.textList != [] && v.listStrict
    ensures var t := Lower(v.RangeRepaired(s));
            var r := v.Repaired(s);
            var L := v.textList;
            && r in L
            && ((exists i :: 0 <= i < |L| && Contains(Lower(L[i]), t)) ==>
                  exists i :: 0 <= i < |L| && r == L[i] && Contains(Lower(L[i]), t) &&
                              forall j :: 0 <= j < i ==> !Contains(Lower(L[j]), t))
            && ((forall i :: 0 <= i < |L| ==> !Contains(Lower(L[i]), t)) ==> r == L[0])
  {
    var t := Lower(v.RangeRepaired(s));
    var L := v.textList;
    FirstContainingIs(L, t);
    var i := FirstContaining(L, t);
    if i < |L| {
      assert v.Repaired(s) == L[i];
    }
  }

  /** When every element of a strict list lies inside the range and a
      strict value list ends at or below max, the validator accepts what
      fixup produces. */
  lemma RepairIsAcceptable(v: ValidatorExt, s: string)
    requires v.Valid()
    requires v.valueList != [] && v.listStrict ==>
      (forall i :: 0 <= i < |v.valueList| ==> v.InRange(v.valueList[i])) && v.valueList[|v.valueList| - 1] <= v.max
    requires v.textList != [] && v.listStrict ==>
      forall i :: 0 <= i < |v.textList| ==> v.InRange(Parse(v.textList[i]))
    ensures v.Validate(v.Repaired(s)) == Acceptable
  {
    if v.valueList != [] && v.listStrict {
      RepairedValueList(v, s);
      var L := v.valueList;
      assert Min(v.max, L[|L| - 1]) == L[|L| - 1];
      ParseFormat(L[|L| - 1]);
      assert Parse(v.Repaired(s)) in L;
    } else if v.textList != [] && v.listStrict {
      RepairedTextList(v, s);
    } else {
      RepairedRange(v, s);
    }
  }

  /** Each setter changes only its own check: setRange keeps both list
      checks; setValueList and setTextList keep the range, make their list
      decide its check and let everything through the other one. */
  lemma SettersKeepOtherChecks(v: ValidatorExt, min': int, max': int, minStrict': bool, maxStrict': bool,
                               values: seq<int>, texts: seq<string>, strict: bool, x: int, t: string)
    ensures var r := v.SetRange(min', max', minStrict', maxStrict');
            r.InValueList(x) == v.InValueList(x) && r.InTextList(t) == v.InTextList(t)
    ensures var r := v.SetValueList(values, strict);
            r.InRange(x) == v.InRange(x) && (r.InValueList(x) <==> values == [] || !strict || x in values) && r.InTextList(t)
    ensures var r := v.SetTextList(texts, strict);
            r.InRange(x) == v.InRange(x) && (r.InTextList(t) <==> texts == [] || !strict || t in texts) && r.InValueList(x)
  {
  }

  /** The value-list fallback uses the validator's max, which stays 0 while no
      range is set: with the list [1, 2, 3], fixup turns "5" into "0", which
      the validator still does not accept. */
  lemma ValueListFallbackLeavesList()
    ensures var v := InitialValidator.SetValueList([1, 2, 3], true);
            v.Repaired("5") == "0" && v.Validate("0") == Intermediate && v.Repaired("0") == "1"
  {
    var v := InitialValidator.SetValueList([1, 2, 3], true);
    assert Parse("5") == 5 by { assert DigitsValue("5") == DigitsValue("") * 10 + 5; }
    assert Parse("0") == 0;
    assert v.Repaired("5") == Format(Min(0, 3));
    assert v.Repaired("0") == Format(1);
  }
}
