/** The modifier quartet both input parsers keep (`ModifierState` in
    `include/Window/EventParser.hpp` and `include/Window/InputEventParser.hpp`)
    and the `switch` that updates it. The switch's cases have no `break`, so
    entering at one modifier's label also runs the assignments of every
    label below it. */
module Modifiers {
  import opened Wrappers
  import opened Events

  datatype ModifierState = ModifierState(leftCtrl: bool, rightCtrl: bool, leftShift: bool, rightShift: bool)

  /** The default member initialisers: all four flags false. */
  const NoModifiers := ModifierState(false, false, false, false)

  /** The flag at position `i` of the switch (0 = left control, 1 = right
      control, 2 = left shift, 3 = right shift). */
  function Flag(m: ModifierState, i: nat): bool
    requires i < 4
  {
    if i == 0 then m.leftCtrl
    else if i == 1 then m.rightCtrl
    else if i == 2 then m.leftShift
    else m.rightShift
  }

  /** The case body at position `i`: assigns one flag. */
  function SetFlag(m: ModifierState, i: nat, v: bool): (r: ModifierState)
    requires i < 4
  {
    if i == 0 then m.(leftCtrl := v)
    else if i == 1 then m.(rightCtrl := v)
    else if i == 2 then m.(leftShift := v)
    else m.(rightShift := v)
  }

  /** The position of the case label a key enters the switch at, if any. */
  function CaseLabel(k: Key): (r: Option<nat>)
    ensures r.Some? ==> r.value < 4
  {
    if k == LeftControl then Some(0)
    else if k == RightControl then Some(1)
    else if k == LeftShift then Some(2)
    else if k == RightShift then Some(3)
    else None
  }

  /** Runs the case bodies from position `from` to the end of the switch,
      as control does when there is no `break`. */
  function FallThrough(m: ModifierState, from: nat, v: bool): (r: ModifierState)
    requires from <= 4
    ensures forall i :: 0 <= i < 4 ==> Flag(r, i) == (if from <= i then v else Flag(m, i))
    decreases 4 - from
  {
    if from == 4 then m else FallThrough(SetFlag(m, from, v), from + 1, v)
  }

  /** The modifier `switch` on a key event: `v` is true for a press and false
      for a release. A key with no case label reaches only `default`. */
  function SwitchOnKey(m: ModifierState, k: Key, v: bool): (r: ModifierState)
    ensures forall i :: 0 <= i < 4 ==>
              Flag(r, i) == (if CaseLabel(k).Some? && CaseLabel(k).value <= i then v else Flag(m, i))
  {
    match CaseLabel(k)
    case Some(pos) => FallThrough(m, pos, v)
    case None => m
  }

  /** Because of the fall-through, pressing left control sets all four flags,
      pressing right shift sets only its own, and a release clears the same
      flags. The flags therefore do not mean "this key is held", as their
      declarations describe them: pressing only left control reports both
      shift keys as held. */
  lemma FallThroughEffects(m: ModifierState, v: bool)
    ensures SwitchOnKey(m, LeftControl, v) == ModifierState(v, v, v, v)
    ensures SwitchOnKey(m, RightControl, v) == ModifierState(m.leftCtrl, v, v, v)
    ensures SwitchOnKey(m, LeftShift, v) == ModifierState(m.leftCtrl, m.rightCtrl, v, v)
    ensures SwitchOnKey(m, RightShift, v) == m.(rightShift := v)
    ensures SwitchOnKey(NoModifiers, LeftControl, true).leftShift
  {
    var a := SwitchOnKey(m, LeftControl, v);
    assert Flag(a, 0) == v && Flag(a, 1) == v && Flag(a, 2) == v && Flag(a, 3) == v;
    var b := SwitchOnKey(m, RightControl, v);
    assert Flag(b, 0) == Flag(m, 0) && Flag(b, 1) == v && Flag(b, 2) == v && Flag(b, 3) == v;
    var c := SwitchOnKey(m, LeftShift, v);
    assert Flag(c, 0) == Flag(m, 0) && Flag(c, 1) == Flag(m, 1) && Flag(c, 2) == v && Flag(c, 3) == v;
    var d := SwitchOnKey(m, RightShift, v);
    assert Flag(d, 0) == Flag(m, 0) && Flag(d, 1) == Flag(m, 1) && Flag(d, 2) == Flag(m, 2) && Flag(d, 3) == v;
    var e := SwitchOnKey(NoModifiers, LeftControl, true);
    assert Flag(e, 2);
  }

  /** Keys other than the four modifiers leave the modifier state untouched. */
  lemma NonModifierKeepsState(m: ModifierState, k: Key, v: bool)
    requires k !in {LeftControl, RightControl, LeftShift, RightShift}
    ensures SwitchOnKey(m, k, v) == m
  {
  }
}
