/** The earlier input parser `wnd::InputEventParser`
    (`include/Window/InputEventParser.hpp`): the key, button and modifier
    tracking of `EventParser` without the emitters or the cursor position.
    It shares the bitset sizes, the key indexing and the modifier switch
    with `EventParser`. */
module InputEventParser {
  import opened Global
  import opened Events
  import opened Modifiers
  import EventParser

  datatype InputParser = InputParser(
    pressedKeys: set<nat>,
    releasedKeys: set<nat>,
    pressedButtons: set<nat>,
    releasedButtons: set<nat>,
    mods: ModifierState)

  const Init := InputParser({}, {}, {}, {}, NoModifiers)

  predicate IsKeyPressed(p: InputParser, k: Key)
    requires EventParser.KeySlot(k) < EventParser.KEY_SLOTS
  {
    EventParser.KeySlot(k) in p.pressedKeys
  }

  predicate IsKeyReleased(p: InputParser, k: Key)
    requires EventParser.KeySlot(k) < EventParser.KEY_SLOTS
  {
    EventParser.KeySlot(k) in p.releasedKeys
  }

  predicate IsButtonPressed(p: InputParser, b: Button)
    requires b < EventParser.BUTTON_SLOTS
  {
    b in p.pressedButtons
  }

  predicate IsButtonReleased(p: InputParser, b: Button)
    requires b < EventParser.BUTTON_SLOTS
  {
    b in p.releasedButtons
  }

  function GetModifierState(p: InputParser): ModifierState {
    p.mods
  }

  /** `parseEvent`: only keyboard and mouse-button events have an effect. */
  function ParseEvent(p: InputParser, e: Event): (r: InputParser)
    requires EventParser.Accepts(e)
    ensures !e.KeyboardEvent? && !e.MouseButtonEvent? ==> r == p
    ensures forall k :: EventParser.KeySlot(k) < EventParser.KEY_SLOTS ==>
              (IsKeyPressed(r, k) <==>
                 IsKeyPressed(p, k) || (e.KeyboardEvent? && e.state == Pressed && EventParser.KeySlot(k) == EventParser.KeySlot(e.key)))
    ensures forall k :: EventParser.KeySlot(k) < EventParser.KEY_SLOTS ==>
              (IsKeyReleased(r, k) <==>
                 IsKeyReleased(p, k) || (e.KeyboardEvent? && e.state == Released && EventParser.KeySlot(k) == EventParser.KeySlot(e.key)))
    ensures forall b: Button :: b < EventParser.BUTTON_SLOTS ==>
              (IsButtonPressed(r, b) <==> IsButtonPressed(p, b) || (e.MouseButtonEvent? && e.state == Pressed && b == e.button))
    ensures forall b: Button :: b < EventParser.BUTTON_SLOTS ==>
              (IsButtonReleased(r, b) <==> IsButtonReleased(p, b) || (e.MouseButtonEvent? && e.state == Released && b == e.button))
    ensures GetModifierState(r) ==
              (if e.KeyboardEvent? then SwitchOnKey(p.mods, e.key, e.state == Pressed) else p.mods)
  {
    match e
    case KeyboardEvent(k, s) =>
      (match s
       case Pressed =>
         p.(pressedKeys := p.pressedKeys + {EventParser.KeySlot(k)}, mods := SwitchOnKey(p.mods, k, true))
       case Released =>
         p.(releasedKeys := p.releasedKeys + {EventParser.KeySlot(k)}, mods := SwitchOnKey(p.mods, k, false)))
    case MouseButtonEvent(b, s) =>
      (match s
       case Pressed => p.(pressedButtons := p.pressedButtons + {b})
       case Released => p.(releasedButtons := p.releasedButtons + {b}))
    case _ => p
  }

  /** `onLoopEnded`: clears the four bitsets, keeping the modifiers. */
  function OnLoopEnded(p: InputParser): (r: InputParser)
    ensures forall k :: EventParser.KeySlot(k) < EventParser.KEY_SLOTS ==> !IsKeyPressed(r, k) && !IsKeyReleased(r, k)
    ensures forall b: Button :: b < EventParser.BUTTON_SLOTS ==> !IsButtonPressed(r, b) && !IsButtonReleased(r, b)
    ensures GetModifierState(r) == GetModifierState(p)
  {
    p.(pressedKeys := {}, releasedKeys := {}, pressedButtons := {}, releasedButtons := {})
  }

  /** The part of an `EventParser` that an `InputEventParser` also keeps. */
  function Project(p: EventParser.Parser): InputParser {
    InputParser(p.pressedKeys, p.releasedKeys, p.pressedButtons, p.releasedButtons, p.mods)
  }

  /** The older parser is the newer one with the emitters and the cursor
      position removed: both transitions commute with forgetting them, so
      every query answers the same in both parsers after any event. */
  lemma AgreesWithEventParser(p: EventParser.Parser, e: Event)
    requires EventParser.Accepts(e)
    ensures Project(EventParser.ParseEvent(p, e).parser) == ParseEvent(Project(p), e)
    ensures Project(EventParser.OnLoopEnded(p)) == OnLoopEnded(Project(p))
  {
  }
}
