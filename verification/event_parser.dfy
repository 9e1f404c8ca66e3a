/** The input-state aggregator `wnd::EventParser` (`include/Window/EventParser.hpp`).
    The parser is a value; `ParseEvent` and `OnLoopEnded` are transitions.
    Notifications the parser emits on its four emitters are returned as a
    trace, in emission order. */
module EventParser {
  import opened Global
  import opened Events
  import opened Modifiers

  /** `std::bitset<0xFF>` for keys and `std::bitset<5>` for mouse buttons. */
  const KEY_SLOTS: nat := 0xFF
  const BUTTON_SLOTS: nat := 5

  /** The bit a key occupies: the parser indexes its bitsets with
      `static_cast<uint8>(key)`. */
  function KeySlot(k: Key): uint8 {
    ToUint8(k)
  }

  /** `bitset::set` and `bitset::test` throw on an index past the end, and the
      parser's members are `noexcept`, so an out-of-range index terminates the
      program. The parser is only defined on events whose index fits. Note that
      `Side2` (code 5) never fits a five-slot button set. */
  predicate Accepts(e: Event) {
    match e
    case KeyboardEvent(k, _) => KeySlot(k) < KEY_SLOTS
    case MouseButtonEvent(b, _) => b < BUTTON_SLOTS
    case _ => true
  }

  /** One notification on one of the parser's emitters. */
  datatype Notification =
    | WindowResized(resize: Event)
    | MouseMoved(dx: int32, dy: int32)
    | CursorScrolled(scroll: Event)
    | CloseRequested

  /** The parser's state: the four bitsets as sets of set bits, the modifier
      quartet and the last cursor position. */
  datatype Parser = Parser(
    pressedKeys: set<nat>,
    releasedKeys: set<nat>,
    pressedButtons: set<nat>,
    releasedButtons: set<nat>,
    mods: ModifierState,
    lastX: int32,
    lastY: int32)

  /** Every set bit lies inside its bitset. */
  predicate Valid(p: Parser) {
    && (forall s :: s in p.pressedKeys ==> s < KEY_SLOTS)
    && (forall s :: s in p.releasedKeys ==> s < KEY_SLOTS)
    && (forall s :: s in p.pressedButtons ==> s < BUTTON_SLOTS)
    && (forall s :: s in p.releasedButtons ==> s < BUTTON_SLOTS)
  }

  /** A freshly constructed parser. The constructor sets no cursor
      position; the window manager value-initialises its parser
      (`m_eventParser()` in `src/Window/WindowManager.cpp`), which starts it
      at (0, 0). The position is a parameter here, so `Init(0, 0)` is that
      construction. */
  function Init(lastX: int32, lastY: int32): (p: Parser)
    ensures Valid(p)
    ensures forall k :: KeySlot(k) < KEY_SLOTS ==> !IsKeyPressed(p, k) && !IsKeyReleased(p, k)
    ensures forall b: Button :: b < BUTTON_SLOTS ==> !IsButtonPressed(p, b) && !IsButtonReleased(p, b)
    ensures GetModifierState(p) == NoModifiers
    ensures (p.lastX, p.lastY) == (lastX, lastY)
  {
    Parser({}, {}, {}, {}, NoModifiers, lastX, lastY)
  }

  /** `isPressed(Key)`. */
  predicate IsKeyPressed(p: Parser, k: Key)
    requires KeySlot(k) < KEY_SLOTS
  {
    KeySlot(k) in p.pressedKeys
  }

  /** `isReleased(Key)`. */
  predicate IsKeyReleased(p: Parser, k: Key)
    requires KeySlot(k) < KEY_SLOTS
  {
    KeySlot(k) in p.releasedKeys
  }

  /** `isPressed(Button)`. */
  predicate IsButtonPressed(p: Parser, b: Button)
    requires b < BUTTON_SLOTS
  {
    b in p.pressedButtons
  }

  /** `isReleased(Button)`. */
  predicate IsButtonReleased(p: Parser, b: Button)
    requires b < BUTTON_SLOTS
  {
    b in p.releasedButtons
  }

  /** `getModifierState`. */
  function GetModifierState(p: Parser): ModifierState {
    p.mods
  }

  /** The result of one transition: the new parser and what it emitted. */
  datatype Step = Step(parser: Parser, emitted: seq<Notification>)

  /** `parseEvent`. Keyboard and mouse-button events update the bitsets
      (and, for keys, the modifier switch); the other four kinds are
      forwarded on their emitter, a motion event as the delta from the last
      cursor position, computed in 32-bit two's complement. */
  function ParseEvent(p: Parser, e: Event): (r: Step)
    requires Accepts(e)
    ensures Valid(p) ==> Valid(r.parser)
    // keys: exactly the event's key bit is added to the set its state selects
    ensures forall k :: KeySlot(k) < KEY_SLOTS ==>
              (IsKeyPressed(r.parser, k) <==>
                 IsKeyPressed(p, k) || (e.KeyboardEvent? && e.state == Pressed && KeySlot(k) == KeySlot(e.key)))
    ensures forall k :: KeySlot(k) < KEY_SLOTS ==>
              (IsKeyReleased(r.parser, k) <==>
                 IsKeyReleased(p, k) || (e.KeyboardEvent? && e.state == Released && KeySlot(k) == KeySlot(e.key)))
    // buttons: likewise
    ensures forall b: Button :: b < BUTTON_SLOTS ==>
              (IsButtonPressed(r.parser, b) <==>
                 IsButtonPressed(p, b) || (e.MouseButtonEvent? && e.state == Pressed && b == e.button))
    ensures forall b: Button :: b < BUTTON_SLOTS ==>
              (IsButtonReleased(r.parser, b) <==>
                 IsButtonReleased(p, b) || (e.MouseButtonEvent? && e.state == Released && b == e.button))
    // modifiers change only through the switch on a key event
    ensures GetModifierState(r.parser) ==
              (if e.KeyboardEvent? then SwitchOnKey(p.mods, e.key, e.state == Pressed) else p.mods)
    // the cursor position changes only on motion, to the event's position
    ensures (r.parser.lastX, r.parser.lastY) ==
              (if e.MouseMotionEvent? then e.Pos() else (p.lastX, p.lastY))
    // state-carrying events emit nothing; the others emit exactly once
    ensures |r.emitted| == (if e.KeyboardEvent? || e.MouseButtonEvent? then 0 else 1)
    ensures e.ScrollEvent? ==> r.emitted == [CursorScrolled(e)]
    ensures e.ResizeEvent? ==> r.emitted == [WindowResized(e)]
    ensures e.CloseRequestedEvent? ==> r.emitted == [CloseRequested]
    ensures e.MouseMotionEvent? ==> r.emitted[0].MouseMoved?
  {
    match e
    case KeyboardEvent(k, s) =>
      (match s
       case Pressed =>
         Step(p.(pressedKeys := p.pressedKeys + {KeySlot(k)}, mods := SwitchOnKey(p.mods, k, true)), [])
       case Released =>
         Step(p.(releasedKeys := p.releasedKeys + {KeySlot(k)}, mods := SwitchOnKey(p.mods, k, false)), []))
    case MouseButtonEvent(b, s) =>
      (match s
       case Pressed => Step(p.(pressedButtons := p.pressedButtons + {b}), [])
       case Released => Step(p.(releasedButtons := p.releasedButtons + {b}), []))
    case ScrollEvent(_) =>
      Step(p, [CursorScrolled(e)])
    case ResizeEvent(_, _) =>
      Step(p, [WindowResized(e)])
    case MouseMotionEvent(x, y) =>
      var dx := WrapInt32(x - p.lastX);
      var dy := WrapInt32(y - p.lastY);
      Step(p.(lastX := x, lastY := y), [MouseMoved(dx, dy)])
    case CloseRequestedEvent =>
      Step(p, [CloseRequested])
  }

  /** `onLoopEnded`: clears the four bitsets, keeping the modifiers and the
      cursor position. */
  function OnLoopEnded(p: Parser): (r: Parser)
    ensures Valid(r)
    ensures forall k :: KeySlot(k) < KEY_SLOTS ==> !IsKeyPressed(r, k) && !IsKeyReleased(r, k)
    ensures forall b: Button :: b < BUTTON_SLOTS ==> !IsButtonPressed(r, b) && !IsButtonReleased(r, b)
    ensures GetModifierState(r) == GetModifierState(p)
    ensures (r.lastX, r.lastY) == (p.lastX, p.lastY)
  {
    p.(pressedKeys := {}, releasedKeys := {}, pressedButtons := {}, releasedButtons := {})
  }

  /** The motion delta and the new position: adding the emitted delta to the
      previous position gives back the event's position, and when the exact
      difference fits in 32 bits the delta is that difference. */
  lemma MotionDelta(p: Parser, x: int32, y: int32)
    ensures var r := ParseEvent(p, MouseMotionEvent(x, y));
            && r.emitted[0].MouseMoved?
            && WrapInt32(p.lastX + r.emitted[0].dx) == x
            && WrapInt32(p.lastY + r.emitted[0].dy) == y
            && (-0x8000_0000 <= x - p.lastX < 0x8000_0000 ==> r.emitted[0].dx == x - p.lastX)
            && (-0x8000_0000 <= y - p.lastY < 0x8000_0000 ==> r.emitted[0].dy == y - p.lastY)
  {
    var r := ParseEvent(p, MouseMotionEvent(x, y));
    var dx := WrapInt32(x - p.lastX);
    var dy := WrapInt32(y - p.lastY);
    assert r.emitted[0] == MouseMoved(dx, dy);
    WrapInt32Congruent(p.lastX + dx, x);
    WrapInt32Congruent(p.lastY + dy, y);
  }

  /** From a last position of (10, 10), a motion to (15, 7) emits (5, -3)
      and stores (15, 7). */
  lemma MotionExample(p: Parser)
    requires p.lastX == 10 && p.lastY == 10
    ensures ParseEvent(p, MouseMotionEvent(15, 7)).emitted == [MouseMoved(5, -3)]
    ensures ParseEvent(p, MouseMotionEvent(15, 7)).parser.lastX == 15
    ensures ParseEvent(p, MouseMotionEvent(15, 7)).parser.lastY == 7
  {
  }

  /** Parses a sequence of events in order, concatenating what they emit. */
  function ParseAll(p: Parser, es: seq<Event>): Step
    requires forall i :: 0 <= i < |es| ==> Accepts(es[i])
    decreases |es|
  {
    if |es| == 0 then Step(p, [])
    else
      var s := ParseEvent(p, es[0]);
      var t := ParseAll(s.parser, es[1..]);
      Step(t.parser, s.emitted + t.emitted)
  }

  /** Parsing a one-event sequence is parsing that event. */
  lemma ParseAllSingle(p: Parser, e: Event)
    requires Accepts(e)
    ensures ParseAll(p, [e]) == ParseEvent(p, e)
  {
  }

  /** Parsing distributes over concatenation: the second part is parsed
      from the state the first part leaves, and the traces are joined in
      order. With `ParseAllSingle`, this fixes the content and the order of
      everything a sequence emits. */
  lemma {:induction false} ParseAllAppend(p: Parser, a: seq<Event>, b: seq<Event>)
    requires forall i :: 0 <= i < |a| ==> Accepts(a[i])
    requires forall i :: 0 <= i < |b| ==> Accepts(b[i])
    ensures forall i :: 0 <= i < |a + b| ==> Accepts((a + b)[i])
    ensures var first := ParseAll(p, a);
            var second := ParseAll(first.parser, b);
            ParseAll(p, a + b) == Step(second.parser, first.emitted + second.emitted)
    decreases |a|
  {
    if |a| == 0 {
      assert a + b == b;
    } else {
      var s := ParseEvent(p, a[0]);
      assert (a + b)[0] == a[0];
      assert (a + b)[1..] == a[1..] + b;
      ParseAllAppend(s.parser, a[1..], b);
      var first := ParseAll(s.parser, a[1..]);
      var second := ParseAll(first.parser, b);
      assert s.emitted + (first.emitted + second.emitted) == (s.emitted + first.emitted) + second.emitted;
    }
  }

  /** True for the event kinds that are forwarded to an emitter. */
  predicate Notifies(e: Event) {
    !e.KeyboardEvent? && !e.MouseButtonEvent?
  }

  /** The number of forwarded events in a sequence. */
  function CountNotifying(es: seq<Event>): nat {
    if |es| == 0 then 0 else (if Notifies(es[0]) then 1 else 0) + CountNotifying(es[1..])
  }

  /** A keyboard event on `k`'s bit with state `s`. */
  predicate KeyEventOn(e: Event, k: Key, s: ButtonState) {
    e.KeyboardEvent? && e.state == s && KeySlot(e.key) == KeySlot(k)
  }

  /** A mouse-button event on button `b` with state `s`. */
  predicate ButtonEventOn(e: Event, b: Button, s: ButtonState) {
    e.MouseButtonEvent? && e.state == s && e.button == b
  }

  /** `isPressed(Key)` or `isReleased(Key)`, as `s` selects. */
  predicate KeyBit(p: Parser, k: Key, s: ButtonState)
    requires KeySlot(k) < KEY_SLOTS
  {
    if s == Pressed then IsKeyPressed(p, k) else IsKeyReleased(p, k)
  }

  /** `isPressed(Button)` or `isReleased(Button)`, as `s` selects. */
  predicate ButtonBit(p: Parser, b: Button, s: ButtonState)
    requires b < BUTTON_SLOTS
  {
    if s == Pressed then IsButtonPressed(p, b) else IsButtonReleased(p, b)
  }

  /** Within one frame, a key reads as pressed (released) exactly when it
      already did or some event of the frame pressed (released) a key on the
      same bit, and the trace holds one notification per forwarded event. */
  lemma {:induction false} ParseAllKeys(p: Parser, es: seq<Event>, k: Key, s: ButtonState)
    requires forall i :: 0 <= i < |es| ==> Accepts(es[i])
    requires KeySlot(k) < KEY_SLOTS
    ensures KeyBit(ParseAll(p, es).parser, k, s) <==>
              KeyBit(p, k, s) || exists i :: 0 <= i < |es| && KeyEventOn(es[i], k, s)
    ensures |ParseAll(p, es).emitted| == CountNotifying(es)
    decreases |es|
  {
    if |es| > 0 {
      var q := ParseEvent(p, es[0]).parser;
      ParseAllKeys(q, es[1..], k, s);
      assert KeyBit(q, k, s) <==> KeyBit(p, k, s) || KeyEventOn(es[0], k, s);
      if exists i :: 0 <= i < |es[1..]| && KeyEventOn(es[1..][i], k, s) {
        var i :| 0 <= i < |es[1..]| && KeyEventOn(es[1..][i], k, s);
        assert KeyEventOn(es[i + 1], k, s);
      }
      if exists i :: 0 <= i < |es| && KeyEventOn(es[i], k, s) {
        var i :| 0 <= i < |es| && KeyEventOn(es[i], k, s);
        if i > 0 {
          assert KeyEventOn(es[1..][i - 1], k, s);
        }
      }
    }
  }

  /** Within one frame, a button reads as pressed (released) exactly when it
      already did or some event of the frame pressed (released) it. */
  lemma {:induction false} ParseAllButtons(p: Parser, es: seq<Event>, b: Button, s: ButtonState)
    requires forall i :: 0 <= i < |es| ==> Accepts(es[i])
    requires b < BUTTON_SLOTS
    ensures ButtonBit(ParseAll(p, es).parser, b, s) <==>
              ButtonBit(p, b, s) || exists i :: 0 <= i < |es| && ButtonEventOn(es[i], b, s)
    decreases |es|
  {
    if |es| > 0 {
      var q := ParseEvent(p, es[0]).parser;
      ParseAllButtons(q, es[1..], b, s);
      assert ButtonBit(q, b, s) <==> ButtonBit(p, b, s) || ButtonEventOn(es[0], b, s);
      if exists i :: 0 <= i < |es[1..]| && ButtonEventOn(es[1..][i], b, s) {
        var i :| 0 <= i < |es[1..]| && ButtonEventOn(es[1..][i], b, s);
        assert ButtonEventOn(es[i + 1], b, s);
      }
      if exists i :: 0 <= i < |es| && ButtonEventOn(es[i], b, s) {
        var i :| 0 <= i < |es| && ButtonEventOn(es[i], b, s);
        if i > 0 {
          assert ButtonEventOn(es[1..][i - 1], b, s);
        }
      }
    }
  }

  /** Only keyboard events reach the modifier switch, and only motion events
      move the cursor: a frame without them keeps the modifier flags, or the
      cursor position, as they were. */
  lemma {:induction false} ParseAllQuiet(p: Parser, es: seq<Event>)
    requires forall i :: 0 <= i < |es| ==> Accepts(es[i])
    ensures (forall i :: 0 <= i < |es| ==> !es[i].KeyboardEvent?) ==>
              GetModifierState(ParseAll(p, es).parser) == GetModifierState(p)
    ensures (forall i :: 0 <= i < |es| ==> !es[i].MouseMotionEvent?) ==>
              (ParseAll(p, es).parser.lastX, ParseAll(p, es).parser.lastY) == (p.lastX, p.lastY)
    decreases |es|
  {
    if |es| > 0 {
      ParseAllQuiet(ParseEvent(p, es[0]).parser, es[1..]);
      assert forall i :: 0 <= i < |es[1..]| ==> es[1..][i] == es[i + 1];
    }
  }

  /** Press state is edge-triggered: a key pressed in one frame reads as
      pressed until the end of that frame and not in the frames after it. */
  lemma EdgeTriggeredReset(p: Parser, k: Key)
    requires KeySlot(k) < KEY_SLOTS
    ensures var a := ParseEvent(p, KeyboardEvent(k, Pressed)).parser;
            && IsKeyPressed(a, k)
            && !IsKeyPressed(OnLoopEnded(a), k)
            && !IsKeyPressed(OnLoopEnded(OnLoopEnded(a)), k)
  {
  }

  /** Modifier state persists across frames: after a left-control press and
      the end of the frame the flag is still set, and only a release clears it. */
  lemma ModifierPersistence(p: Parser)
    ensures var a := OnLoopEnded(ParseEvent(p, KeyboardEvent(LeftControl, Pressed)).parser);
            && GetModifierState(a).leftCtrl
            && !GetModifierState(ParseEvent(a, KeyboardEvent(LeftControl, Released)).parser).leftCtrl
  {
    FallThroughEffects(p.mods, true);
    var a := OnLoopEnded(ParseEvent(p, KeyboardEvent(LeftControl, Pressed)).parser);
    FallThroughEffects(a.mods, false);
  }
}
