/** One iteration of the window loop. The X11 window
    (`src/Window/Linux/X11/Window.cpp`) drains every queued native event into
    a list of translated events, where an untranslated one is null. The
    window manager (`src/Window/WindowManager.cpp`) parses the non-null
    events, lets the application callback read the parser, and ends the frame
    with `onLoopEnded`. The callback is represented by the parser state it
    gets to read. */
module Pipeline {
  import opened Wrappers
  import opened Global
  import opened Modifiers
  import opened Events
  import opened EventTranslator
  import opened EventParser

  /** The translated events of one frame's queue, in queue order, with the
      native events the translator does not handle dropped. */
  function TranslateAll(evs: seq<XEvent>, deleteWindow: uint64): (es: seq<Event>)
    ensures |es| <= |evs|
    ensures (forall i :: 0 <= i < |evs| ==> Handled(evs[i].kind)) ==> |es| == |evs|
    ensures forall j :: 0 <= j < |es| ==> Producible(es[j])
    decreases |evs|
  {
    if |evs| == 0 then []
    else
      var rest := TranslateAll(evs[1..], deleteWindow);
      assert forall i :: 0 <= i < |evs[1..]| ==> evs[1..][i] == evs[i + 1];
      match TranslateEvent(evs[0], deleteWindow)
      case None => rest
      case Some(e) => [e] + rest
  }

  /** A queue of one native event translates to that event's translation. */
  lemma TranslateAllSingle(ev: XEvent, deleteWindow: uint64)
    ensures TranslateAll([ev], deleteWindow) ==
              (if TranslateEvent(ev, deleteWindow).Some? then [TranslateEvent(ev, deleteWindow).value] else [])
  {
  }

  /** Translation distributes over queue concatenation: with
      `TranslateAllSingle`, the result is the translations of the queue's
      events, in queue order. */
  lemma {:induction false} TranslateAllAppend(a: seq<XEvent>, b: seq<XEvent>, deleteWindow: uint64)
    ensures TranslateAll(a + b, deleteWindow) == TranslateAll(a, deleteWindow) + TranslateAll(b, deleteWindow)
    decreases |a|
  {
    if |a| == 0 {
      assert a + b == b;
    } else {
      assert (a + b)[0] == a[0];
      assert (a + b)[1..] == a[1..] + b;
      TranslateAllAppend(a[1..], b, deleteWindow);
    }
  }

  /** The kinds of engine event a frame's outcome depends on. */
  datatype Pattern =
    | KeyOn(k: Key, s: ButtonState)
    | ButtonOn(b: Button, s: ButtonState)
    | AnyKey
    | AnyMotion

  predicate Matches(e: Event, pat: Pattern) {
    match pat
    case KeyOn(k, s) => KeyEventOn(e, k, s)
    case ButtonOn(b, s) => ButtonEventOn(e, b, s)
    case AnyKey => e.KeyboardEvent?
    case AnyMotion => e.MouseMotionEvent?
  }

  /** The native events that translate to an event matching `pat`. */
  predicate NativeMatches(ev: XEvent, pat: Pattern) {
    match pat
    case KeyOn(k, s) =>
      ev.kind == (if s == Pressed then KeyPress else KeyRelease) && KeySlot(ev.keysym) == KeySlot(k)
    case ButtonOn(b, s) =>
      ev.kind == (if s == Pressed then ButtonPress else ButtonRelease) && ev.button !in {4, 5} && ButtonFor(ev.button) == b
    case AnyKey =>
      ev.kind in {KeyPress, KeyRelease}
    case AnyMotion =>
      ev.kind == MotionNotify || (ev.kind == ButtonRelease && ev.button in {4, 5})
  }

  predicate AnyMatch(es: seq<Event>, pat: Pattern) {
    exists j :: 0 <= j < |es| && Matches(es[j], pat)
  }

  predicate AnyNativeMatch(evs: seq<XEvent>, pat: Pattern) {
    exists i :: 0 <= i < |evs| && NativeMatches(evs[i], pat)
  }

  lemma AnyNativeMatchCons(evs: seq<XEvent>, pat: Pattern)
    requires |evs| > 0
    ensures AnyNativeMatch(evs, pat) <==> NativeMatches(evs[0], pat) || AnyNativeMatch(evs[1..], pat)
  {
    if AnyNativeMatch(evs, pat) {
      var i :| 0 <= i < |evs| && NativeMatches(evs[i], pat);
      if i > 0 {
        assert evs[1..][i - 1] == evs[i];
      }
    }
    if AnyNativeMatch(evs[1..], pat) {
      var i :| 0 <= i < |evs[1..]| && NativeMatches(evs[1..][i], pat);
      assert evs[i + 1] == evs[1..][i];
    }
  }

  lemma AnyMatchCons(e: Event, rest: seq<Event>, pat: Pattern)
    ensures AnyMatch([e] + rest, pat) <==> Matches(e, pat) || AnyMatch(rest, pat)
  {
    var es := [e] + rest;
    if AnyMatch(es, pat) {
      var j :| 0 <= j < |es| && Matches(es[j], pat);
      if j > 0 {
        assert rest[j - 1] == es[j];
      }
    }
    if AnyMatch(rest, pat) {
      var j :| 0 <= j < |rest| && Matches(rest[j], pat);
      assert es[j + 1] == rest[j];
    }
    assert es[0] == e;
  }

  /** A native event translates to an event matching `pat` exactly when it
      is one of the native events for `pat`. */
  lemma TranslateMatches(ev: XEvent, deleteWindow: uint64, pat: Pattern)
    ensures TranslateEvent(ev, deleteWindow).Some? && Matches(TranslateEvent(ev, deleteWindow).value, pat) <==>
            NativeMatches(ev, pat)
  {
  }

  /** The translated queue holds an event matching `pat` exactly when the
      native queue holds a native event for `pat`. */
  lemma {:induction false} TranslateAllMatches(evs: seq<XEvent>, deleteWindow: uint64, pat: Pattern)
    ensures AnyMatch(TranslateAll(evs, deleteWindow), pat) <==> AnyNativeMatch(evs, pat)
    decreases |evs|
  {
    if |evs| > 0 {
      var rest := TranslateAll(evs[1..], deleteWindow);
      TranslateAllMatches(evs[1..], deleteWindow, pat);
      TranslateMatches(evs[0], deleteWindow, pat);
      AnyNativeMatchCons(evs, pat);
      match TranslateEvent(evs[0], deleteWindow)
      case None =>
        assert TranslateAll(evs, deleteWindow) == rest;
      case Some(e) =>
        assert TranslateAll(evs, deleteWindow) == [e] + rest;
        AnyMatchCons(e, rest, pat);
    }
  }

  /** A forwarded kind never exceeds the events it counts. */
  lemma {:induction false} CountNotifyingBound(es: seq<Event>)
    ensures CountNotifying(es) <= |es|
    decreases |es|
  {
    if |es| > 0 {
      CountNotifyingBound(es[1..]);
    }
  }

  /** The parser's lemmas over a whole sequence, for every key, button and
      state at once, phrased through patterns. */
  lemma ParseAllOutcome(p: Parser, es: seq<Event>)
    requires forall i :: 0 <= i < |es| ==> Accepts(es[i])
    ensures forall k, s :: KeySlot(k) < KEY_SLOTS ==>
              (KeyBit(ParseAll(p, es).parser, k, s) <==> KeyBit(p, k, s) || AnyMatch(es, KeyOn(k, s)))
    ensures forall b: Button, s :: b < BUTTON_SLOTS ==>
              (ButtonBit(ParseAll(p, es).parser, b, s) <==> ButtonBit(p, b, s) || AnyMatch(es, ButtonOn(b, s)))
    ensures |ParseAll(p, es).emitted| == CountNotifying(es)
    ensures !AnyMatch(es, AnyKey) ==> GetModifierState(ParseAll(p, es).parser) == GetModifierState(p)
    ensures !AnyMatch(es, AnyMotion) ==>
              (ParseAll(p, es).parser.lastX, ParseAll(p, es).parser.lastY) == (p.lastX, p.lastY)
  {
    forall k, s | KeySlot(k) < KEY_SLOTS
      ensures KeyBit(ParseAll(p, es).parser, k, s) <==> KeyBit(p, k, s) || AnyMatch(es, KeyOn(k, s))
    {
      ParseAllKeys(p, es, k, s);
    }
    forall b: Button, s | b < BUTTON_SLOTS
      ensures ButtonBit(ParseAll(p, es).parser, b, s) <==> ButtonBit(p, b, s) || AnyMatch(es, ButtonOn(b, s))
    {
      ParseAllButtons(p, es, b, s);
    }
    ParseAllKeys(p, es, 0, Pressed);
    ParseAllQuiet(p, es);
    assert !AnyMatch(es, AnyKey) ==> forall i :: 0 <= i < |es| ==> !es[i].KeyboardEvent?;
    assert !AnyMatch(es, AnyMotion) ==> forall i :: 0 <= i < |es| ==> !es[i].MouseMotionEvent?;
  }

  /** Every pattern of `TranslateAllMatches`, at once. */
  lemma TranslateAllOutcome(evs: seq<XEvent>, deleteWindow: uint64)
    ensures forall pat :: AnyMatch(TranslateAll(evs, deleteWindow), pat) <==> AnyNativeMatch(evs, pat)
  {
    forall pat ensures AnyMatch(TranslateAll(evs, deleteWindow), pat) <==> AnyNativeMatch(evs, pat) {
      TranslateAllMatches(evs, deleteWindow, pat);
    }
  }

  /** What one frame produces: the parser as the callback sees it, the
      notifications emitted while parsing, and the parser after the frame. */
  datatype Frame = Frame(seen: Parser, emitted: seq<Notification>, after: Parser)

  /** The parser accepts every event the translator makes of the queue. */
  predicate FrameDefined(evs: seq<XEvent>, deleteWindow: uint64) {
    forall i :: 0 <= i < |evs| ==>
      TranslateEvent(evs[i], deleteWindow).Some? ==> Accepts(TranslateEvent(evs[i], deleteWindow).value)
  }

  lemma {:induction false} TranslateAllAccepted(evs: seq<XEvent>, deleteWindow: uint64)
    requires FrameDefined(evs, deleteWindow)
    ensures forall j :: 0 <= j < |TranslateAll(evs, deleteWindow)| ==> Accepts(TranslateAll(evs, deleteWindow)[j])
    decreases |evs|
  {
    if |evs| > 0 {
      assert FrameDefined(evs[1..], deleteWindow) by {
        forall i | 0 <= i < |evs[1..]| ensures evs[1..][i] == evs[i + 1] { }
      }
      TranslateAllAccepted(evs[1..], deleteWindow);
    }
  }

  /** One frame over a drained queue. The callback sees a key or button as
      pressed (released) exactly when it already was or the queue holds a
      native press (release) of it; the modifier flags change only if the
      queue holds a native key event, and the cursor only if it holds a
      motion or a wheel release. The frame emits one notification per
      forwarded translated event, so at most one per native event. After the
      frame no key or button reads as pressed or released, and the modifier
      flags and the cursor are those the callback saw. */
  function RunFrame(p: Parser, evs: seq<XEvent>, deleteWindow: uint64): (f: Frame)
    requires FrameDefined(evs, deleteWindow)
    ensures forall k, s :: KeySlot(k) < KEY_SLOTS ==>
              (KeyBit(f.seen, k, s) <==> KeyBit(p, k, s) || AnyNativeMatch(evs, KeyOn(k, s)))
    ensures forall b: Button, s :: b < BUTTON_SLOTS ==>
              (ButtonBit(f.seen, b, s) <==> ButtonBit(p, b, s) || AnyNativeMatch(evs, ButtonOn(b, s)))
    ensures !AnyNativeMatch(evs, AnyKey) ==> GetModifierState(f.seen) == GetModifierState(p)
    ensures !AnyNativeMatch(evs, AnyMotion) ==> (f.seen.lastX, f.seen.lastY) == (p.lastX, p.lastY)
    ensures |f.emitted| == CountNotifying(TranslateAll(evs, deleteWindow)) <= |evs|
    ensures forall k :: KeySlot(k) < KEY_SLOTS ==> !IsKeyPressed(f.after, k) && !IsKeyReleased(f.after, k)
    ensures forall b: Button :: b < BUTTON_SLOTS ==> !IsButtonPressed(f.after, b) && !IsButtonReleased(f.after, b)
    ensures GetModifierState(f.after) == GetModifierState(f.seen)
    ensures (f.after.lastX, f.after.lastY) == (f.seen.lastX, f.seen.lastY)
    ensures evs == [] ==> f.seen == p && f.emitted == []
  {
    var es := TranslateAll(evs, deleteWindow);
    TranslateAllAccepted(evs, deleteWindow);
    ParseAllOutcome(p, es);
    TranslateAllOutcome(evs, deleteWindow);
    CountNotifyingBound(es);
    var s := ParseAll(p, es);
    Frame(s.parser, s.emitted, OnLoopEnded(s.parser))
  }

  /** A frame over a single native event: the callback sees the parser after
      that event's translation and the frame emits what parsing it emits; an
      event the translator does not handle changes and emits nothing. */
  lemma RunFrameSingle(p: Parser, ev: XEvent, deleteWindow: uint64)
    requires FrameDefined([ev], deleteWindow)
    ensures TranslateEvent(ev, deleteWindow).None? ==>
              RunFrame(p, [ev], deleteWindow).seen == p && RunFrame(p, [ev], deleteWindow).emitted == []
    ensures TranslateEvent(ev, deleteWindow).Some? ==>
              Accepts(TranslateEvent(ev, deleteWindow).value) &&
              Step(RunFrame(p, [ev], deleteWindow).seen, RunFrame(p, [ev], deleteWindow).emitted) ==
                ParseEvent(p, TranslateEvent(ev, deleteWindow).value)
  {
    TranslateAllSingle(ev, deleteWindow);
    assert [ev][0] == ev;
    if TranslateEvent(ev, deleteWindow).Some? {
      ParseAllSingle(p, TranslateEvent(ev, deleteWindow).value);
    }
  }

  /** A frame over a queue `a + b` is seen by the callback as the queue `b`
      parsed from the state `a` leaves, and emits what `a` emits followed by
      what `b` emits. With `RunFrameSingle`, this fixes the content and the
      order of a frame's notifications and the modifier flags and cursor its
      callback sees. */
  lemma RunFrameAppend(p: Parser, a: seq<XEvent>, b: seq<XEvent>, deleteWindow: uint64)
    requires FrameDefined(a + b, deleteWindow)
    ensures FrameDefined(a, deleteWindow) && FrameDefined(b, deleteWindow)
    ensures var first := RunFrame(p, a, deleteWindow);
            var second := RunFrame(first.seen, b, deleteWindow);
            && RunFrame(p, a + b, deleteWindow).seen == second.seen
            && RunFrame(p, a + b, deleteWindow).emitted == first.emitted + second.emitted
  {
    assert forall i :: 0 <= i < |a| ==> a[i] == (a + b)[i];
    assert forall i :: 0 <= i < |b| ==> b[i] == (a + b)[|a| + i];
    TranslateAllAppend(a, b, deleteWindow);
    TranslateAllAccepted(a, deleteWindow);
    TranslateAllAccepted(b, deleteWindow);
    ParseAllAppend(p, TranslateAll(a, deleteWindow), TranslateAll(b, deleteWindow));
  }

  /** A delete-window message in the middle of a queue emits its
      `CloseRequested` between what the events before it and the events
      after it emit. */
  lemma CloseInQueue(p: Parser, a: seq<XEvent>, ev: XEvent, b: seq<XEvent>, deleteWindow: uint64)
    requires FrameDefined(a + [ev] + b, deleteWindow)
    requires ev.kind == ClientMessage && ToUint64(ev.data0) == deleteWindow
    ensures FrameDefined(a, deleteWindow) && FrameDefined(b, deleteWindow)
    ensures var before := RunFrame(p, a, deleteWindow);
            RunFrame(p, a + [ev] + b, deleteWindow).emitted ==
              before.emitted + [CloseRequested] + RunFrame(before.seen, b, deleteWindow).emitted
  {
    RunFrameAppend(p, a + [ev], b, deleteWindow);
    RunFrameAppend(p, a, [ev], deleteWindow);
    var before := RunFrame(p, a, deleteWindow);
    RunFrameSingle(before.seen, ev, deleteWindow);
  }

  /** A left-control press that ends a frame's queue is visible to that
      frame's callback: with the fall-through switch, all four modifier
      flags read as set. */
  lemma ModifierFrame(p: Parser, a: seq<XEvent>, ev: XEvent, deleteWindow: uint64)
    requires FrameDefined(a + [ev], deleteWindow)
    requires ev.kind == KeyPress && ev.keysym == LeftControl
    ensures GetModifierState(RunFrame(p, a + [ev], deleteWindow).seen) == ModifierState(true, true, true, true)
  {
    RunFrameAppend(p, a, [ev], deleteWindow);
    RunFrameSingle(RunFrame(p, a, deleteWindow).seen, ev, deleteWindow);
    FallThroughEffects(RunFrame(p, a, deleteWindow).seen.mods, true);
  }

  /** A wheel-up press emits exactly one scroll notification, one notch up.
      The matching release is not silent: it arrives at the parser as a
      motion event and emits a mouse-moved notification. */
  lemma WheelScenario(p: Parser, ev: XEvent, deleteWindow: uint64)
    requires ev.button == 4
    ensures ev.kind == ButtonPress ==>
              RunFrame(p, [ev], deleteWindow).emitted == [CursorScrolled(ScrollEvent(1))]
    ensures ev.kind == ButtonRelease ==>
              |RunFrame(p, [ev], deleteWindow).emitted| == 1 &&
              RunFrame(p, [ev], deleteWindow).emitted[0].MouseMoved?
  {
  }

  /** The translator maps native button 9 to `Side2`, whose code 5 is one
      past the end of the parser's five-slot button set, so a frame with a
      side-button-2 event is not defined: the bit set throws inside a
      `noexcept` member. Native buttons 8 (`Side1`) and 1 to 3 are defined. */
  lemma SideButtonTwoOverflows(ev: XEvent, deleteWindow: uint64)
    requires ev.kind in {ButtonPress, ButtonRelease}
    ensures ev.button == 9 ==> !FrameDefined([ev], deleteWindow)
    ensures ev.button in {1, 2, 3, 8} ==> FrameDefined([ev], deleteWindow)
  {
    if ev.button == 9 {
      assert [ev][0] == ev;
    }
  }

  /** A key pressed anywhere in a frame's queue reads as pressed to that
      frame's callback and as not pressed once the frame has ended. */
  lemma KeyFrame(p: Parser, evs: seq<XEvent>, i: nat, deleteWindow: uint64)
    requires FrameDefined(evs, deleteWindow)
    requires i < |evs| && evs[i].kind == KeyPress && KeySlot(evs[i].keysym) < KEY_SLOTS
    ensures IsKeyPressed(RunFrame(p, evs, deleteWindow).seen, evs[i].keysym)
    ensures !IsKeyPressed(RunFrame(p, evs, deleteWindow).after, evs[i].keysym)
  {
    assert NativeMatches(evs[i], KeyOn(evs[i].keysym, Pressed));
    assert KeyBit(RunFrame(p, evs, deleteWindow).seen, evs[i].keysym, Pressed);
  }

  /** A close request from the window manager reaches the close emitter. */
  lemma CloseFrame(p: Parser, ev: XEvent, deleteWindow: uint64)
    requires ev.kind == ClientMessage && ToUint64(ev.data0) == deleteWindow
    ensures RunFrame(p, [ev], deleteWindow).emitted == [CloseRequested]
  {
  }
}
