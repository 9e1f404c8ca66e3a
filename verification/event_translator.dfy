/** The X11 event translator (`src/Window/Linux/X11/EventTranslator.cpp`):
    a pure map from a native event record to an optional engine event.
    The native `XEvent` is a C union; here it is one flat record with one
    field per union member the translator reads. The fields are independent,
    so on the fall-through from a client message into the `Expose` case the
    size fields are left unconstrained rather than derived from the message
    bytes. The `WM_DELETE_WINDOW` atom,
    which the translator's constructor fetches from the display, is a
    parameter, and `XLookupKeysym` is represented by the record's `keysym`. */
module EventTranslator {
  import opened Wrappers
  import opened Global
  import opened Events

  /** Native event type codes, from the X11 core protocol. */
  const KeyPress: int := 2
  const KeyRelease: int := 3
  const ButtonPress: int := 4
  const ButtonRelease: int := 5
  const MotionNotify: int := 6
  const Expose: int := 12
  const ClientMessage: int := 33

  /** The fields of the native event the translator reads:
      `xbutton.button`, `xmotion.x`/`y`, the looked-up keysym,
      `xclient.data.l[0]` and `xexpose.width`/`height`. */
  datatype XEvent = XEvent(
    kind: int,
    button: uint32,
    x: int32,
    y: int32,
    keysym: nat,
    data0: int64,
    width: int32,
    height: int32)

  predicate Handled(kind: int) {
    kind in {KeyPress, KeyRelease, ButtonPress, ButtonRelease, MotionNotify, Expose, ClientMessage}
  }

  /** `static_cast<Button>(raw)`: the enumeration's underlying type is
      `uint8`, so the raw code is reduced modulo 256 without any check. */
  function CastButton(raw: uint32): (b: Button)
    ensures raw < 0x100 ==> b == raw
  {
    ToUint8(raw)
  }

  /** The engine button a native code other than a wheel code becomes:
      8 and 9 are the side buttons, and any other code is cast. */
  function ButtonFor(raw: uint32): (b: Button)
    ensures raw == 8 ==> b == Side1
    ensures raw == 9 ==> b == Side2
    ensures raw !in {8, 9} ==> b == raw % 0x100
  {
    if raw == 8 then Side1 else if raw == 9 then Side2 else CastButton(raw)
  }

  /** The `MotionNotify` case. */
  function FromMotion(ev: XEvent): Option<Event> {
    Some(MouseMotionEvent(ev.x, ev.y))
  }

  /** The `Expose` case: the signed native size is converted to `uint32`. */
  function FromExpose(ev: XEvent): Option<Event> {
    Some(ResizeEvent(ToUint32(ev.width), ToUint32(ev.height)))
  }

  /** `translateEvent`. Each arm follows one `case` of the source switch;
      where a case has no `return` on some path, control continues into the
      next case, so that arm ends in the next case's function:
      a wheel release (button 4 or 5) continues into `MotionNotify`, and a
      client message other than the delete request continues into `Expose`. */
  function TranslateEvent(ev: XEvent, deleteWindow: uint64): (r: Option<Event>)
    ensures r.None? <==> !Handled(ev.kind)
    ensures r.Some? && r.value.ScrollEvent? <==> ev.kind == ButtonPress && ev.button in {4, 5}
    ensures r.Some? && r.value.CloseRequestedEvent? <==>
              ev.kind == ClientMessage && ToUint64(ev.data0) == deleteWindow
    ensures r.Some? && r.value.MouseMotionEvent? <==>
              ev.kind == MotionNotify || (ev.kind == ButtonRelease && ev.button in {4, 5})
    ensures r.Some? && r.value.MouseButtonEvent? ==>
              r.value.state == (if ev.kind == ButtonPress then Pressed else Released)
    ensures r.Some? && r.value.KeyboardEvent? <==> ev.kind in {KeyPress, KeyRelease}
    ensures ev.kind in {KeyPress, KeyRelease} ==>
              r == Some(KeyboardEvent(ev.keysym, if ev.kind == KeyPress then Pressed else Released))
    ensures ev.kind == MotionNotify ==> r == Some(MouseMotionEvent(ev.x, ev.y))
    ensures ev.kind == Expose ==> r == Some(ResizeEvent(ToUint32(ev.width), ToUint32(ev.height)))
    ensures ev.kind in {ButtonPress, ButtonRelease} && ev.button !in {4, 5} ==>
              r == Some(MouseButtonEvent(ButtonFor(ev.button), if ev.kind == ButtonPress then Pressed else Released))
  {
    if ev.kind == ButtonPress then
      if ev.button == 4 then Some(ScrollEvent(1))
      else if ev.button == 5 then Some(ScrollEvent(-1))
      else if ev.button == 8 then Some(MouseButtonEvent(Side1, Pressed))
      else if ev.button == 9 then Some(MouseButtonEvent(Side2, Pressed))
      else Some(MouseButtonEvent(CastButton(ev.button), Pressed))
    else if ev.kind == ButtonRelease then
      if ev.button == 4 || ev.button == 5 then FromMotion(ev)
      else if ev.button == 8 then Some(MouseButtonEvent(Side1, Released))
      else if ev.button == 9 then Some(MouseButtonEvent(Side2, Released))
      else Some(MouseButtonEvent(CastButton(ev.button), Released))
    else if ev.kind == MotionNotify then
      FromMotion(ev)
    else if ev.kind == KeyPress then
      Some(KeyboardEvent(ev.keysym, Pressed))
    else if ev.kind == KeyRelease then
      Some(KeyboardEvent(ev.keysym, Released))
    else if ev.kind == ClientMessage then
      if ToUint64(ev.data0) == deleteWindow then Some(CloseRequestedEvent) else FromExpose(ev)
    else if ev.kind == Expose then
      FromExpose(ev)
    else
      None
  }

  /** The events the translator can produce: every event except a scroll
      whose delta is not one notch up or down. */
  predicate Producible(e: Event) {
    e.ScrollEvent? ==> e.delta in {1, -1}
  }

  /** A native record the X server could send for a given engine event: the
      inverse direction of the translator. Side buttons come from 8 and 9;
      the engine codes 4, 5, 8 and 9, whose native codes are taken by the
      wheel and side buttons, are reached through a raw code 256 higher,
      which the `uint8` cast folds back. */
  function Encode(e: Event, deleteWindow: uint64): (ev: XEvent)
    requires Producible(e)
  {
    match e
    case KeyboardEvent(k, s) =>
      XEvent(if s == Pressed then KeyPress else KeyRelease, 0, 0, 0, k, 0, 0, 0)
    case MouseButtonEvent(b, s) =>
      var raw := if b == Side1 then 8 else if b == Side2 then 9 else if b in {4, 5, 8, 9} then b + 0x100 else b;
      XEvent(if s == Pressed then ButtonPress else ButtonRelease, raw, 0, 0, 0, 0, 0, 0)
    case MouseMotionEvent(x, y) =>
      XEvent(MotionNotify, 0, x, y, 0, 0, 0, 0)
    case ScrollEvent(d) =>
      XEvent(ButtonPress, if d == 1 then 4 else 5, 0, 0, 0, 0, 0, 0)
    case ResizeEvent(w, h) =>
      XEvent(Expose, 0, 0, 0, 0, 0, WrapInt32(w), WrapInt32(h))
    case CloseRequestedEvent =>
      XEvent(ClientMessage, 0, 0, 0, 0, if deleteWindow < 0x8000_0000_0000_0000 then deleteWindow else deleteWindow - 0x1_0000_0000_0000_0000, 0, 0)
  }

  /** Converting a wrapped 32-bit value back to unsigned restores it. */
  lemma Uint32RoundTrip(w: uint32)
    ensures ToUint32(WrapInt32(w)) == w
  {
  }

  /** Every producible event is produced from its encoding: the translator
      reaches every engine event except scrolls of other sizes. */
  lemma TranslateEncode(e: Event, deleteWindow: uint64)
    requires Producible(e)
    ensures TranslateEvent(Encode(e, deleteWindow), deleteWindow) == Some(e)
  {
    match e
    case ResizeEvent(w, h) =>
      Uint32RoundTrip(w);
      Uint32RoundTrip(h);
    case _ =>
  }

  /** Conversely, everything the translator produces is producible. Together
      with `TranslateEncode` this characterises the translator's image. */
  lemma TranslateProducible(ev: XEvent, deleteWindow: uint64)
    ensures TranslateEvent(ev, deleteWindow).Some? ==> Producible(TranslateEvent(ev, deleteWindow).value)
  {
  }

  /** Wheel buttons: a press of 4 scrolls up by one, a press of 5 scrolls down
      by one, and their release is not suppressed but yields a motion event at
      the pointer position of the release. */
  lemma WheelButtons(ev: XEvent, deleteWindow: uint64)
    requires ev.button in {4, 5}
    ensures ev.kind == ButtonPress ==>
              TranslateEvent(ev, deleteWindow) == Some(ScrollEvent(if ev.button == 4 then 1 else -1))
    ensures ev.kind == ButtonPress && ev.button == 4 ==> TranslateEvent(ev, deleteWindow).value.IsUp()
    ensures ev.kind == ButtonPress && ev.button == 5 ==> TranslateEvent(ev, deleteWindow).value.IsDown()
    ensures ev.kind == ButtonRelease ==>
              TranslateEvent(ev, deleteWindow) == Some(MouseMotionEvent(ev.x, ev.y))
  {
  }

  /** Side buttons 8 and 9 become `Side1` and `Side2`; every other button
      code is cast unchecked to `uint8`, so 1, 2 and 3 are `Left`, `Middle`
      and `Right`, while 6, 7 and codes of 10 or more become enumerator values
      outside `Left`..`Side2`, and codes of 256 or more wrap. */
  lemma ButtonMapping(ev: XEvent, deleteWindow: uint64)
    requires ev.kind in {ButtonPress, ButtonRelease}
    requires ev.button !in {4, 5}
    ensures TranslateEvent(ev, deleteWindow).Some?
    ensures TranslateEvent(ev, deleteWindow).value.MouseButtonEvent?
    ensures ev.button == 8 ==> TranslateEvent(ev, deleteWindow).value.button == Side1
    ensures ev.button == 9 ==> TranslateEvent(ev, deleteWindow).value.button == Side2
    ensures ev.button !in {8, 9} ==> TranslateEvent(ev, deleteWindow).value.button == ev.button % 0x100
    ensures ev.button == 1 ==> TranslateEvent(ev, deleteWindow).value.button == Left
    ensures ev.button == 2 ==> TranslateEvent(ev, deleteWindow).value.button == Middle
    ensures ev.button == 3 ==> TranslateEvent(ev, deleteWindow).value.button == Right
    ensures ev.button in {6, 7} || 10 <= ev.button < 0x100 ==>
              !IsNamedButton(TranslateEvent(ev, deleteWindow).value.button)
    ensures TranslateEvent(ev, deleteWindow).value.IsPressed() <==> ev.kind == ButtonPress
  {
  }

  /** A client message that is not the delete request continues into the
      `Expose` case and yields a resize event built from the aliased size
      fields. */
  lemma ForeignClientMessage(ev: XEvent, deleteWindow: uint64)
    requires ev.kind == ClientMessage && ToUint64(ev.data0) != deleteWindow
    ensures TranslateEvent(ev, deleteWindow) == Some(ResizeEvent(ToUint32(ev.width), ToUint32(ev.height)))
  {
  }

  /** Keyboard events carry the looked-up keysym and the matching state. */
  lemma KeyEvents(ev: XEvent, deleteWindow: uint64)
    requires ev.kind in {KeyPress, KeyRelease}
    ensures TranslateEvent(ev, deleteWindow) ==
              Some(KeyboardEvent(ev.keysym, if ev.kind == KeyPress then Pressed else Released))
  {
  }
}
