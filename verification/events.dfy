/** The closed set of window and input events (the headers under `include/Window/Event`).
    The source dispatches on an open class hierarchy through `dynamic_cast`;
    here every event is one value of a single datatype, immutable by
    construction, and each accessor is a field or a small predicate. */
module Events {
  import opened Global

  /** Whether a key or button went down or up (`ButtonState`). */
  datatype ButtonState = Pressed | Released

  /** A key code. The `Key` enumeration is not part of this model; key codes
      are the keysyms the native layer reports. */
  type Key = nat

  /** The four modifier keys the parsers track. Their values are taken to be
      the X11 keysyms of the keys; the model relies only on them being
      distinct. */
  const LeftControl: Key := 0xFFE3
  const RightControl: Key := 0xFFE4
  const LeftShift: Key := 0xFFE1
  const RightShift: Key := 0xFFE2

  /** A mouse button. `Button` is an enumeration over `uint8`, but the
      translator casts raw native codes into it unchecked, so every `uint8`
      value can occur. */
  type Button = uint8

  const Left: Button := 1
  const Middle: Button := 2
  const Right: Button := 3
  const Side1: Button := 4
  const Side2: Button := 5

  /** True when the code is one of the five named enumerators. */
  predicate IsNamedButton(b: Button) {
    Left <= b <= Side2
  }

  datatype Event =
    | KeyboardEvent(key: Key, state: ButtonState)
    | MouseButtonEvent(button: Button, state: ButtonState)
    | MouseMotionEvent(x: int32, y: int32)
    | ScrollEvent(delta: int8)
    | ResizeEvent(width: uint32, height: uint32)
    | CloseRequestedEvent
  {
    /** `isPressed` of a keyboard or mouse-button event. */
    predicate IsPressed()
      requires KeyboardEvent? || MouseButtonEvent?
    {
      state == Pressed
    }

    /** `isReleased` of a keyboard or mouse-button event. */
    predicate IsReleased()
      requires KeyboardEvent? || MouseButtonEvent?
    {
      state == Released
    }

    /** `isUp`: a positive delta means the user scrolled up. */
    predicate IsUp()
      requires ScrollEvent?
    {
      delta > 0
    }

    /** `isDown`: a negative delta means the user scrolled down. */
    predicate IsDown()
      requires ScrollEvent?
    {
      delta < 0
    }

    /** `getPos` of a motion event. */
    function Pos(): (int32, int32)
      requires MouseMotionEvent?
    {
      (x, y)
    }

    /** `getDimensions` of a resize event. */
    function Dimensions(): (uint32, uint32)
      requires ResizeEvent?
    {
      (width, height)
    }
  }

  /** The four modifier constants are pairwise distinct. */
  lemma ModifierKeysDistinct()
    ensures LeftControl != RightControl && LeftControl != LeftShift && LeftControl != RightShift
    ensures RightControl != LeftShift && RightControl != RightShift
    ensures LeftShift != RightShift
  {
  }

  /** The named buttons are exactly the codes 1 to 5, in the declared order. */
  lemma NamedButtonCodes(b: Button)
    ensures IsNamedButton(b) <==> b in {Left, Middle, Right, Side1, Side2}
    ensures Left == 1 && Middle == 2 && Right == 3 && Side1 == 4 && Side2 == 5
  {
  }

  /** A keyboard or mouse-button event is either pressed or released, never
      both, because `ButtonState` has exactly two values. */
  lemma PressedXorReleased(e: Event)
    requires e.KeyboardEvent? || e.MouseButtonEvent?
    ensures e.IsPressed() != e.IsReleased()
    ensures e.IsPressed() <==> e.state == Pressed
    ensures e.IsReleased() <==> e.state == Released
  {
  }

  /** A scroll event is never both up and down, and a zero delta is neither. */
  lemma ScrollDirection(e: Event)
    requires e.ScrollEvent?
    ensures !(e.IsUp() && e.IsDown())
    ensures e.delta == 0 <==> !e.IsUp() && !e.IsDown()
    ensures e.IsUp() <==> e.delta > 0
    ensures e.IsDown() <==> e.delta < 0
  {
  }

  /** The position and dimension pairs agree with the single-coordinate
      accessors, whatever the constructor arguments were. */
  lemma PairAccessors(x: int32, y: int32, w: uint32, h: uint32)
    ensures MouseMotionEvent(x, y).Pos() == (MouseMotionEvent(x, y).x, MouseMotionEvent(x, y).y) == (x, y)
    ensures ResizeEvent(w, h).Dimensions() == (ResizeEvent(w, h).width, ResizeEvent(w, h).height) == (w, h)
    ensures ResizeEvent(w, h).width >= 0 && ResizeEvent(w, h).height >= 0
  {
  }
}
