# Voxels input pipeline, observer registry, octree and vertex layout in Dafny

This project models four self-contained pieces of the Voxels engine and proves
properties of them:

1. **The input-event pipeline.** The engine's event classes (keyboard, mouse
   button, mouse motion, scroll, resize, close request) become one closed
   datatype, `Events.Event`. The X11 translator (`EventTranslator.TranslateEvent`)
   maps a native event record to an optional event. The switch fall-throughs of
   the source are kept: a wheel-button release falls into the motion case, and a
   foreign client message falls into the expose case. `EventParser` is the
   per-frame input-state aggregator, modelled as a state record. `ParseEvent` and
   `OnLoopEnded` are its transitions, and its emitted notifications come back as
   a trace. `InputEventParser` is the older parser without emitters; it is proved
   to be the newer one with the emitters and cursor forgotten. `Pipeline` strings
   the pieces together into one frame: drain and translate the native queue,
   parse, callback, end of frame.
2. **The emitter/observer registry** (`Observer`). It covers prepend-on-register,
   remove-all-on-unregister, and ordered emit that skips null entries and
   observers without a callback.
3. **The octree.** `OctTreeHelpers` holds the octant sign tests and the 3-bit
   index packing. `OctTreeNode` is a recursive leaf/branch datatype with
   `Insert`, `ForEach` and `Enumerate`.
4. **The vertex attribute layout** (`AttributeDescriptor`, `VertexBufferAttributes`).
   It covers attribute sizes, the stride as a sum of `count * size`, and the
   offsets and OpenGL calls of `bind`/`unBind`, recorded as a call trace.

Behaviour that looks unintended is modelled as written and stated as a lemma:

- Modifier fall-through. The modifier `switch` has no `break`. Pressing left
  control therefore sets all four modifier flags, and releasing it clears all
  four (`Modifiers.FallThroughEffects`).
- Side2 overflow. The button bitsets have five slots, but `Side2` is 5. A
  side-button-2 event is therefore outside the parser's domain
  (`Pipeline.SideButtonTwoOverflows`).
- Leaf insert does nothing. In the leaf's `insert`, the parameter shadows the
  member. Insertion therefore never changes the tree
  (`OctTreeNode.InsertChangesNothing`).
- y-axis sign. The y axis is tested for the negative side, while x and z are
  tested for the positive side (`OctTreeHelpers.AxisTests`).
- Helper signature mismatch. The branch's `insert` calls a two-argument
  `convertToNormalizedIndex(index, sideLength)`, but the helper header only
  defines a one-argument version. So the octant selector is a parameter of
  `Insert` with values in 0..7. `OctTreeNode.SignSelector` is the instance
  built from the one-argument `convertToNormalizedIndex` in
  `include/OctTreeHelpers.hpp`.

Some behaviour of the code is easy to misread, and the model follows the code:

- A wheel-button release yields a motion event at the release position.
- The octant tests are strict: `> 0` on x and z, and `< 0` on y.
- The maximum octree depth is 8 (`sizeof(uint64)`), so the chunk side is 256.
- Insertion addresses one child slot by index and does nothing when that slot
  is empty. It never creates or subdivides nodes, and a branch has no
  equality operation.

## Model

| member | source | states |
|---|---|---|
| `Global.ChunkLengthValue` | include/Global.hpp:26-27 | the chunk length `1 << MAX_OCT_TREE_DEPTH`, with the depth equal to `sizeof(uint64)` = 8, is 256 |
| `Events.NamedButtonCodes` | include/Window/Event/MouseButtonEvent.hpp:18-20 | the button enumerators are Left=1, Middle=2, Right=3, Side1=4, Side2=5, and these are exactly the named codes |
| `Events.PressedXorReleased` | include/Window/Event/KeyboardEvent.hpp:22-24 | `isPressed` holds iff the state is Pressed, `isReleased` iff it is Released, and exactly one of them holds (same for mouse-button events) |
| `Events.ScrollDirection` | include/Window/Event/ScrollEvent.hpp:16-21 | up iff delta > 0, down iff delta < 0, never both, and a zero delta is neither |
| `Events.PairAccessors` | include/Window/Event/MouseMotionEvent.hpp:15-22 | `getPos` and `getDimensions` equal the pairs of the single accessors, which return the constructor arguments; widths and heights are unsigned |
| `EventTranslator.TranslateEvent` | src/Window/Linux/X11/EventTranslator.cpp:15-65 | no event iff the native type is unhandled; a scroll iff a press of 4 or 5; a close request iff a client message carrying the delete atom; a motion event iff motion or a wheel release, and motion carries the native x and y; expose gives a resize with both sizes converted to `uint32`; key press/release give the looked-up keysym; any other button code gives Side1 for 8, Side2 for 9 and otherwise the raw code cast to `uint8`, with the state of the native type |
| `EventTranslator.TranslateEncode` | src/Window/Linux/X11/EventTranslator.cpp:15-64 | every event except a scroll of a size other than one notch is produced from some native record (round trip through an encoder) |
| `EventTranslator.TranslateProducible` | src/Window/Linux/X11/EventTranslator.cpp:20-21 | conversely, every translated scroll is exactly one notch up or down |
| `EventTranslator.WheelButtons` | src/Window/Linux/X11/EventTranslator.cpp:17-42 | press of 4 gives ScrollEvent(+1) (up), press of 5 gives ScrollEvent(-1) (down); their release falls through to a motion event at the release position |
| `EventTranslator.ButtonMapping` | src/Window/Linux/X11/EventTranslator.cpp:22-37 | 8 and 9 become Side1 and Side2; every other code becomes the raw code mod 256, so 1, 2 and 3 are Left, Middle and Right while 6, 7 and 10..255 give unnamed buttons; the state follows press/release |
| `EventTranslator.ForeignClientMessage` | src/Window/Linux/X11/EventTranslator.cpp:54-62 | a client message that is not the delete request falls through and yields a resize event |
| `EventTranslator.KeyEvents` | src/Window/Linux/X11/EventTranslator.cpp:44-53 | key press/release give a keyboard event with the looked-up keysym and Pressed/Released |
| `Modifiers.FallThrough` | include/Window/EventParser.hpp:43-48 | entering the switch at a case runs that case and every later case: exactly the flags from the entry position on take the new value |
| `Modifiers.SwitchOnKey` | include/Window/EventParser.hpp:43-59 | a modifier key sets its own flag and every later flag to true on press, false on release; other flags keep their value |
| `Modifiers.FallThroughEffects` | include/Window/EventParser.hpp:24-59 | LeftControl changes all four flags, RightControl three, LeftShift two, RightShift only its own, so a lone left-control press reports the shift keys as held, against the field documentation |
| `Modifiers.NonModifierKeepsState` | include/Window/EventParser.hpp:48-59 | keys other than the four modifiers leave the modifier state untouched |
| `EventParser.Init` | include/Window/EventParser.hpp:150-156 | a new parser has empty bitsets and all modifier flags false; the cursor position is a parameter, and the window manager's value-initialised parser is `Init(0, 0)` |
| `EventParser.ParseEvent` | include/Window/EventParser.hpp:37-86 | the queries `IsKeyPressed`, `IsKeyReleased`, `IsButtonPressed`, `IsButtonReleased` and `GetModifierState` (include/Window/EventParser.hpp:105-139) read the state as follows: a key or button event adds exactly its own bit to the pressed or released set its state selects, with no other bit changing; modifiers change only through the switch; the cursor changes only on motion; scroll, resize and close emit exactly one notification on their emitter, motion one MouseMoved, and key and button events none; set bits stay inside their bitsets |
| `EventParser.OnLoopEnded` | include/Window/EventParser.hpp:91-96 | all four bitsets read empty afterwards; modifiers and cursor position are kept |
| `EventParser.MotionDelta` | include/Window/EventParser.hpp:76-82 | the emitted delta added to the old position gives the new position (mod 2^32), and equals the exact difference when that fits in 32 bits |
| `EventParser.MotionExample` | include/Window/EventParser.hpp:76-82 | from (10,10), a motion to (15,7) emits (5,-3) and stores (15,7) |
| `EventParser.ParseAllKeys` | include/Window/EventParser.hpp:40-52 | after a sequence of events a key reads pressed (released) iff it already did or some event pressed (released) a key on the same bit; one notification per forwarded event |
| `EventParser.ParseAllButtons` | include/Window/EventParser.hpp:64-70 | after a sequence of events a button reads pressed (released) iff it already did or some event pressed (released) it |
| `EventParser.ParseAllSingle` | include/Window/EventParser.hpp:37-86 | parsing a one-event sequence is parsing that event |
| `EventParser.ParseAllAppend` | include/Window/EventParser.hpp:37-86 | parsing a concatenation parses the second part from the state the first leaves, and joins the traces in order |
| `EventParser.ParseAllQuiet` | include/Window/EventParser.hpp:37-86 | a sequence without keyboard events keeps the modifier flags, and one without motion events keeps the cursor position |
| `EventParser.EdgeTriggeredReset` | include/Window/EventParser.hpp:91-105 | a pressed key reads pressed until the frame ends and not after one or two further frame ends |
| `EventParser.ModifierPersistence` | include/Window/EventParser.hpp:37-96 | a left-control press survives the end of the frame and only its release clears the flag |
| `InputEventParser.ParseEvent` | include/Window/InputEventParser.hpp:31-67 | read through its queries `IsKeyPressed`, `IsKeyReleased`, `IsButtonPressed`, `IsButtonReleased` and `GetModifierState` (include/Window/InputEventParser.hpp:86-120): key and button events set exactly their bit; modifiers follow the same fall-through switch; any other event leaves the whole state unchanged |
| `InputEventParser.OnLoopEnded` | include/Window/InputEventParser.hpp:72-77 | all four bitsets read empty afterwards; modifiers are kept |
| `InputEventParser.AgreesWithEventParser` | include/Window/InputEventParser.hpp:31-77 | both transitions of the older parser equal those of `EventParser` with its emitters and cursor position forgotten |
| `Observer.AddObserver` | include/Observer.hpp:99-101 | registration puts the observer at the front and keeps the rest of the list |
| `Observer.RemoveAll` | include/Observer.hpp:108-110 | removal leaves no entry for the observer, keeps the multiplicity of every other entry, and shortens the list by the removed occurrences |
| `Observer.EmitCounts` | include/Observer.hpp:86-91 | emit invokes an observer with a callback once per list entry pointing at it, and never one without a callback or a null entry |
| `Observer.EmitAppend` | include/Observer.hpp:86-91 | emit follows list order |
| `Observer.MostRecentFirst` | include/Observer.hpp:86-101 | after registering a then b, emit invokes b, then a, then the earlier observers |
| `Observer.RemoveThenEmit` | include/Observer.hpp:86-110 | emitting after a removal invokes what was invoked before, in the same order, minus the removed observer |
| `Observer.AddRemoveRoundTrip` | include/Observer.hpp:99-110 | registering and then unregistering an observer not yet listed restores the list |
| `Observer.Construct` | include/Observer.hpp:33-38 | constructing an observer on a live emitter makes it the first one emit reaches; on an expired emitter nothing is registered |
| `Observer.Destroy` | include/Observer.hpp:40-43 | destroying an observer removes all its entries from a live emitter and keeps the others; an expired emitter stays expired |
| `Observer.Lifetime` | include/Observer.hpp:33-43 | construction followed by destruction leaves the emitter as it was |
| `OctTreeHelpers.ConvertToScalarIndex` | include/OctTreeHelpers.hpp:28-30 | the bitwise OR of x shifted by 2, y shifted by 1 and z equals 4x+2y+z and lies in 0..7 |
| `OctTreeHelpers.ScalarIndexBijection` | include/OctTreeHelpers.hpp:28-30 | packing and unpacking (bit 2 = x, bit 1 = y, bit 0 = z) are mutually inverse, so packing is a bijection onto 0..7 |
| `OctTreeHelpers.ScalarIndexInjective` | include/OctTreeHelpers.hpp:29 | distinct flag triples get distinct indices |
| `OctTreeHelpers.EveryOctantReachable` | include/OctTreeHelpers.hpp:14-30 | every index 0..7 is the octant of some position |
| `OctTreeHelpers.AxisTests` | include/OctTreeHelpers.hpp:14-20 | x flag iff x > 0, y flag iff y < 0, z flag iff z > 0; an all-positive point gets octant 5 and the origin octant 0 |
| `OctTreeNode.SideLengthHalves` | include/OctTreeNode.hpp:82 | side length at depth 0 is the chunk length 256, halves with each level and is 1 at depth 8 |
| `OctTreeNode.Insert` | include/OctTreeNode.hpp:81-87 | insert on a leaf returns it unchanged; on a branch only the selected slot can change, no slot becomes filled or empty, and depth, origin and well-formedness are kept |
| `OctTreeNode.InsertChangesNothing` | include/OctTreeNode.hpp:44-46 | because the leaf's parameter shadows its member, an insertion returns the tree it was given |
| `OctTreeNode.TraversalsVisitLeaves` | include/OctTreeNode.hpp:36-79 | `forEach` yields the values of exactly the reachable leaves in slot order, and `enumerate` the same leaves in the same order, each with that leaf's depth |
| `OctTreeNode.TraversalsVisitLeavesFrom` | include/OctTreeNode.hpp:68-79 | a branch's traversal from slot k is the concatenation of its non-empty children's traversals from slot k on |
| `OctTreeNode.InsertKeepsTraversals` | include/OctTreeNode.hpp:44-87 | after any insertion `forEach` and `enumerate` yield what they yielded before |
| `OctTreeNode.RootInsertExample` | include/OctTreeNode.hpp:81-87 | a root with value x in the octant of (1,1,1) still yields [x] after inserting another value there with `SignSelector`, the selector built from the one-argument `convertToNormalizedIndex` |
| `AttributeDescriptor.GetSizeOfType` | include/Renderer/AttributeDescriptor.hpp:13-21 | succeeds iff the type is one of the four enumerators, with size 1 or 4; otherwise throws the invalid-type message |
| `AttributeDescriptor.SizeTable` | include/Renderer/AttributeDescriptor.hpp:13-20 | Float32, Integer32 and UnsignedInteger32 have size 4, Byte size 1; every valid type has a positive size |
| `AttributeDescriptor.Describe` | include/Renderer/AttributeDescriptor.hpp:26-30 | a descriptor built from type and count is not normalized |
| `VertexBufferAttributes.Empty` | include/Renderer/OpenGl/VertexBufferAttributes.hpp:16 | the default layout has no attributes and stride 0 |
| `VertexBufferAttributes.WithCapacity` | include/Renderer/OpenGl/VertexBufferAttributes.hpp:17-19 | reserving capacity gives no attributes and stride 0 |
| `VertexBufferAttributes.FromList` | include/Renderer/OpenGl/VertexBufferAttributes.hpp:20-34 | the list and array constructors keep the attributes in order with stride the sum of count*size |
| `VertexBufferAttributes.AddAttribute` | include/Renderer/OpenGl/VertexBufferAttributes.hpp:41-44 | appends at the end, earlier attributes unchanged, and keeps the stride equal to the sum of sizes |
| `VertexBufferAttributes.AddAllMatchesTotal` | include/Renderer/OpenGl/VertexBufferAttributes.hpp:41-44 | repeated `addAttribute` appends the attributes in order and keeps the stride consistent |
| `VertexBufferAttributes.AddAllFromEmpty` | include/Renderer/OpenGl/VertexBufferAttributes.hpp:16-44 | adding attributes one by one to the empty layout gives what the list constructor gives |
| `VertexBufferAttributes.OffsetMonotone` | include/Renderer/OpenGl/VertexBufferAttributes.hpp:47-53 | offsets never decrease along the list, and the running offset after the last attribute equals the total size |
| `VertexBufferAttributes.Bind` | include/Renderer/OpenGl/VertexBufferAttributes.hpp:46-54 | attribute i gets location i, its count, type and normalisation, the shared stride and offset the sum of the sizes before it, followed by enabling location i |
| `VertexBufferAttributes.BindOffsetsWithinStride` | include/Renderer/OpenGl/VertexBufferAttributes.hpp:47-53 | no offset `bind` passes exceeds the stride |
| `VertexBufferAttributes.UnBind` | include/Renderer/OpenGl/VertexBufferAttributes.hpp:56-60 | exactly locations 0..n-1 are disabled, in order |
| `VertexBufferAttributes.VertexLayout` | include/Vertex.hpp:13-18 | the engine vertex (3 + 2 floats) has stride 20 and offsets 0 and 12 |
| `Pipeline.TranslateAll` | src/Window/Linux/X11/Window.cpp:94-102 | the drained queue yields at most one engine event per native event, exactly one each when every native type is handled, and only producible events |
| `Pipeline.TranslateAllSingle` | src/Window/Linux/X11/Window.cpp:98-102 | a one-event queue translates to that event's translation, or to nothing when it is not handled |
| `Pipeline.TranslateAllAppend` | src/Window/Linux/X11/Window.cpp:98-102 | translating a concatenated queue is concatenating the translations, so the result keeps queue order |
| `Pipeline.TranslateAllMatches` | src/Window/Linux/X11/EventTranslator.cpp:15-65 | the translated queue holds a key event on a bit, a given button event, any key event or any motion event exactly when the native queue holds the native events the translator maps to it |
| `Pipeline.RunFrame` | src/Window/WindowManager.cpp:13-39 | the callback sees a key or button pressed (released) exactly when it already was or the queue holds a native press (release) of it; the modifier flags change only if the queue holds a native key event, and the cursor only if it holds a motion or a wheel release; the frame emits one notification per forwarded event, at most one per native event; after the frame no key or button reads pressed or released, while modifiers and cursor are what the callback saw; an empty queue changes and emits nothing |
| `Pipeline.WheelScenario` | src/Window/Linux/X11/EventTranslator.cpp:29-42 | a wheel-up press emits exactly one scroll notification of +1; the release emits a mouse-moved notification instead of nothing |
| `Pipeline.SideButtonTwoOverflows` | include/Window/EventParser.hpp:66-70 | a native button-9 event becomes Side2 (code 5), which is outside the parser's five-slot button set; buttons 1-3 and 8 are inside |
| `Pipeline.KeyFrame` | src/Window/WindowManager.cpp:23-32 | a key pressed anywhere in a frame's queue reads pressed to that frame's callback and not after the frame ends |
| `Pipeline.RunFrameSingle` | src/Window/WindowManager.cpp:23-27 | a one-event frame shows the callback the parser after that event's translation and emits what parsing it emits; an unhandled event changes and emits nothing |
| `Pipeline.RunFrameAppend` | src/Window/Linux/X11/Window.cpp:98-108 | a frame over a + b shows the callback b parsed from the state a leaves, and emits a's notifications followed by b's |
| `Pipeline.CloseInQueue` | src/Window/Linux/X11/EventTranslator.cpp:54-57 | a delete-window message in the middle of a queue emits CloseRequested between the notifications of the events before and after it |
| `Pipeline.ModifierFrame` | include/Window/EventParser.hpp:43-49 | a left-control press that ends a frame's queue shows the callback all four modifier flags set |
| `Pipeline.CloseFrame` | src/Window/Linux/X11/EventTranslator.cpp:54-57 | a delete-window client message reaches the close emitter |

## Left out

- Graphics-API wrappers (OpenGL and Vulkan objects, shaders, textures, pipelines, surfaces, renderers) are left out. They are calls into foreign libraries with no logic of their own. The GL type enumerator that `bind` passes is a function of the attribute type, so the trace records the attribute type instead.
- The X11 window, display and loop handling is left out because it is OS I/O. The delete-window atom the translator's constructor obtains from the display is a parameter. `XLookupKeysym` is represented by the `keysym` field of the native record.
- The `Key` enumeration's values are not part of this model. Keys are naturals, and the four modifiers are taken to be the X11 keysyms of those keys. Only their distinctness matters, plus the fact that their `uint8` truncations fit the key bitset.
- Event-type RTTI (`IEvent::downCast`, `getName`) is replaced by the closed `Event` datatype. `CloseRequestedEvent` is its data-free variant.
- The application glue (`Application`, `WindowManager` construction, `main`) is left out, apart from the frame order that `Pipeline.RunFrame` follows. The camera controller, entity IDs, file and mesh loading, and exception formatting are left out as well. They are float math, randomness, file-system I/O and text formatting.
- `include/OctTree.hpp` is left out. It builds a branch from a constructor the branch does not have. A root `Branch` value is used directly instead.
- The octree `origin` is a float vector in the source. No modelled operation reads it, so it is carried as an integer triple. The `forEach`/`enumerate` callbacks receive the value by mutable reference. A callback that modifies the stored value is not modelled: traversals return the values visited.
- `Observer` callback arguments are left out. Every invoked observer receives the same arguments, so the emit trace records only which observers are invoked. A default-constructed `Observer` has an empty weak reference and behaves like one on an expired emitter (`Construct` with `None`).
- The mouse-motion delta is computed in 32-bit two's complement. The source's `int32` subtraction overflows into undefined behaviour, and the model uses the wrap-around that the usual targets produce.
- `VertexBufferAttributes.FromList`: the stride is an unbounded natural. The source's `uint32` stride would wrap only past about four million attributes, so wrap-around is not modelled. The reserved capacity has no observable effect and is dropped.
- `EventParser.ParseEvent`: for motion events, its contract only says that one `MouseMoved` is emitted. The value of the delta is stated separately by `EventParser.MotionDelta`.
- Out-of-range bitset indices (a key whose `uint8` truncation is 255, or a button code of 5 or more) make `bitset::set`/`test` throw inside `noexcept` members, which terminates the program. These cases are preconditions of the parser operations and queries, not modelled outcomes.
- A non-enumerator attribute type in a layout terminates the program in the same way. So the layout operations require valid types. `AttributeDescriptor.GetSizeOfType` alone models the throw.
- `Pipeline.RunFrame` takes the whole drained queue of a frame. The X11 window loop (`src/Window/Linux/X11/Window.cpp:94-108`) collects every queued event into a list and hands that list to the callback once per frame. The callback type it is declared against (`include/Window/IWindow.hpp:22`) and the window manager's callback (`src/Window/WindowManager.cpp:14-27`) take a single possibly-null event instead, so the two do not fit together as written. The model keeps the queue of the window loop and the per-event parsing of the window manager: every non-null event is parsed in queue order, and then the callback and `onLoopEnded` run once.
- `Events.Event`: the scroll delta is `int8`, which the engine defines as plain `char` (`include/Global.hpp:9`). The model takes `char` to be signed, as on the usual x86-64 Linux targets. Where `char` is unsigned, a delta of -1 is stored as 255, `isUp` holds and `isDown` does not.
- `OctTreeNode.Insert` requires every branch to be at depth 8 or less. Deeper down, the side-length computation `1 << (MAX_OCT_TREE_DEPTH - depth)` (`include/OctTreeNode.hpp:82`) is an unsigned `uint32` subtraction that wraps to a shift count far above 31, which is undefined behaviour in C++.
- The integer widths follow the LP64 model of 64-bit Linux: `long` and `unsigned long` are 64 bits. This fixes `MAX_OCT_TREE_DEPTH` (`sizeof(uint64)`) at 8 and `CHUNK_LENGTH` at 256, and makes the client-message data word (`data0`) and the delete-window atom 64-bit values.
