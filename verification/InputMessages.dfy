/** Input messages and the rules for batching two of them (src/input.cpp). */
module InputMessages {

  type Short = x: int | -32768 <= x < 32768

  const LI_TOUCH_EVENT_HOVER: nat := 0
  const LI_TOUCH_EVENT_MOVE: nat := 3

  /** An input message. `rest` stands for the fields batching never looks at. */
  datatype Packet =
    | RelMouse(dx: Short, dy: Short)
    | AbsMouse(width: int, height: int, rest: int)
    | Scroll(amount: Short, amount2: Short)
    | HScroll(amount: Short)
    | Controller(number: int, mask: int, buttons: int, buttons2: int, rest: int)
    | Touch(event: nat, pointer: int, rest: int)
    | Pen(event: nat, tool: int, buttons: int, rest: int)
    | ControllerTouch(number: int, event: nat, pointer: int, rest: int)
    | Motion(number: int, sensor: int, rest: int)
    | Other(magic: int, rest: int)

  datatype Kind = KRel | KAbs | KScroll | KHScroll | KController | KTouch | KPen | KControllerTouch | KMotion
                | KOther(magic: int)

  /** The stream a message belongs to: its type plus controller, pointer or sensor. */
  datatype Key = Key(kind: Kind, a: int, b: int)

  function KeyOf(p: Packet): Key {
    match p
    case RelMouse(_, _) => Key(KRel, 0, 0)
    case AbsMouse(_, _, _) => Key(KAbs, 0, 0)
    case Scroll(_, _) => Key(KScroll, 0, 0)
    case HScroll(_) => Key(KHScroll, 0, 0)
    case Controller(number, _, _, _, _) => Key(KController, number, 0)
    case Touch(_, pointer, _) => Key(KTouch, pointer, 0)
    case Pen(_, _, _, _) => Key(KPen, 0, 0)
    case ControllerTouch(number, _, pointer, _) => Key(KControllerTouch, number, pointer)
    case Motion(number, sensor, _) => Key(KMotion, number, sensor)
    case Other(magic, _) => Key(KOther(magic), 0, 0)
  }

  datatype Result = Batched(merged: Packet) | NotBatchable | TerminateBatch

  /** The comments in the source ask to batch when the 16-bit sum does not overflow; the tests written
      there batch when it does. */
  datatype Reading = AsWritten | AsCommented

  predicate Overflows(x: Short, y: Short) {
    !(-32768 <= x as int + y as int < 32768)
  }

  /** The value __builtin_add_overflow stores. */
  function WrapSum(x: Short, y: Short): Short {
    var s := x as int + y as int;
    if s < -32768 then s + 65536 else if s >= 32768 then s - 65536 else s
  }

  predicate SumBatches(r: Reading, x: Short, y: Short) {
    if r.AsWritten? then Overflows(x, y) else !Overflows(x, y)
  }

  predicate MoveOrHover(event: nat) {
    event == LI_TOUCH_EVENT_MOVE || event == LI_TOUCH_EVENT_HOVER
  }

  /** The batch overloads and their dispatcher. */
  function Batch(r: Reading, dest: Packet, src: Packet): Result {
    if KeyOf(dest).kind != KeyOf(src).kind then TerminateBatch
    else
      match dest
      case RelMouse(dx, dy) =>
        if !SumBatches(r, dx, src.dx) || !SumBatches(r, dy, src.dy) then TerminateBatch
        else Batched(RelMouse(WrapSum(dx, src.dx), WrapSum(dy, src.dy)))
      case AbsMouse(width, height, _) =>
        if width != src.width || height != src.height then TerminateBatch else Batched(src)
      case Scroll(amount, _) =>
        if !SumBatches(r, amount, src.amount) then TerminateBatch
        else Batched(Scroll(WrapSum(amount, src.amount), WrapSum(amount, src.amount)))
      case HScroll(amount) =>
        if !SumBatches(r, amount, src.amount) then TerminateBatch else Batched(HScroll(WrapSum(amount, src.amount)))
      case Controller(number, mask, buttons, buttons2, _) =>
        if mask != src.mask then TerminateBatch
        else if number != src.number then NotBatchable
        else if buttons != src.buttons || buttons2 != src.buttons2 then TerminateBatch
        else Batched(src)
      case Touch(event, pointer, _) =>
        if !MoveOrHover(event) || !MoveOrHover(src.event) then TerminateBatch
        else if pointer != src.pointer then NotBatchable
        else if event != src.event then TerminateBatch
        else Batched(src)
      case Pen(event, tool, buttons, _) =>
        if !MoveOrHover(event) || event != src.event || buttons != src.buttons || tool != src.tool then TerminateBatch
        else Batched(src)
      case ControllerTouch(number, event, pointer, _) =>
        if !MoveOrHover(event) then TerminateBatch
        else if number != src.number then NotBatchable
        else if !MoveOrHover(src.event) then TerminateBatch
        else if pointer != src.pointer then NotBatchable
        else if event != src.event then TerminateBatch
        else Batched(src)
      case Motion(number, sensor, _) =>
        if number != src.number || sensor != src.sensor then NotBatchable else Batched(src)
      case Other(_, _) => TerminateBatch
  }

  /** One pass over the queue behind `m`: what is sent, and what stays queued. */
  function Scan(r: Reading, m: Packet, rest: seq<Packet>): (s: (Packet, seq<Packet>))
    decreases |rest|
  {
    if rest == [] then (m, [])
    else
      match Batch(r, m, rest[0])
      case TerminateBatch => (m, rest)
      case Batched(merged) => Scan(r, merged, rest[1..])
      case NotBatchable =>
        var (m', t) := Scan(r, m, rest[1..]);
        (m', [rest[0]] + t)
  }
}
