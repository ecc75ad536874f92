/**
 * The loosely typed values the companion app receives from the watch, the
 * typed arguments an OSC message can carry, and the cast chain at the top of
 * `ContentView.sendOSCValue` that picks an OSC argument kind for a value.
 */
module OscValues {
  import opened Options

  /** Swift `Int32`. */
  type Int32 = x: int | -0x8000_0000 <= x < 0x8000_0000

  /** Swift `Int` on the (64-bit) companion device. */
  type Int64 = x: int | -0x8000_0000_0000_0000 <= x < 0x8000_0000_0000_0000

  /**
   * A value held in a `[String: Any]` message, closed to the kinds the
   * watch and the translator use. `D` is a Swift `Double`, `F` a Swift
   * `Float`; both are modelled by their real value.
   */
  datatype Scalar =
    | D(d: real)
    | F(f: real)
    | I(i: Int64)
    | I32(i32: Int32)
    | B(b: bool)
    | S(s: string)

  /** The argument kinds `sendOSCValue` knows how to put into an OSC message. */
  datatype OscArg =
    | FloatArg(f: real)
    | Int32Arg(i32: Int32)
    | IntArg(i: Int64)
    | BoolArg(b: bool)

  /** One OSC message with a single address pattern and a single argument. */
  datatype OscMessage = OscMessage(address: string, arg: OscArg)

  /** The value kinds that have an OSC encoding. */
  predicate Supported(v: Scalar) {
    v.F? || v.I32? || v.I? || v.B?
  }

  /** The untyped value an OSC argument was made from. */
  function ValueOf(a: OscArg): (v: Scalar)
    ensures Supported(v)
  {
    match a
    case FloatArg(f) => F(f)
    case Int32Arg(n) => I32(n)
    case IntArg(n) => I(n)
    case BoolArg(b) => B(b)
  }

  /**
   * The cast chain of `sendOSCValue`: try `Float`, then `Int32`, then `Int`,
   * then `Bool`, and take the first that matches; any other kind is
   * unsupported. Because `Scalar` is closed and each value has exactly one
   * kind, at most one test can succeed, so the order never changes the
   * outcome. The argument always carries the value it was cast from.
   */
  function ArgumentOf(v: Scalar): (r: Option<OscArg>)
    ensures r.Some? <==> Supported(v)
    ensures r.Some? ==> ValueOf(r.value) == v
  {
    if v.F? then Some(FloatArg(v.f))
    else if v.I32? then Some(Int32Arg(v.i32))
    else if v.I? then Some(IntArg(v.i))
    else if v.B? then Some(BoolArg(v.b))
    else None
  }

  /** Turning an argument back into its value and casting again gives the same argument. */
  lemma ArgumentOfValueOf(a: OscArg)
    ensures ArgumentOf(ValueOf(a)) == Some(a)
  {
  }

  /**
   * The message `sendOSCValue(parameter:value:)` hands to the OSC client, or
   * `None` when the value kind is unsupported and nothing is transmitted.
   * The address is the parameter string, unchanged.
   */
  function SendOscValue(parameter: string, value: Scalar): (r: Option<OscMessage>)
    ensures r.None? <==> value.D? || value.S?
    ensures r.Some? ==> r.value.address == parameter && ValueOf(r.value.arg) == value
  {
    match ArgumentOf(value)
    case None => None
    case Some(arg) => Some(OscMessage(parameter, arg))
  }
}
