/**
 * A typed view of the messages the translator accepts. `Encode` builds a
 * message exactly as the watch app's senders do; `Decode` recovers the
 * typed envelope or names the reason `handleMessage` drops the message,
 * following the same field checks; `Translate` is the per-type address and
 * value table. The lemmas show that `HandleMessage` is `Decode` followed by
 * `Translate`, and that every message the watch builds is decoded and sent.
 */
module Envelopes {
  import opened Options
  import opened OscValues
  import opened Translator

  /** One message the translator accepts, by its `type`. */
  datatype Envelope =
    | CrownValue(value: real, mode: string)
    | Boolean(parameter: string, flag: bool)
    | Particles(colormode: Int64)

  /** Why a message produces no send. */
  datatype DecodeError =
    | MissingType
    | UnknownType(messageType: string)
    | Malformed(messageType: string)

  /** The message the watch app builds for an envelope. */
  function Encode(e: Envelope): (m: Message)
    ensures HasString(m, "type") && m["type"].s in KnownTypes
  {
    match e
    case CrownValue(v, mode) =>
      map["type" := S(CrownValueType), "value" := D(v), "mode" := S(mode)]
    case Boolean(p, b) =>
      map["type" := S(BooleanType), "parameter" := S(p), "value" := B(b)]
    case Particles(n) =>
      map["type" := S(ParticlesType), "value" := I(n)]
  }

  /** `small` is contained in `m`: every key of `small` is in `m` with the same value. */
  predicate Within(small: Message, m: Message) {
    forall k :: k in small ==> k in m && m[k] == small[k]
  }

  /**
   * The envelope a message carries. Decoding looks only at the fields its
   * type needs, so a decoded message always contains that envelope's
   * encoding; extra keys are ignored.
   */
  function Decode(m: Message): (r: Result<Envelope, DecodeError>)
    ensures r.Ok? ==> Within(Encode(r.value), m)
    ensures r == Err(MissingType) <==> !HasString(m, "type")
    ensures HasString(m, "type") && m["type"].s !in KnownTypes ==> r == Err(UnknownType(m["type"].s))
    ensures HasString(m, "type") && m["type"].s in KnownTypes && r.Err? ==> r == Err(Malformed(m["type"].s))
  {
    if !HasString(m, "type") then Err(MissingType)
    else
      var t := m["type"].s;
      if t == CrownValueType then
        if HasDouble(m, "value") && HasString(m, "mode")
        then Ok(CrownValue(m["value"].d, m["mode"].s))
        else Err(Malformed(t))
      else if t == BooleanType then
        if HasString(m, "parameter") && HasBool(m, "value")
        then Ok(Boolean(m["parameter"].s, m["value"].b))
        else Err(Malformed(t))
      else if t == ParticlesType then
        if HasInt(m, "value")
        then Ok(Particles(m["value"].i))
        else Err(Malformed(t))
      else Err(UnknownType(t))
  }

  /** The parameter name an envelope is sent to. */
  function TargetName(e: Envelope): string {
    match e
    case CrownValue(_, mode) => mode
    case Boolean(p, _) => p
    case Particles(_) => ColormodeName
  }

  /**
   * The translation table: `crownValue` to `/avatar/parameters/<mode>` as a
   * float, `boolean` to `/avatar/parameters/<parameter>` unchanged,
   * `particles` to the fixed colour-mode address as an int.
   */
  function Translate(e: Envelope, narrow: real -> real): (msg: OscMessage)
    ensures ParameterName(msg.address) == Some(TargetName(e))
    ensures e.CrownValue? ==> msg.arg == FloatArg(narrow(e.value))
    ensures e.Boolean? ==> msg.arg == BoolArg(e.flag)
    ensures e.Particles? ==> msg.arg == IntArg(e.colormode)
  {
    ColormodeIsParameterAddress();
    match e
    case CrownValue(v, mode) => OscMessage(ParameterAddress(mode), FloatArg(narrow(v)))
    case Boolean(p, b) => OscMessage(ParameterAddress(p), BoolArg(b))
    case Particles(n) => OscMessage(ColormodeAddress, IntArg(n))
  }

  /** Every envelope the watch builds decodes back to itself. */
  lemma DecodeEncode(e: Envelope)
    ensures Decode(Encode(e)) == Ok(e)
  {
  }

  /** A message that contains an envelope's encoding, whatever else it holds, decodes to that envelope. */
  lemma DecodeWithin(e: Envelope, m: Message)
    requires Within(Encode(e), m)
    ensures Decode(m) == Ok(e)
  {
    assert "type" in Encode(e);
  }

  /** `handleMessage` sends exactly when the message decodes, and then sends its translation. */
  lemma HandleMessageIsDecodeThenTranslate(m: Message, narrow: real -> real)
    ensures HandleMessage(m, narrow)
         == match Decode(m)
            case Ok(e) => Some(Translate(e, narrow))
            case Err(_) => None
  {
  }

  /** A message that decodes is sent as its translation. */
  lemma DecodedSends(m: Message, narrow: real -> real)
    requires Decode(m).Ok?
    ensures HandleMessage(m, narrow) == Some(Translate(Decode(m).value, narrow))
  {
  }

  /** What the watch sends arrives at the address and with the value of the translation table. */
  lemma HandleEncoded(e: Envelope, narrow: real -> real)
    ensures HandleMessage(Encode(e), narrow) == Some(Translate(e, narrow))
  {
  }

  /** Two messages that send anything send to the same address only if they name the same target. */
  lemma SameAddressSameTarget(m1: Message, m2: Message, narrow: real -> real)
    requires HandleMessage(m1, narrow).Some? && HandleMessage(m2, narrow).Some?
    requires HandleMessage(m1, narrow).value.address == HandleMessage(m2, narrow).value.address
    ensures Decode(m1).Ok? && Decode(m2).Ok?
    ensures TargetName(Decode(m1).value) == TargetName(Decode(m2).value)
  {
  }
}
