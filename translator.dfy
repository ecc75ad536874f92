/**
 * The companion-side message translator, `ContentView.handleMessage`: a
 * `[String: Any]` message from the watch is checked for a `type` string and
 * for the fields that type needs, and becomes at most one OSC message for an
 * `/avatar/parameters/...` address.
 *
 * The conversion of a Swift `Double` to a `Float` is not modelled; every
 * translator function takes it as the parameter `narrow`, so everything
 * proved here holds whatever that conversion does.
 */
module Translator {
  import opened Options
  import opened OscValues

  /** A message as delivered by the watch connectivity session. */
  type Message = map<string, Scalar>

  /** Destination of the OSC client (configuration only; no behaviour depends on it). */
  const Host: string := "192.168.8.11"
  const Port: int := 9000

  const AddressPrefix: string := "/avatar/parameters/"
  const ColormodeName: string := "VF84_PC/Vis/Colormode"
  const ColormodeAddress: string := "/avatar/parameters/VF84_PC/Vis/Colormode"

  const CrownValueType: string := "crownValue"
  const BooleanType: string := "boolean"
  const ParticlesType: string := "particles"

  /** The `type` values the translator recognises. */
  const KnownTypes: set<string> := {CrownValueType, BooleanType, ParticlesType}

  // ---------------------------------------------------------------------
  // Addresses

  predicate HasAddressPrefix(address: string) {
    |AddressPrefix| <= |address| && address[..|AddressPrefix|] == AddressPrefix
  }

  /** The address `"/avatar/parameters/\(name)"` built by string interpolation. */
  function ParameterAddress(name: string): (address: string)
    ensures HasAddressPrefix(address)
    ensures address[|AddressPrefix|..] == name
  {
    AddressPrefix + name
  }

  /** The parameter name an address refers to, if it is an avatar-parameter address. */
  function ParameterName(address: string): (r: Option<string>)
    ensures r.Some? <==> HasAddressPrefix(address)
    ensures r.Some? ==> ParameterAddress(r.value) == address
  {
    if HasAddressPrefix(address) then
      var name := address[|AddressPrefix|..];
      assert address == address[..|AddressPrefix|] + name;
      Some(name)
    else
      None
  }

  lemma ParameterNameOfAddress(name: string)
    ensures ParameterName(ParameterAddress(name)) == Some(name)
  {
  }

  /** Different parameter names never share an address. */
  lemma ParameterAddressInjective(a: string, b: string)
    requires a != b
    ensures ParameterAddress(a) != ParameterAddress(b)
  {
  }

  /** The fixed particles address is itself an avatar-parameter address. */
  lemma ColormodeIsParameterAddress()
    ensures ColormodeAddress == ParameterAddress(ColormodeName)
    ensures HasAddressPrefix(ColormodeAddress)
  {
  }

  // ---------------------------------------------------------------------
  // Field casts: `message[key] as? T`, as strict matches on the value's kind

  predicate HasString(m: Message, key: string) { key in m && m[key].S? }
  predicate HasDouble(m: Message, key: string) { key in m && m[key].D? }
  predicate HasBool(m: Message, key: string) { key in m && m[key].B? }
  predicate HasInt(m: Message, key: string) { key in m && m[key].I? }

  // ---------------------------------------------------------------------
  // handleMessage

  /**
   * The `(parameter, value)` pair `handleMessage` passes to `sendOSCValue`,
   * or `None` when it calls nothing: no `type` string, an unknown `type`,
   * or a field of a known type missing or of the wrong kind.
   */
  function Request(m: Message, narrow: real -> real): (r: Option<(string, Scalar)>)
    ensures r.Some? ==> HasString(m, "type") && m["type"].s in KnownTypes
    ensures r.Some? ==> HasAddressPrefix(r.value.0)
    ensures r.Some? ==> r.value.1.F? || r.value.1.B? || r.value.1.I?
  {
    if !HasString(m, "type") then None
    else
      var messageType := m["type"].s;
      if messageType == CrownValueType then
        if HasDouble(m, "value") && HasString(m, "mode") then
          Some((ParameterAddress(m["mode"].s), F(narrow(m["value"].d))))
        else None
      else if messageType == BooleanType then
        if HasString(m, "parameter") && HasBool(m, "value") then
          Some((ParameterAddress(m["parameter"].s), B(m["value"].b)))
        else None
      else if messageType == ParticlesType then
        if HasInt(m, "value") then
          ColormodeIsParameterAddress();
          Some((ColormodeAddress, I(m["value"].i)))
        else None
      else None
  }

  /**
   * The OSC message sent for a message from the watch, or `None` when
   * nothing is sent. `sendOSCValue` never rejects a value `handleMessage`
   * gives it, and every address sent is an avatar-parameter address.
   */
  function HandleMessage(m: Message, narrow: real -> real): (r: Option<OscMessage>)
    ensures r.Some? <==> Request(m, narrow).Some?
    ensures r.Some? ==> HasAddressPrefix(r.value.address)
  {
    match Request(m, narrow)
    case None => None
    case Some((parameter, value)) => SendOscValue(parameter, value)
  }

  lemma MissingTypeSendsNothing(m: Message, narrow: real -> real)
    requires "type" !in m || !m["type"].S?
    ensures HandleMessage(m, narrow) == None
  {
  }

  lemma UnknownTypeSendsNothing(m: Message, narrow: real -> real)
    requires HasString(m, "type") && m["type"].s !in KnownTypes
    ensures HandleMessage(m, narrow) == None
  {
  }

  lemma CrownValueSends(m: Message, narrow: real -> real)
    requires HasString(m, "type") && m["type"].s == CrownValueType
    requires HasDouble(m, "value") && HasString(m, "mode")
    ensures HandleMessage(m, narrow)
         == Some(OscMessage(ParameterAddress(m["mode"].s), FloatArg(narrow(m["value"].d))))
  {
  }

  lemma BooleanSends(m: Message, narrow: real -> real)
    requires HasString(m, "type") && m["type"].s == BooleanType
    requires HasString(m, "parameter") && HasBool(m, "value")
    ensures HandleMessage(m, narrow)
         == Some(OscMessage(ParameterAddress(m["parameter"].s), BoolArg(m["value"].b)))
  {
  }

  lemma ParticlesSends(m: Message, narrow: real -> real)
    requires HasString(m, "type") && m["type"].s == ParticlesType
    requires HasInt(m, "value")
    ensures HandleMessage(m, narrow) == Some(OscMessage(ColormodeAddress, IntArg(m["value"].i)))
  {
  }

  /** A known type whose required fields are missing or mistyped sends nothing at all. */
  lemma MalformedSendsNothing(m: Message, narrow: real -> real)
    requires HasString(m, "type")
    requires
      || (m["type"].s == CrownValueType && !(HasDouble(m, "value") && HasString(m, "mode")))
      || (m["type"].s == BooleanType && !(HasString(m, "parameter") && HasBool(m, "value")))
      || (m["type"].s == ParticlesType && !HasInt(m, "value"))
    ensures HandleMessage(m, narrow) == None
  {
  }
}
