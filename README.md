# watchvrosc companion translator, in Dafny

The watchvrosc iPhone app relays input from the watch app to an OSC (Open
Sound Control) receiver, such as an avatar in VRChat. The watch sends small
`[String: Any]` dictionaries over WatchConnectivity. For each one, the phone's
`ContentView.handleMessage` reads the `type` discriminator and checks that the
fields for that type are present and of the right kind. It then passes at
most one `(address, value)` pair to `sendOSCValue`, which sorts the value
into an OSC argument kind (Float, Int32, Int or Bool) or rejects it.

This project models those two steps as pure functions and proves what they
promise:

- `options.dfy`: the `Option` and `Result` types.
- `osc_values.dfy` (module `OscValues`): `Scalar` is a closed value kind for
  dictionary values (`D` Double, `F` Float, `I` Int, `I32` Int32, `B` Bool,
  `S` String). The module also has the OSC argument kinds and the cast chain
  of `sendOSCValue`.
- `translator.dfy` (module `Translator`): a message is a
  `map<string, Scalar>`. The module has the address construction, the
  `handleMessage` switch, and the per-type send and no-send properties.
- `envelopes.dfy` (module `Envelopes`): a typed view of the same messages.
  `Encode` builds messages the way the watch app's senders do
  (`watchvrosc Watch App/ContentView.swift`, lines 148-220; the false-then-true
  pulse is at lines 164-189). `Decode` returns the
  typed envelope, or the reason the message is dropped (no `type`, unknown
  `type`, malformed fields); it follows the same field checks as
  `handleMessage`. `Translate` is the per-type address/value table.
  Lemmas show that `HandleMessage` equals `Decode` followed by `Translate`,
  and that what the watch sends round-trips.
- `deliveries.dfy` (module `Deliveries`): the send log for a sequence of
  delivered messages. It shows that the log of a sequence is the logs of its
  parts joined in order, that a dropped message anywhere in the sequence
  changes nothing sent before or after it, exactly one send per well-formed
  message in delivery order, and the false-then-true pulse.

The conversion `Float(value)` from Double to Float is not interpreted. Every
translator function takes it as a parameter `narrow: real -> real`, so every
property holds for any such conversion.

This `handleMessage` has no `parameter` case: such a message falls into the
`default` branch and sends nothing (`UnknownTypeSendsNothing`).

## Model

| member | source | states |
|---|---|---|
| `OscValues.ArgumentOf` | watchvrosc/ContentView.swift:59-71 | a value gets an OSC argument exactly when it is a Float, Int32, Int or Bool (on a closed `Scalar` at most one cast succeeds, so the Float, Int32, Int, Bool order cannot change the result); a Double or String is unsupported; the argument carries the value unchanged |
| `OscValues.ValueOf` | watchvrosc/ContentView.swift:60-67 | every OSC argument comes from a supported value kind |
| `OscValues.ArgumentOfValueOf` | watchvrosc/ContentView.swift:60-67 | casting the value an argument came from gives back the same argument |
| `OscValues.SendOscValue` | watchvrosc/ContentView.swift:57-71 | nothing is transmitted exactly when the value is a Double or String; otherwise one message goes to the given parameter string with the value unchanged |
| `Translator.ParameterAddress` | watchvrosc/ContentView.swift:35 | the built address starts with `/avatar/parameters/`, and the rest of it is the name |
| `Translator.ParameterName` | watchvrosc/ContentView.swift:44 | inverse of address building: defined exactly on prefixed addresses, and rebuilding the address from the name gives the same string |
| `Translator.ParameterNameOfAddress` | watchvrosc/ContentView.swift:44 | the name is recovered from the address built for it |
| `Translator.ParameterAddressInjective` | watchvrosc/ContentView.swift:35-44 | distinct parameter names never get the same address |
| `Translator.ColormodeIsParameterAddress` | watchvrosc/ContentView.swift:49 | the fixed particles address is the avatar-parameter address of `VF84_PC/Vis/Colormode` |
| `Translator.Request` | watchvrosc/ContentView.swift:22-55 | `handleMessage` calls `sendOSCValue` only for a message with a known `type` string; it then passes a prefixed address and a Float, Bool or Int value (never an Int32, Double or String) |
| `Translator.HandleMessage` | watchvrosc/ContentView.swift:22-71 | a message leads to an OSC send exactly when `handleMessage` calls `sendOSCValue`, so the unsupported-type branch is never reached from it; every address sent starts with `/avatar/parameters/` |
| `Translator.MissingTypeSendsNothing` | watchvrosc/ContentView.swift:25-28 | no `type` key, or a `type` that is not a String: nothing is sent |
| `Translator.UnknownTypeSendsNothing` | watchvrosc/ContentView.swift:52-53 | a `type` other than `crownValue`, `boolean` or `particles`: nothing is sent |
| `Translator.CrownValueSends` | watchvrosc/ContentView.swift:31-36 | `crownValue` with a Double `value` and a String `mode`: one send to `/avatar/parameters/<mode>` with the narrowed value as a float |
| `Translator.BooleanSends` | watchvrosc/ContentView.swift:41-45 | `boolean` with a String `parameter` and a Bool `value`: one send to `/avatar/parameters/<parameter>` with the bool unchanged |
| `Translator.ParticlesSends` | watchvrosc/ContentView.swift:47-50 | `particles` with an Int `value`: one send to `/avatar/parameters/VF84_PC/Vis/Colormode` with the int unchanged |
| `Translator.MalformedSendsNothing` | watchvrosc/ContentView.swift:30-51 | a known `type` whose required fields are missing or of the wrong kind sends nothing; no partial or default value goes out |
| `Envelopes.Encode` | watchvrosc/ContentView.swift:25-50 | the message shapes built by the watch's senders (in the watch app's `ContentView.swift`, lines 148-220), which the decoder at the cited lines reads; each carries a known `type` string |
| `Envelopes.Decode` | watchvrosc/ContentView.swift:25-51 | decoding succeeds only when the message contains the envelope's encoding (extra keys ignored); a missing `type` is reported exactly when there is no `type` string; a `type` string outside the known three is reported as that unknown type; a known type that does not decode is reported as malformed with that type |
| `Envelopes.Translate` | watchvrosc/ContentView.swift:31-50 | each envelope goes to the avatar-parameter address of its target name, with the float, bool or int it carries |
| `Envelopes.DecodeEncode` | watchvrosc/ContentView.swift:25-50 | every message the watch's senders build (watch app `ContentView.swift`, lines 148-220) decodes back to the envelope it was built from |
| `Envelopes.DecodeWithin` | watchvrosc/ContentView.swift:30-51 | a message that contains an envelope's fields, with any extra keys, decodes to that envelope |
| `Envelopes.HandleMessageIsDecodeThenTranslate` | watchvrosc/ContentView.swift:22-55 | `handleMessage` sends exactly for decodable messages, and sends their translation |
| `Envelopes.DecodedSends` | watchvrosc/ContentView.swift:30-51 | a message that decodes is sent exactly once, as the translation of its envelope |
| `Envelopes.HandleEncoded` | watchvrosc/ContentView.swift:22-55 | what the watch sends reaches the address and value of the translation table |
| `Envelopes.SameAddressSameTarget` | watchvrosc/ContentView.swift:35-49 | two messages that are sent to the same address name the same target parameter |
| `Deliveries.SendLog` | watchvrosc/ContentView.swift:22-55 | over any sequence of delivered messages, there are at most as many sends as messages, and every address sent has the avatar-parameter prefix |
| `Deliveries.SendLogOnePerSent` | watchvrosc/ContentView.swift:22-55 | when the translator sends for every delivered message, there is exactly one send per message, in delivery order, and the k-th send is the translator's message for the k-th delivery |
| `Deliveries.SendLogOnePerAccepted` | watchvrosc/ContentView.swift:30-51 | when every delivered message is well formed, there is exactly one send per message, in delivery order, and the k-th send is the translation of the k-th message |
| `Deliveries.SendLogConcat` | watchvrosc/ContentView.swift:22-55 | each delivery is handled on its own: the log of two sequences delivered one after the other is the first log followed by the second |
| `Deliveries.DroppedChangesNothing` | watchvrosc/ContentView.swift:25-53 | a message that sends nothing, wherever it sits in the delivery sequence, changes nothing that is sent before or after it |
| `Deliveries.PulseSendsFalseThenTrue` | watchvrosc/ContentView.swift:41-45 | the watch's false-then-true button pulse becomes two sends to the same address, false then true |

## Left out

- OSC packet encoding and `client.send` (watchvrosc/ContentView.swift:72-77) belong to the OSCKit library. The model stops at the abstract `(address, argument)` message handed to the client.
- Send errors and all `print` logging are I/O. A failed send changes nothing in the model.
- `PhoneSessionDelegator` and WatchConnectivity activation are session plumbing. Delivery is modelled only as a sequence of messages given to the handler in order.
- The SwiftUI `body` and the main-queue update of `receivedValue` are UI state.
- The Double to Float narrowing is floating-point conversion. It is the uninterpreted parameter `narrow`. Doubles and Floats are modelled as reals, so NaN, infinities and rounding are not represented.
- Foundation/NSNumber bridging of `as?` casts is not modelled. For example, a boxed number may cast to several numeric types. Each cast is a strict match on the kind of the `Scalar`.
- The host and port are constants only.
- The watch app is context. Only the shapes of the messages it builds (`Encode`) and its false-then-true pulse order are used. The 0.1 s delay between the two pulse messages, the reachability check, and the modulo-6 particles counter are not part of this model.
