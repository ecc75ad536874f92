/**
 * The translator applied to every message the session delivers, in
 * delivery order: the resulting sequence is the log of OSC messages handed
 * to the client.
 */
module Deliveries {
  import opened Options
  import opened OscValues
  import opened Translator
  import opened Envelopes

  /** The OSC messages sent, in order, for a sequence of delivered messages. */
  function SendLog(deliveries: seq<Message>, narrow: real -> real): (log: seq<OscMessage>)
    ensures |log| <= |deliveries|
    ensures forall k :: 0 <= k < |log| ==> HasAddressPrefix(log[k].address)
    decreases |deliveries|
  {
    if deliveries == [] then []
    else
      var last := deliveries[|deliveries| - 1];
      SendLog(deliveries[..|deliveries| - 1], narrow)
        + match HandleMessage(last, narrow)
          case None => []
          case Some(msg) => [msg]
  }

  /**
   * When every delivered message is sent by the translator, each causes
   * exactly one send, in delivery order: the k-th send is what the
   * translator produces for the k-th message.
   */
  lemma {:induction false} SendLogOnePerSent(deliveries: seq<Message>, narrow: real -> real)
    requires forall k :: 0 <= k < |deliveries| ==> HandleMessage(deliveries[k], narrow).Some?
    ensures |SendLog(deliveries, narrow)| == |deliveries|
    ensures forall k :: 0 <= k < |deliveries| ==>
              SendLog(deliveries, narrow)[k] == HandleMessage(deliveries[k], narrow).value
    decreases |deliveries|
  {
    if deliveries != [] {
      var n := |deliveries| - 1;
      var earlier := deliveries[..n];
      assert forall k :: 0 <= k < n ==> earlier[k] == deliveries[k];
      SendLogOnePerSent(earlier, narrow);
    }
  }

  /**
   * When every delivered message decodes, each causes exactly one send, in
   * delivery order, and the k-th send is the translation of the k-th message.
   */
  lemma SendLogOnePerAccepted(deliveries: seq<Message>, narrow: real -> real)
    requires forall k :: 0 <= k < |deliveries| ==> Decode(deliveries[k]).Ok?
    ensures |SendLog(deliveries, narrow)| == |deliveries|
    ensures forall k :: 0 <= k < |deliveries| ==>
              SendLog(deliveries, narrow)[k] == Translate(Decode(deliveries[k]).value, narrow)
  {
    forall k | 0 <= k < |deliveries|
      ensures HandleMessage(deliveries[k], narrow) == Some(Translate(Decode(deliveries[k]).value, narrow))
    {
      DecodedSends(deliveries[k], narrow);
    }
    SendLogOnePerSent(deliveries, narrow);
  }

  /** The log of two delivery sequences in a row is the first log followed by the second. */
  lemma {:induction false} SendLogConcat(a: seq<Message>, b: seq<Message>, narrow: real -> real)
    ensures SendLog(a + b, narrow) == SendLog(a, narrow) + SendLog(b, narrow)
    decreases |b|
  {
    if b == [] {
      assert a + b == a;
    } else {
      var n := |b| - 1;
      assert (a + b)[..|a + b| - 1] == a + b[..n];
      assert (a + b)[|a + b| - 1] == b[n];
      SendLogConcat(a, b[..n], narrow);
    }
  }

  /**
   * A dropped message leaves no trace: removing it from anywhere in the
   * delivery sequence does not change what is sent before or after it.
   */
  lemma DroppedChangesNothing(a: seq<Message>, d: Message, b: seq<Message>, narrow: real -> real)
    requires HandleMessage(d, narrow).None?
    ensures SendLog(a + [d] + b, narrow) == SendLog(a + b, narrow)
  {
    SendLogConcat(a + [d], b, narrow);
    SendLogConcat(a, [d], narrow);
    SendLogConcat(a, b, narrow);
    assert [d][..0] == [];
    assert SendLog([d], narrow) == [];
  }

  /**
   * A momentary button on the watch sends a `boolean` message with `false`
   * and then one with `true` for the same parameter; the companion sends
   * both, in that order, to the same address.
   */
  lemma PulseSendsFalseThenTrue(parameter: string, narrow: real -> real)
    ensures SendLog([Encode(Boolean(parameter, false)), Encode(Boolean(parameter, true))], narrow)
         == [OscMessage(ParameterAddress(parameter), BoolArg(false)),
             OscMessage(ParameterAddress(parameter), BoolArg(true))]
  {
  }
}
