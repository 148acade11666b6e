/** `format_for_bridge`: one delivery record per message, with the timing
    fields left empty so that the bridge computes them itself. */
module Bridge {
  datatype Option<T> = None | Some(value: T)

  /** A message as the bridge receives it: the text, the typing delay and
      the delay before sending, in seconds. */
  datatype DeliveryRecord = DeliveryRecord(text: string, typingDelay: Option<real>, delayBefore: Option<real>)

  /** A record that leaves both delays to the bridge. */
  predicate LeavesTiming(r: DeliveryRecord) {
    r.typingDelay == None && r.delayBefore == None
  }

  /** The texts the records carry, in order. */
  function Texts(records: seq<DeliveryRecord>): (texts: seq<string>)
    ensures |texts| == |records|
  {
    if records == [] then []
    else Texts(records[..|records| - 1]) + [records[|records| - 1].text]
  }

  method FormatForBridge(messages: seq<string>) returns (records: seq<DeliveryRecord>)
    ensures |records| == |messages|
    ensures Texts(records) == messages
    ensures forall i :: 0 <= i < |records| ==> LeavesTiming(records[i])
  {
    records := [];
    for i := 0 to |messages|
      invariant |records| == i
      invariant forall k :: 0 <= k < i ==> records[k].text == messages[k] && LeavesTiming(records[k])
    {
      records := records + [DeliveryRecord(messages[i], None, None)];
    }
    TextsRoundTrip(records, messages);
  }

  /** Records that carry the messages one by one give back exactly the
      messages: formatting loses and reorders nothing. */
  lemma {:induction false} TextsRoundTrip(records: seq<DeliveryRecord>, messages: seq<string>)
    requires |records| == |messages|
    requires forall i :: 0 <= i < |records| ==> records[i].text == messages[i]
    ensures Texts(records) == messages
    decreases |records|
  {
    if records != [] {
      var n := |records|;
      TextsRoundTrip(records[..n - 1], messages[..n - 1]);
      assert messages[..n - 1] + [messages[n - 1]] == messages;
    }
  }
}
