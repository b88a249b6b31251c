/** The closure messages built by publishClosureMessages and the run of main:
    scan, delete the due keys, and publish one closure message per expired
    delivery execution when there is at least one. */
module Closure {
  import opened GoStrconv
  import opened Expiry

  datatype Option<T> = None | Some(value: T)

  /** ClosureMessageBody: the inner payload {"deliveryExecutionId": id}. */
  datatype ClosureMessageBody = ClosureMessageBody(deliveryExecutionId: string)

  /** ClosureMessage. The body is kept as the payload it encodes rather than as
      its JSON text; properties is the empty list []int{}. */
  datatype ClosureMessage = ClosureMessage(
    body: ClosureMessageBody,
    properties: seq<int>,
    headers: map<string, string>)

  const ContentTypeHeader := "Content-Type"
  const TypeHeader := "type"
  const JsonContentType := "application/json"
  const ClosureMessageType := @"App\Messenger\Message\DeliveryExecutionClosureMessage"

  /** The package-level headers map shared by every message. */
  const Headers: map<string, string> :=
    map[ContentTypeHeader := JsonContentType, TypeHeader := ClosureMessageType]

  /** The message the goroutine for one id builds before publishing it: a receiver
      reads it back as that id; it carries no properties and the shared headers. */
  function NewClosureMessage(id: string): (m: ClosureMessage)
    ensures ReadClosureMessage(m) == Some(id)
    ensures m.properties == [] && m.headers == Headers
  {
    ClosureMessage(ClosureMessageBody(id), [], Headers)
  }

  /** How a receiver reads a closure message: it must be JSON tagged as a
      DeliveryExecutionClosureMessage, and then names the execution to close.
      This is the partner of NewClosureMessage, not code of the closure script. */
  function ReadClosureMessage(m: ClosureMessage): Option<string>
  {
    if ContentTypeHeader in m.headers && m.headers[ContentTypeHeader] == JsonContentType &&
       TypeHeader in m.headers && m.headers[TypeHeader] == ClosureMessageType
    then Some(m.body.deliveryExecutionId)
    else None
  }

  /** A built message reads back as its id and carries exactly the two fixed headers. */
  lemma ClosureMessageRoundTrip(id: string)
    ensures ReadClosureMessage(NewClosureMessage(id)) == Some(id)
    ensures NewClosureMessage(id).headers.Keys == {ContentTypeHeader, TypeHeader}
    ensures NewClosureMessage(id).headers[ContentTypeHeader] == JsonContentType
    ensures NewClosureMessage(id).headers[TypeHeader] == ClosureMessageType
  {
  }

  /** Distinct ids never share a message. */
  lemma ClosureMessageInjective(a: string, b: string)
    requires NewClosureMessage(a) == NewClosureMessage(b)
    ensures a == b
  {
    ClosureMessageRoundTrip(a);
    ClosureMessageRoundTrip(b);
  }

  /** The messages the per-id goroutines of publishClosureMessages build, one per id. */
  function ClosureMessages(ids: seq<string>): (messages: seq<ClosureMessage>)
    ensures |messages| == |ids|
    ensures forall i :: 0 <= i < |ids| ==> ReadClosureMessage(messages[i]) == Some(ids[i])
  {
    seq(|ids|, i requires 0 <= i < |ids| => NewClosureMessage(ids[i]))
  }

  /** Exactly one message per id, and the i-th reads back as the i-th id. */
  lemma OneMessagePerId(ids: seq<string>)
    ensures |ClosureMessages(ids)| == |ids|
    ensures forall i :: 0 <= i < |ids| ==>
      ReadClosureMessage(ClosureMessages(ids)[i]) == Some(ids[i]) &&
      ClosureMessages(ids)[i].headers == Headers && ClosureMessages(ids)[i].properties == []
  {
  }

  /** Whether main called publishClosureMessages, and with which messages. */
  datatype Publication = NotAttempted | Attempted(messages: seq<ClosureMessage>)

  /** A run of main: the key loop panicked, or the due keys were passed to Del
      and publishing followed or was skipped. */
  datatype RunOutcome = Panicked(key: string) | Finished(deletedKeys: seq<string>, publication: Publication)

  /** main: getDataFromRedis, then publishClosureMessages only when it returned ids. */
  method CloseExpired(keys: seq<string>, now: int64) returns (outcome: RunOutcome)
    ensures outcome.Panicked? <==> !AllHaveTimestampSegment(keys)
    ensures outcome.Panicked? ==> ExpirySelection(keys, now) == IndexOutOfRange(outcome.key)
    ensures outcome.Finished? ==> outcome.deletedKeys == DueKeys(keys, now)
    ensures outcome.Finished? ==> (outcome.publication.Attempted? <==> |DueKeys(keys, now)| > 0)
    ensures outcome.Finished? && outcome.publication.Attempted? ==>
      var deleted, messages := outcome.deletedKeys, outcome.publication.messages;
      |messages| == |deleted| &&
      forall i :: 0 <= i < |deleted| ==>
        IsDue(deleted[i], now) && ReadClosureMessage(messages[i]) == Some(IdOf(deleted[i]))
    ensures outcome.Finished? && outcome.publication.Attempted? ==>
      forall i :: 0 <= i < |outcome.deletedKeys| ==>
        outcome.publication.messages[i] == NewClosureMessage(IdOf(outcome.deletedKeys[i]))
  {
    var scan := SelectExpired(keys, now);
    match scan
    case IndexOutOfRange(key) =>
      outcome := Panicked(key);
    case Completed(Scan(expiredKeys, ids)) =>
      if |ids| > 0 {
        outcome := Finished(expiredKeys, Attempted(ClosureMessages(ids)));
      } else {
        outcome := Finished(expiredKeys, NotAttempted);
      }
  }
}
