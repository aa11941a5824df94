/** The sending side of the message queue: the service encodes a message with the converter and
    hands the bytes to the sender, choosing the sender overload that matches its own. */
module MessageQueueService {
  import opened Wrappers
  import opened Json
  import Utf8
  import opened MessageConverter

  /** One call on the `MessageSender` interface. Times and durations are kept as opaque
      numbers (an instant and a length of time), which the service only passes on. */
  datatype SendCall =
    | Immediate(messageType: string, bytes: seq<Utf8.byte>)
    | At(messageType: string, bytes: seq<Utf8.byte>, time: int)
    | Periodic(messageType: string, bytes: seq<Utf8.byte>, firstTime: int, interval: int)

  /** A sender that records the calls made on it, in order. */
  class RecordingSender {
    var calls: seq<SendCall>

    constructor ()
      ensures calls == []
    {
      calls := [];
    }

    method Send(messageType: string, bytes: seq<Utf8.byte>)
      modifies this
      ensures calls == old(calls) + [Immediate(messageType, bytes)]
    {
      calls := calls + [Immediate(messageType, bytes)];
    }

    method SendAt(messageType: string, bytes: seq<Utf8.byte>, time: int)
      modifies this
      ensures calls == old(calls) + [At(messageType, bytes, time)]
    {
      calls := calls + [At(messageType, bytes, time)];
    }

    method SendPeriodic(messageType: string, bytes: seq<Utf8.byte>, firstTime: int, interval: int)
      modifies this
      ensures calls == old(calls) + [Periodic(messageType, bytes, firstTime, interval)]
    {
      calls := calls + [Periodic(messageType, bytes, firstTime, interval)];
    }
  }

  /** `MessageQueueServiceImpl`: holds the sender and the converter and nothing else. */
  class QueueService {
    const messageSender: RecordingSender
    const messageConverter: Converter

    constructor (messageSender: RecordingSender, messageConverter: Converter)
      ensures this.messageSender == messageSender && this.messageConverter == messageConverter
    {
      this.messageSender := messageSender;
      this.messageConverter := messageConverter;
    }

    /** Immediate `send`: exactly one immediate call, with the same tag and the encoded bytes. */
    method Send(messageType: string, messageBody: Value)
      modifies messageSender
      ensures messageSender.calls ==
        old(messageSender.calls) + [Immediate(messageType, messageConverter.ToBytes(messageType, messageBody))]
    {
      var bytes := messageConverter.ToBytes(messageType, messageBody);
      messageSender.Send(messageType, bytes);
    }

    /** Timed `send`: exactly one timed call; the trigger time is passed on unchanged. */
    method SendAt(messageType: string, messageBody: Value, time: int)
      modifies messageSender
      ensures messageSender.calls ==
        old(messageSender.calls) + [At(messageType, messageConverter.ToBytes(messageType, messageBody), time)]
    {
      var bytes := messageConverter.ToBytes(messageType, messageBody);
      messageSender.SendAt(messageType, bytes, time);
    }

    /** Periodic `send`: exactly one periodic call; the first time and the interval are passed
        on unchanged. */
    method SendPeriodic(messageType: string, messageBody: Value, firstTime: int, interval: int)
      modifies messageSender
      ensures messageSender.calls ==
        old(messageSender.calls) +
        [Periodic(messageType, messageConverter.ToBytes(messageType, messageBody), firstTime, interval)]
    {
      var bytes := messageConverter.ToBytes(messageType, messageBody);
      messageSender.SendPeriodic(messageType, bytes, firstTime, interval);
    }
  }

  /** The tag a sender is given and the tag inside the bytes it is given agree: whenever the
      bytes are read back, they carry the same tag. */
  lemma ForwardedTagMatches(c: Converter, messageType: string, messageBody: Value)
    ensures c.FromBytes(c.ToBytes(messageType, messageBody)).Ok? ==>
      c.FromBytes(c.ToBytes(messageType, messageBody)).value.0 == messageType
  {
    var envelope := Envelope(messageType, Serialize(messageBody));
    Json.RoundTrip(envelope, EnvelopeShape);
    assert StringProperty(envelope.members, "type") == Some(messageType);
  }
}
