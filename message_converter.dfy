/** The message converter of the queue: a message is an envelope `{"type": tag, "body": json}`
    whose body is the message object already written as JSON text; the envelope is written as
    JSON and sent as UTF-8 bytes. Reading back binds the body to the shape registered for the
    tag in a map fixed when the converter is built. */
module MessageConverter {
  import opened Wrappers
  import Utf8
  import opened Json

  /** Why `fromBytes` fails; in the source each of these is an unchecked exception. */
  datatype ConversionError =
    | BadEnvelope(cause: JsonError)   // the bytes are not an envelope
    | NullEnvelope                    // the envelope text is JSON `null`
    | MissingBody                     // the envelope has no body text
    | BadBody(cause: JsonError)       // the body does not bind to the tag's shape

  /** The `Message` envelope class: two string properties. */
  const EnvelopeShape: Shape := RecordShape(map["type" := StringShape, "body" := StringShape])

  /** The envelope `new Message(type, body)` as the mapper writes it. */
  function Envelope(messageType: string, body: string): (v: Value)
    ensures Conforms(v, EnvelopeShape)
  {
    JObj([Member("type", JStr(messageType)), Member("body", JStr(body))])
  }

  /** The value a string property of a bound object takes: the last member of that name wins,
      and an absent or null member leaves the property null. */
  function StringProperty(ms: seq<Member>, name: string): (r: Option<string>)
    ensures r.Some? ==> exists i :: 0 <= i < |ms| && ms[i].name == name && ms[i].value == JStr(r.value)
  {
    if ms == [] then None
    else
      var last := ms[|ms| - 1];
      if last.name == name then (if last.value.JStr? then Some(last.value.s) else None)
      else StringProperty(ms[..|ms| - 1], name)
  }

  datatype Converter = Converter(messageTypeClassMap: map<string, Shape>)
  {
    /** `toBytes`: wraps the tag and the serialized body in an envelope and encodes it. The map
        is not consulted, so every tag encodes. */
    function ToBytes(messageType: string, messageBody: Value): (bytes: seq<Utf8.byte>)
      ensures Utf8.Decode(bytes) == Serialize(Envelope(messageType, Serialize(messageBody)))
    {
      Utf8.DecodeEncode(Serialize(Envelope(messageType, Serialize(messageBody))));
      Utf8.Encode(Serialize(Envelope(messageType, Serialize(messageBody))))
    }

    /** The shape registered for a tag; an absent or null tag has none. */
    function ShapeFor(messageType: Option<string>): (r: Option<Shape>)
      ensures r.Some? <==> messageType.Some? && messageType.value in messageTypeClassMap
      ensures r.Some? ==> r.value == messageTypeClassMap[messageType.value]
    {
      if messageType.Some? && messageType.value in messageTypeClassMap
      then Some(messageTypeClassMap[messageType.value])
      else None
    }

    /** `fromBytes`: decodes the envelope, then binds its body to the shape registered for its
        tag and returns the tag with the bound body. */
    function FromBytes(bytes: seq<Utf8.byte>): (r: Result<(string, Value), ConversionError>)
      ensures r.Ok? ==> r.value.0 in messageTypeClassMap
      ensures r.Ok? ==> Conforms(r.value.1, messageTypeClassMap[r.value.0])
    {
      match Deserialize(Utf8.Decode(bytes), Some(EnvelopeShape))
      case Err(e) => Err(BadEnvelope(e))
      case Ok(envelope) =>
        if envelope.JNull? then Err(NullEnvelope)
        else
          var messageType := StringProperty(envelope.members, "type");
          var body := StringProperty(envelope.members, "body");
          if body.None? then Err(MissingBody)
          else
            match Deserialize(body.value, ShapeFor(messageType))
            case Err(e) => Err(BadBody(e))
            case Ok(v) => Ok((messageType.value, v))
    }
  }

  /** A registered tag and a body of its shape come back unchanged. */
  lemma RoundTrip(c: Converter, messageType: string, messageBody: Value)
    requires messageType in c.messageTypeClassMap
    requires Conforms(messageBody, c.messageTypeClassMap[messageType])
    ensures c.FromBytes(c.ToBytes(messageType, messageBody)) == Ok((messageType, messageBody))
  {
    var envelope := Envelope(messageType, Serialize(messageBody));
    Json.RoundTrip(envelope, EnvelopeShape);
    assert StringProperty(envelope.members, "type") == Some(messageType);
    Json.RoundTrip(messageBody, c.messageTypeClassMap[messageType]);
  }

  /** A tag with no registered shape encodes, but its message cannot be read back. */
  lemma UnregisteredTag(c: Converter, messageType: string, messageBody: Value)
    requires messageType !in c.messageTypeClassMap
    ensures c.FromBytes(c.ToBytes(messageType, messageBody)) == Err(BadBody(NoTargetType))
  {
    var envelope := Envelope(messageType, Serialize(messageBody));
    Json.RoundTrip(envelope, EnvelopeShape);
    assert StringProperty(envelope.members, "type") == Some(messageType);
  }

  /** The tag `fromBytes` returns is the one stored in the envelope. */
  lemma FromBytesTag(c: Converter, bytes: seq<Utf8.byte>)
    requires c.FromBytes(bytes).Ok?
    ensures Deserialize(Utf8.Decode(bytes), Some(EnvelopeShape)).Ok?
    ensures var envelope := Deserialize(Utf8.Decode(bytes), Some(EnvelopeShape)).value;
      envelope.JObj? && StringProperty(envelope.members, "type") == Some(c.FromBytes(bytes).value.0)
  {
  }
}
