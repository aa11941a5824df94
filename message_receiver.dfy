/** The receiving end of the message queue: the process-wide receiver slot, the receiver that
    builds its listener registry when constructed, and the dispatch of incoming bytes to the
    listener registered for the message's tag. */
module MessageReceiver {
  import opened Wrappers
  import opened Json
  import Utf8
  import opened MessageConverter

  const RECEIVER_IMPL_CLASS := "infrastructure.mq.internal.MessageReceiverImpl"

  /** A message listener: the tag it declares, its class name, and whether `handle` completes
      normally (true) or throws (false) on a given body. */
  class Listener {
    const messageType: string
    const className: string
    const handle: Value -> bool

    constructor (messageType: string, className: string, handle: Value -> bool)
      ensures this.messageType == messageType && this.className == className
      ensures this.handle == handle
    {
      this.messageType := messageType;
      this.className := className;
      this.handle := handle;
    }
  }

  function ForwarderConflict(first: string, second: string): string
  {
    "Multiple message forwarder found: " + first + ", " + second
  }

  function ListenerConflict(messageType: string, first: string, second: string): string
  {
    "Multiple listeners for message type[" + messageType + "] found: " + first + ", " + second
  }

  /** No two listeners declare the same tag. */
  predicate DistinctTags(ls: seq<Listener>)
  {
    forall i, j :: 0 <= i < j < |ls| ==> ls[i].messageType != ls[j].messageType
  }

  /** The registry the constructor builds, listener by listener; the first listener whose tag
      is already taken ends it with an error naming both listener classes. */
  function BuildRegistry(ls: seq<Listener>): Result<map<string, Listener>, string>
  {
    if ls == [] then Ok(map[])
    else
      match BuildRegistry(ls[..|ls| - 1])
      case Err(e) => Err(e)
      case Ok(m) =>
        var l := ls[|ls| - 1];
        if l.messageType in m then Err(ListenerConflict(l.messageType, m[l.messageType].className, l.className))
        else Ok(m[l.messageType := l])
  }

  /** Every entry of a registry comes from the listeners it was built from. */
  lemma {:induction false} RegistryEntries(ls: seq<Listener>)
    requires BuildRegistry(ls).Ok?
    ensures var m := BuildRegistry(ls).value;
      (forall t :: t in m ==> m[t].messageType == t && m[t] in ls)
      && (forall i :: 0 <= i < |ls| ==> ls[i].messageType in m && m[ls[i].messageType] == ls[i])
  {
    if ls != [] {
      var init := ls[..|ls| - 1];
      RegistryEntries(init);
      assert forall i :: 0 <= i < |init| ==> init[i] == ls[i];
    }
  }

  /** Construction succeeds exactly when the declared tags are distinct. */
  lemma {:induction false} RegistryOkIffDistinct(ls: seq<Listener>)
    ensures BuildRegistry(ls).Ok? <==> DistinctTags(ls)
  {
    if ls != [] {
      var init := ls[..|ls| - 1];
      var l := ls[|ls| - 1];
      RegistryOkIffDistinct(init);
      assert forall i :: 0 <= i < |init| ==> init[i] == ls[i];
      if BuildRegistry(init).Ok? {
        RegistryEntries(init);
        var m := BuildRegistry(init).value;
        if l.messageType in m {
          var k :| 0 <= k < |init| && init[k] == m[l.messageType];
          assert ls[k].messageType == ls[|ls| - 1].messageType;
        }
      }
    }
  }

  /** A failed construction names the class of the earlier listener with the clashing tag
      and then the class of the later one. */
  lemma {:induction false} RegistryConflict(ls: seq<Listener>)
    requires BuildRegistry(ls).Err?
    ensures exists i, j :: (0 <= i < j < |ls| && ls[i].messageType == ls[j].messageType &&
      BuildRegistry(ls).error == ListenerConflict(ls[j].messageType, ls[i].className, ls[j].className))
  {
    var init := ls[..|ls| - 1];
    assert forall i :: 0 <= i < |init| ==> init[i] == ls[i];
    if BuildRegistry(init).Err? {
      RegistryConflict(init);
    } else {
      RegistryEntries(init);
      var m := BuildRegistry(init).value;
      var l := ls[|ls| - 1];
      var k :| 0 <= k < |init| && init[k] == m[l.messageType];
      assert ls[k].messageType == ls[|ls| - 1].messageType;
    }
  }

  /** A registry error on a prefix is the error of the whole list. */
  lemma {:induction false} RegistryErrorPersists(ls: seq<Listener>, k: nat)
    requires k <= |ls| && BuildRegistry(ls[..k]).Err?
    ensures BuildRegistry(ls) == BuildRegistry(ls[..k])
    decreases |ls| - k
  {
    if k < |ls| {
      assert ls[..k + 1][..k] == ls[..k];
      RegistryErrorPersists(ls, k + 1);
    } else {
      assert ls[..k] == ls;
    }
  }

  /** `MessageReceiverImpl`: the converter it reads with and the registry of listeners. */
  class ReceiverImpl {
    const className: string
    const messageConverter: Converter
    var listenerMap: map<string, Listener>

    constructor (messageConverter: Converter)
      ensures this.messageConverter == messageConverter && className == RECEIVER_IMPL_CLASS
      ensures listenerMap == map[]
    {
      this.messageConverter := messageConverter;
      className := RECEIVER_IMPL_CLASS;
      listenerMap := map[];
    }

    /** The registering loop of the constructor. On a clash the map keeps what was registered
        before the clashing listener. */
    method Register(listeners: seq<Listener>) returns (err: Option<string>)
      requires listenerMap == map[]
      modifies this
      ensures err.None? <==> BuildRegistry(listeners).Ok?
      ensures err.None? ==> listenerMap == BuildRegistry(listeners).value
      ensures err.Some? ==> Err(err.value) == BuildRegistry(listeners)
      ensures err.Some? ==> exists k :: (0 <= k < |listeners| &&
        BuildRegistry(listeners[..k]) == Ok(listenerMap) && listeners[k].messageType in listenerMap)
    {
      var i := 0;
      while i < |listeners|
        invariant 0 <= i <= |listeners|
        invariant BuildRegistry(listeners[..i]) == Ok(listenerMap)
      {
        var l := listeners[i];
        assert listeners[..i + 1][..i] == listeners[..i];
        if l.messageType in listenerMap {
          RegistryErrorPersists(listeners, i + 1);
          return Some(ListenerConflict(l.messageType, listenerMap[l.messageType].className, l.className));
        }
        listenerMap := listenerMap[l.messageType := l];
        i := i + 1;
      }
      assert listeners[..i] == listeners;
      return None;
    }

    /** `onMessageReceived`: a conversion failure propagates; otherwise the result is whether the
        listener for the tag handled the body without throwing, and false when there is none. */
    function OnMessageReceived(bytes: seq<Utf8.byte>): (r: Result<bool, ConversionError>)
      reads this
      ensures messageConverter.FromBytes(bytes).Err? <==> r.Err?
      ensures r.Err? ==> r.error == messageConverter.FromBytes(bytes).error
      ensures r == Ok(true) ==> messageConverter.FromBytes(bytes).value.0 in listenerMap
      ensures messageConverter.FromBytes(bytes).Ok? ==>
        var (messageType, body) := messageConverter.FromBytes(bytes).value;
        r == Ok(messageType in listenerMap && listenerMap[messageType].handle(body))
    {
      match messageConverter.FromBytes(bytes)
      case Err(e) => Err(e)
      case Ok((messageType, body)) =>
        if messageType !in listenerMap then Ok(false)
        else Ok(listenerMap[messageType].handle(body))
    }
  }

  /** The static `messageReceiver` field of `MessageReceiver`: empty until the first receiver
      is constructed, never written again afterwards. */
  class ReceiverSlot {
    var messageReceiver: ReceiverImpl?

    constructor ()
      ensures messageReceiver == null
    {
      messageReceiver := null;
    }

    /** `getInstance` */
    function GetInstance(): (r: ReceiverImpl?)
      reads this
      ensures r == messageReceiver
    {
      messageReceiver
    }

    /** `new MessageReceiverImpl(converter, listeners)`: the superclass constructor claims the
        slot first, so a registry clash afterwards leaves the slot holding the new receiver. */
    method NewReceiverImpl(messageConverter: Converter, listeners: seq<Listener>) returns (r: Result<ReceiverImpl, string>)
      modifies this
      ensures old(messageReceiver) != null ==> (messageReceiver == old(messageReceiver) &&
        r == Err(ForwarderConflict(old(messageReceiver).className, RECEIVER_IMPL_CLASS)))
      ensures old(messageReceiver) == null ==> (messageReceiver != null && fresh(messageReceiver) &&
        messageReceiver.messageConverter == messageConverter)
      ensures old(messageReceiver) == null ==> (r.Ok? <==> DistinctTags(listeners))
      ensures r.Ok? ==> (BuildRegistry(listeners).Ok? && r.value == messageReceiver &&
        r.value.listenerMap == BuildRegistry(listeners).value)
      ensures old(messageReceiver) == null && r.Err? ==> Err(r.error) == BuildRegistry(listeners)
    {
      if messageReceiver != null {
        return Err(ForwarderConflict(messageReceiver.className, RECEIVER_IMPL_CLASS));
      }
      var impl := new ReceiverImpl(messageConverter);
      messageReceiver := impl;
      var err := impl.Register(listeners);
      RegistryOkIffDistinct(listeners);
      if err.Some? {
        return Err(err.value);
      }
      return Ok(impl);
    }
  }

  /** End to end: a message encoded for a registered tag reaches the listener declaring that
      tag, and the result is whether its `handle` completed; a tag nobody listens to gives false. */
  lemma DeliverEncoded(impl: ReceiverImpl, listeners: seq<Listener>, messageType: string, body: Value)
    requires BuildRegistry(listeners).Ok? && impl.listenerMap == BuildRegistry(listeners).value
    requires messageType in impl.messageConverter.messageTypeClassMap
    requires Conforms(body, impl.messageConverter.messageTypeClassMap[messageType])
    ensures var r := impl.OnMessageReceived(impl.messageConverter.ToBytes(messageType, body));
      (forall i :: 0 <= i < |listeners| && listeners[i].messageType == messageType ==>
         r == Ok(listeners[i].handle(body)))
      && ((forall i :: 0 <= i < |listeners| ==> listeners[i].messageType != messageType) ==> r == Ok(false))
  {
    MessageConverter.RoundTrip(impl.messageConverter, messageType, body);
    DeliverDecoded(impl, listeners, impl.messageConverter.ToBytes(messageType, body), messageType, body);
  }

  /** Any bytes the converter decodes, whatever else the envelope carries, reach the listener
      declaring the decoded tag, and the result is whether its `handle` completed; a tag nobody
      listens to gives false. */
  lemma DeliverDecoded(impl: ReceiverImpl, listeners: seq<Listener>, bytes: seq<Utf8.byte>, messageType: string, body: Value)
    requires BuildRegistry(listeners).Ok? && impl.listenerMap == BuildRegistry(listeners).value
    requires impl.messageConverter.FromBytes(bytes) == Ok((messageType, body))
    ensures var r := impl.OnMessageReceived(bytes);
      (forall i :: 0 <= i < |listeners| && listeners[i].messageType == messageType ==>
         r == Ok(listeners[i].handle(body)))
      && ((forall i :: 0 <= i < |listeners| ==> listeners[i].messageType != messageType) ==> r == Ok(false))
  {
    RegistryEntries(listeners);
  }
}
