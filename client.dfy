/**
 * The chat client object (`IrcClient`): its fields are updated in place by
 * the command handlers, and every handler is proved to take the session
 * described by `Snapshot()` to the one the matching function of module
 * `Session` gives.
 */
module Client {
  import opened Wrappers
  import opened KeyOrder
  import opened Consumer
  import opened Session

  /** A joined channel: its broker channel number and the consumer subscribed on it. */
  datatype Channel = Channel(id: nat, consumer: ChannelConsumer)

  /** The broker channel number of every joined channel. */
  ghost function Ids(m: map<string, Channel>): (ids: map<string, nat>)
    ensures ids.Keys == m.Keys
    ensures forall c :: c in m ==> ids[c] == m[c].id
  {
    map c | c in m :: m[c].id
  }

  lemma IdsRemove(m: map<string, Channel>, k: string)
    ensures Ids(m - {k}) == Ids(m) - {k}
  {
  }

  lemma IdsAdd(m: map<string, Channel>, k: string, ch: Channel)
    ensures Ids(m[k := ch]) == Ids(m)[k := ch.id]
  {
  }

  class IrcClient {
    var nickname: Option<string>
    var registeredExchange: map<string, Channel>
    var isTerminated: bool
    const queueMessage: MessageQueue
    var nextChannel: nat
    var log: seq<Action>
    var output: seq<string>
    var errors: seq<string>

    /**
     * Every joined channel's consumer carries that channel's name and feeds
     * this client's queue, and the joined channels sit on distinct broker
     * channel numbers below `nextChannel`.
     */
    ghost predicate Valid()
      reads this`registeredExchange, this`nextChannel
    {
      && (forall c :: c in registeredExchange ==>
            registeredExchange[c].consumer.channelName == c && registeredExchange[c].consumer.queue == queueMessage)
      && (forall c :: c in registeredExchange ==> registeredExchange[c].id < nextChannel)
      && (forall c, d :: c in registeredExchange && d in registeredExchange && c != d ==>
            registeredExchange[c].id != registeredExchange[d].id)
    }

    /** The client's state as a `Session` value. */
    ghost function Snapshot(): Session
      reads this
    {
      Session(nickname, Ids(registeredExchange),
              isTerminated, nextChannel, log, output, errors)
    }

    constructor ()
      ensures Valid() && fresh(queueMessage) && queueMessage.items == []
      ensures Snapshot() == Session(None, map[], false, 0, [], [], [])
    {
      nickname := None;
      registeredExchange := map[];
      isTerminated := false;
      queueMessage := new MessageQueue();
      nextChannel := 0;
      log, output, errors := [], [], [];
    }

    method ShowMessage(message: string)
      modifies this`output
      ensures output == old(output) + [message]
    {
      output := output + [message];
    }

    method Terminate()
      modifies this`isTerminated
      ensures isTerminated
    {
      isTerminated := true;
    }

    method HandleJoin(channelName: string, b: Broker)
      requires Valid()
      modifies this`registeredExchange, this`nextChannel, this`log, this`output
      ensures Valid() && Snapshot() == JoinSpec(old(Snapshot()), channelName, b)
      ensures forall c :: c in old(registeredExchange) ==> c in registeredExchange && registeredExchange[c] == old(registeredExchange[c])
      ensures channelName !in old(registeredExchange) && channelName in registeredExchange ==>
        fresh(registeredExchange[channelName].consumer)
    {
      if channelName in registeredExchange {
        ShowMessage(Joined(channelName));
      } else {
        JoinNew(channelName, b);
      }
    }

    /** `handleJoin` for a channel not yet joined. */
    method JoinNew(channelName: string, b: Broker)
      requires Valid() && channelName !in registeredExchange
      modifies this`registeredExchange, this`nextChannel, this`log, this`output
      ensures Valid() && Snapshot() == JoinSpec(old(Snapshot()), channelName, b)
      ensures forall c :: c in old(registeredExchange) ==> c in registeredExchange && registeredExchange[c] == old(registeredExchange[c])
      ensures channelName in registeredExchange ==> fresh(registeredExchange[channelName].consumer)
    {
      OpenChannel(channelName, b);
      if channelName !in b.faults {
        ShowMessage(Joined(channelName));
      }
    }

    /**
     * The subscription `handleJoin` makes for a channel not yet joined: a new
     * broker channel, and, unless that throws, a fresh consumer on it.
     */
    method OpenChannel(channelName: string, b: Broker)
      requires Valid() && channelName !in registeredExchange
      modifies this`registeredExchange, this`nextChannel, this`log
      ensures Valid()
      ensures nextChannel == old(nextChannel) + 1
      ensures log == old(log) + [Subscribe(old(nextChannel), channelName, channelName !in b.faults)]
      ensures channelName in b.faults ==> registeredExchange == old(registeredExchange)
      ensures channelName !in b.faults ==>
        && channelName in registeredExchange
        && registeredExchange == old(registeredExchange)[channelName := registeredExchange[channelName]]
        && registeredExchange[channelName].id == old(nextChannel)
        && fresh(registeredExchange[channelName].consumer)
      ensures forall c :: c in old(registeredExchange) ==> c in registeredExchange && registeredExchange[c] == old(registeredExchange[c])
      ensures Ids(registeredExchange) ==
        if channelName in b.faults then old(Ids(registeredExchange)) else old(Ids(registeredExchange))[channelName := old(nextChannel)]
    {
      var id := nextChannel;
      if channelName in b.faults {
        nextChannel := nextChannel + 1;
        log := log + [Subscribe(id, channelName, false)];
        return;
      }
      var consumer := new ChannelConsumer(channelName, queueMessage);
      log := log + [Subscribe(id, channelName, true)];
      AddChannel(channelName, consumer);
    }

    /** Records a subscribed channel under the next broker channel number. */
    method AddChannel(channelName: string, consumer: ChannelConsumer)
      requires Valid() && channelName !in registeredExchange
      requires consumer.channelName == channelName && consumer.queue == queueMessage
      modifies this`registeredExchange, this`nextChannel
      ensures Valid()
      ensures registeredExchange == old(registeredExchange)[channelName := Channel(old(nextChannel), consumer)]
      ensures Ids(registeredExchange) == old(Ids(registeredExchange))[channelName := old(nextChannel)]
      ensures nextChannel == old(nextChannel) + 1
    {
      IdsAdd(registeredExchange, channelName, Channel(nextChannel, consumer));
      registeredExchange := registeredExchange[channelName := Channel(nextChannel, consumer)];
      nextChannel := nextChannel + 1;
    }

    method HandleLeave(channelName: string, b: Broker)
      requires Valid()
      modifies this`registeredExchange, this`log, this`output
      ensures Valid() && Snapshot() == LeaveSpec(old(Snapshot()), channelName, b)
    {
      if channelName !in registeredExchange {
        ShowMessage(NotRegistered(channelName));
      } else {
        LeaveJoined(channelName, b);
      }
    }

    /** `handleLeave` for a joined channel: close its broker channel and forget it. */
    method LeaveJoined(channelName: string, b: Broker)
      requires Valid() && channelName in registeredExchange
      modifies this`registeredExchange, this`log, this`output
      ensures Valid() && Snapshot() == LeaveSpec(old(Snapshot()), channelName, b)
    {
      var channel := registeredExchange[channelName];
      var closed := channelName !in b.faults;
      log := log + [Close(channel.id, closed)];
      if !closed && b.faults[channelName] == TimeoutFault {
        ShowMessage(ConnectionTimeout);
      }
      ShowMessage(LeftChannel(channelName));
      RemoveChannel(channelName);
    }

    /** Forgets a joined channel. */
    method RemoveChannel(channelName: string)
      requires Valid()
      modifies this`registeredExchange
      ensures Valid() && registeredExchange == old(registeredExchange) - {channelName}
      ensures Ids(registeredExchange) == old(Ids(registeredExchange)) - {channelName}
    {
      IdsRemove(registeredExchange, channelName);
      registeredExchange := registeredExchange - {channelName};
    }

    method HandleMessageChannel(message: string, channelName: string, b: Broker)
      requires Valid()
      modifies this
      ensures Valid() && Snapshot() == MessageChannelSpec(old(Snapshot()), message, channelName, b)
    {
      if channelName !in registeredExchange {
        ShowMessage(NotRegistered(channelName));
        return;
      }
      var channel := registeredExchange[channelName];
      log := log + [Publish(channel.id, channelName, Payload(nickname, message), channelName !in b.faults)];
    }

    method HandleBroadcast(message: string, b: Broker)
      requires Valid()
      modifies this
      ensures Valid() && Snapshot() == BroadcastSpec(old(Snapshot()), message, b)
    {
      ghost var channels := Snapshot().channels;
      assert channels.Keys == registeredExchange.Keys;
      var keys := SortedKeys(registeredExchange.Keys);
      PublishEach(keys, Payload(nickname, message), b, channels);
    }

    /** The loop of `handleBroadcast`: one publish per key, a failing one not stopping the rest. */
    method PublishEach(keys: seq<string>, payload: string, b: Broker, ghost channels: map<string, nat>)
      requires forall k :: k in keys ==> k in registeredExchange && k in channels && channels[k] == registeredExchange[k].id
      modifies this`log
      ensures log == old(log) + Publishes(keys, channels, payload, b.faults)
    {
      var i := 0;
      while i < |keys|
        invariant 0 <= i <= |keys|
        invariant log == old(log) + Publishes(keys[..i], channels, payload, b.faults)
      {
        var exchange := keys[i];
        var id := registeredExchange[exchange].id;
        PublishesSnoc(keys, i, channels, payload, b.faults);
        log := log + [Publish(id, exchange, payload, Succeeds(b.faults, exchange))];
        i := i + 1;
      }
      assert keys[..i] == keys;
    }

    method DeleteNickname(b: Broker) returns (thrown: bool)
      requires Valid()
      modifies this
      ensures Valid() && Attempt(Snapshot(), thrown) == DeleteNicknameSpec(old(Snapshot()), b)
    {
      thrown := false;
      if nickname.Some? {
        var queueName := QueueForNickname(nickname.value);
        thrown := queueName in b.faults;
        log := log + [DeleteQueue(queueName, !thrown)];
      }
    }

    method RequestNickname(requestedNickname: string, b: Broker) returns (returned: Option<string>)
      requires Valid()
      modifies this
      ensures Valid() && Request(Snapshot(), returned) == RequestNicknameSpec(old(Snapshot()), requestedNickname, b)
    {
      var name := ChooseNickname(requestedNickname, NicknameExists(b, requestedNickname), b.generated);
      var queueName := QueueForNickname(name);
      var ok := queueName !in b.faults;
      log := log + [RegisterQueue(queueName, ok)];
      returned := if ok then Some(name) else None;
    }

    method HandleNick(requestedNickname: Option<string>, b: Broker)
      requires Valid()
      modifies this
      ensures Valid() && Snapshot() == NickSpec(old(Snapshot()), requestedNickname, b)
    {
      var requested := requestedNickname.GetOr("");
      var released := AfterRelease(nickname, b);
      var thrown := DeleteNickname(b);
      if thrown {
        ShowMessage(FailedRemoving);
      }
      var returned := RequestNickname(requested, released);
      if returned.None? {
        errors := errors + [SomethingBad];
        return;
      }
      var messages := NickMessages(requested, returned.value);
      output := output + messages;
      nickname := returned;
    }

    method HandleExit(b: Broker)
      requires Valid()
      modifies this
      ensures Valid() && Snapshot() == ExitSpec(old(Snapshot()), b)
    {
      var thrown := DeleteNickname(b);
      if thrown {
        errors := errors + [SomethingBad];
        return;
      }
      ShowMessage(ByeBye);
      Terminate();
    }

    method HandleInput(input: string, m: Matchers, b: Broker)
      requires Valid()
      modifies this
      ensures Valid() && Snapshot() == InputSpec(old(Snapshot()), input, m, b)
    {
      match Classify(input, m)
      case Nick(requested) => HandleNick(requested, b);
      case Join(channelName) => HandleJoin(channelName, b);
      case Leave(channelName) => HandleLeave(channelName, b);
      case Exit => HandleExit(b);
      case MessageChannel(channelName, text) => HandleMessageChannel(text, channelName, b);
      case Broadcast(text) => HandleBroadcast(text, b);
    }

    /** The broker delivers `body` to the consumer of a joined channel. */
    method Deliver(channelName: string, body: string)
      requires Valid() && channelName in registeredExchange
      modifies queueMessage
      ensures queueMessage.items == old(queueMessage.items) + [Tagged(channelName, body)]
    {
      registeredExchange[channelName].consumer.HandleDelivery(body);
    }

    /** Payloads arriving one after another; those on channels not joined have no consumer and are lost. */
    method ArriveAll(arrivals: seq<Arrival>)
      requires Valid()
      modifies queueMessage
      ensures queueMessage.items == old(queueMessage.items) + Arrived(Snapshot().channels, arrivals)
    {
      var i := 0;
      while i < |arrivals|
        invariant 0 <= i <= |arrivals|
        invariant queueMessage.items == old(queueMessage.items) + Arrived(Snapshot().channels, arrivals[..i])
      {
        assert arrivals[..i + 1][..i] == arrivals[..i];
        var a := arrivals[i];
        if a.channelName in registeredExchange {
          Deliver(a.channelName, a.body);
        }
        i := i + 1;
      }
      assert arrivals[..i] == arrivals;
    }

    /** Shows every queued line, oldest first, until the queue is empty. */
    method Drain()
      modifies this`output, queueMessage
      ensures output == old(output) + old(queueMessage.items) && queueMessage.items == []
    {
      var empty := queueMessage.IsEmpty();
      while !empty
        invariant empty <==> queueMessage.items == []
        invariant output + queueMessage.items == old(output) + old(queueMessage.items)
        decreases |queueMessage.items|
      {
        var line := queueMessage.Take();
        ShowMessage(line);
        empty := queueMessage.IsEmpty();
      }
    }

    /**
     * The input handler thread: while the flag is clear and input remains,
     * handle a line, let the broker deliver what arrives meanwhile, then show
     * the queue.
     */
    method RunInputHandler(lines: seq<string>, m: Matchers, brokers: seq<Broker>, arrivals: seq<seq<Arrival>>)
      returns (consumed: nat)
      requires Valid() && |brokers| == |lines| && |arrivals| == |lines|
      modifies this, queueMessage
      ensures Valid()
      ensures Stopped(Snapshot(), queueMessage.items, consumed)
           == Loop(old(Snapshot()), old(queueMessage.items), lines, m, brokers, arrivals)
    {
      consumed := 0;
      while !isTerminated && consumed < |lines|
        invariant Valid() && 0 <= consumed <= |lines|
        invariant var whole := Loop(old(Snapshot()), old(queueMessage.items), lines, m, brokers, arrivals);
          var rest := Loop(Snapshot(), queueMessage.items, lines[consumed..], m, brokers[consumed..], arrivals[consumed..]);
          whole == rest.(consumed := rest.consumed + consumed)
        decreases |lines| - consumed
      {
        ghost var s := Snapshot();
        ghost var pending := queueMessage.items;
        InputTurn(lines[consumed], m, brokers[consumed], arrivals[consumed]);
        LoopTurn(s, pending, lines[consumed..], m, brokers[consumed..], arrivals[consumed..]);
        assert lines[consumed..][1..] == lines[consumed + 1..];
        assert brokers[consumed..][1..] == brokers[consumed + 1..];
        assert arrivals[consumed..][1..] == arrivals[consumed + 1..];
        consumed := consumed + 1;
      }
    }

    /** One iteration of the input handler: handle the line, take the arrivals, show the queue. */
    method InputTurn(line: string, m: Matchers, b: Broker, arrivals: seq<Arrival>)
      requires Valid()
      modifies this, queueMessage
      ensures Valid() && queueMessage.items == []
      ensures Snapshot() == Turn(old(Snapshot()), old(queueMessage.items), line, m, b, arrivals)
    {
      HandleInput(line, m, b);
      ghost var t := Snapshot();
      ArriveAll(arrivals);
      Drain();
      assert output == t.out + old(queueMessage.items) + Arrived(t.channels, arrivals);
      assert Snapshot() == t.(out := output);
    }

    /** `launch`: claim an initial nickname, then run the input handler. */
    method Launch(initial: Broker, lines: seq<string>, m: Matchers, brokers: seq<Broker>, arrivals: seq<seq<Arrival>>)
      returns (consumed: nat)
      requires Valid() && |brokers| == |lines| && |arrivals| == |lines|
      modifies this, queueMessage
      ensures Valid()
      ensures Stopped(Snapshot(), queueMessage.items, consumed)
           == Loop(NickSpec(old(Snapshot()), None, initial), old(queueMessage.items), lines, m, brokers, arrivals)
    {
      HandleNick(None, initial);
      consumed := RunInputHandler(lines, m, brokers, arrivals);
    }
  }
}
