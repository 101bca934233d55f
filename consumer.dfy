/**
 * Delivery of channel messages into the client's shared message queue
 * (`ChannelConsumer`). Each consumer is bound to one channel name for its
 * whole life and tags every payload it receives with it.
 */
module Consumer {
  import opened Wrappers

  /** The line shown for `message` arriving on `channelName`: `[channelName] message`. */
  function Tagged(channelName: string, message: string): (r: string)
    ensures |r| == |channelName| + |message| + 3
    ensures r[0] == '[' && r[1..|channelName| + 1] == channelName
    ensures r[|channelName| + 1..|channelName| + 3] == "] "
    ensures r[|channelName| + 3..] == message
  {
    "[" + channelName + "] " + message
  }

  /** The payload of a line carrying the tag of `channelName`, if it carries it: the line is that payload, tagged. */
  function Untag(channelName: string, line: string): (r: Option<string>)
    ensures r.Some? <==> |line| >= |channelName| + 3 && line[..|channelName| + 3] == "[" + channelName + "] "
    ensures r.Some? ==> line == Tagged(channelName, r.value)
  {
    var tag := "[" + channelName + "] ";
    if |line| >= |tag| && line[..|tag|] == tag then
      assert line == line[..|tag|] + line[|tag|..];
      Some(line[|tag|..])
    else None
  }

  /** Tagging is undone by removing the tag, so consumers of one channel never confuse two payloads. */
  lemma UntagTagged(channelName: string, message: string)
    ensures Untag(channelName, Tagged(channelName, message)) == Some(message)
  {
    var line := Tagged(channelName, message);
    assert line[..|channelName| + 3] == "[" + channelName + "] ";
  }

  lemma TaggedInjective(channelName: string, m1: string, m2: string)
    requires Tagged(channelName, m1) == Tagged(channelName, m2)
    ensures m1 == m2
  {
    UntagTagged(channelName, m1);
    UntagTagged(channelName, m2);
  }

  /** The client's `LinkedBlockingQueue` of lines waiting to be shown, oldest first. */
  class MessageQueue {
    var items: seq<string>

    constructor ()
      ensures items == []
    {
      items := [];
    }

    method Add(line: string)
      modifies this
      ensures items == old(items) + [line]
    {
      items := items + [line];
    }

    method IsEmpty() returns (empty: bool)
      ensures empty <==> items == []
    {
      empty := items == [];
    }

    /** Removes the oldest line; only called after `IsEmpty` said there is one. */
    method Take() returns (line: string)
      requires items != []
      modifies this
      ensures line == old(items)[0] && items == old(items)[1..]
    {
      line := items[0];
      items := items[1..];
    }
  }

  /** The consumer subscribed to one channel; it shares the client's queue. */
  class ChannelConsumer {
    const channelName: string
    const queue: MessageQueue

    constructor (channelName: string, queue: MessageQueue)
      ensures this.channelName == channelName && this.queue == queue
    {
      this.channelName := channelName;
      this.queue := queue;
    }

    /** One payload arrives: its tagged line goes to the back of the shared queue. */
    method HandleDelivery(body: string)
      modifies queue
      ensures queue.items == old(queue.items) + [Tagged(channelName, body)]
    {
      queue.Add(Tagged(channelName, body));
    }
  }
}
