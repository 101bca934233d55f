/**
 * The nickname registry of the chat server (`IrcServer`).
 *
 * The server consumes requests `"<name>:<callback>"` from one queue. A request
 * with an empty callback releases `name`; any other request claims a name and
 * answers on the callback queue. The registry is the set `usernames`, seeded
 * with the empty string so that a request for "no particular name" is always
 * answered with a generated one.
 *
 * The random generator is replaced by a supplied sequence of candidates, drawn
 * in order; sending the reply is replaced by how far it got (`Sent`).
 */
module Server {
  import opened Wrappers

  /** A parsed request: the text before the last colon and the text after it. */
  datatype Request = Request(name: string, callback: string)

  /**
   * How far `sendMessageToQueue` got: it throws before the reply is published
   * (creating the channel, declaring the queue or publishing fails), it throws
   * only when closing the channel after the reply was published, or it returns.
   */
  datatype Sent = NotPublished | PublishedCloseFailed | Returned

  /** What one request did, as seen from outside the registry. */
  datatype Effect =
    | Dropped                                         // not a request at all: logged and ignored
    | Released(name: string)                          // a release: no reply is sent
    | Replied(name: string, queue: string)            // `name` published on `queue` and recorded
    | RepliedUnrecorded(name: string, queue: string)  // `name` published on `queue`, then closing threw: not recorded
    | ReplyFailed(name: string, queue: string)        // the send threw before anything was published

  /** The request was a claim (whatever became of its reply). */
  predicate IsClaim(e: Effect)
  {
    e.Replied? || e.RepliedUnrecorded? || e.ReplyFailed?
  }

  /** The reply of a claim reached its callback queue. */
  predicate Delivered(e: Effect)
  {
    e.Replied? || e.RepliedUnrecorded?
  }

  /** The registry after one request, and what the request did. */
  datatype Step = Step(users: set<string>, effect: Effect)

  /** The characters at which `.` in a `java.util.regex.Pattern` stops matching. */
  predicate IsLineTerminator(c: char)
  {
    c == '\n' || c == '\r' || c == '\U{85}' || c == '\U{2028}' || c == '\U{2029}'
  }

  predicate HasLineTerminator(s: string)
  {
    exists i :: 0 <= i < |s| && IsLineTerminator(s[i])
  }

  /** The index of the last colon of `s`, if there is one. */
  function LastColon(s: string): (r: Option<nat>)
    ensures r.None? <==> ':' !in s
    ensures r.Some? ==> r.value < |s| && s[r.value] == ':' && ':' !in s[r.value + 1..]
  {
    if |s| == 0 then None
    else if s[|s| - 1] == ':' then Some(|s| - 1)
    else
      assert s == s[..|s| - 1] + [s[|s| - 1]];
      var r := LastColon(s[..|s| - 1]);
      if r.Some? then
        assert s[r.value + 1..] == s[..|s| - 1][r.value + 1..] + [s[|s| - 1]];
        r
      else r
  }

  /**
   * The match of a request against `(.*):(.*)`. The first group is greedy, so
   * the split falls at the last colon; neither group can cross a line
   * terminator, so a request holding one does not match.
   */
  function ParseRequest(message: string): (r: Option<Request>)
    ensures r.None? <==> ':' !in message || HasLineTerminator(message)
    ensures r.Some? ==> message == r.value.name + ":" + r.value.callback
    ensures r.Some? ==> ':' !in r.value.callback
  {
    if HasLineTerminator(message) then None
    else
      match LastColon(message)
      case None => None
      case Some(i) =>
        assert message == message[..i] + ":" + message[i + 1..];
        Some(Request(message[..i], message[i + 1..]))
  }

  /** Joining a name and a colon-free callback gives back exactly that request. */
  lemma ParseJoined(name: string, callback: string)
    requires ':' !in callback
    requires !HasLineTerminator(name) && !HasLineTerminator(callback)
    ensures ParseRequest(name + ":" + callback) == Some(Request(name, callback))
  {
    var message := name + ":" + callback;
    forall i | 0 <= i < |message|
      ensures !IsLineTerminator(message[i])
    {
      if i < |name| {
        assert message[i] == name[i];
      } else if i > |name| {
        assert message[i] == callback[i - |name| - 1];
      }
    }
    assert message[|name|] == ':';
    var j := LastColon(message).value;
    assert forall k :: j < k < |message| ==> message[k] != ':' by {
      forall k | j < k < |message| ensures message[k] != ':' {
        assert message[k] == message[j + 1..][k - j - 1];
      }
    }
    assert j >= |name|;
    assert forall k :: |name| < k < |message| ==> message[k] == callback[k - |name| - 1];
    assert j <= |name|;
    assert message[..|name|] == name && message[|name| + 1..] == callback;
  }

  /** Some candidate is not taken. */
  predicate HasFresh(used: set<string>, candidates: seq<string>)
  {
    exists k :: 0 <= k < |candidates| && candidates[k] !in used
  }

  /** The first candidate that is not taken: what the redraw loop stops at. */
  function FirstFresh(used: set<string>, candidates: seq<string>): (r: string)
    requires HasFresh(used, candidates)
    ensures r !in used
    ensures exists k :: 0 <= k < |candidates| && candidates[k] == r &&
                        forall j :: 0 <= j < k ==> candidates[j] in used
  {
    if candidates[0] !in used then
      candidates[0]
    else
      var k :| 0 <= k < |candidates| && candidates[k] !in used;
      assert candidates[1..][k - 1] == candidates[k];
      var r := FirstFresh(used, candidates[1..]);
      var k' :| 0 <= k' < |candidates| - 1 && candidates[1..][k'] == r &&
                forall j :: 0 <= j < k' ==> candidates[1..][j] in used;
      assert candidates[k' + 1] == r;
      assert forall j :: 0 <= j < k' + 1 ==> candidates[j] in used by {
        forall j | 0 <= j < k' + 1 ensures candidates[j] in used {
          if j > 0 { assert candidates[j] == candidates[1..][j - 1]; }
        }
      }
      r
  }

  /** The name a claim for `name` is answered with. */
  function Draw(used: set<string>, name: string, candidates: seq<string>): (r: string)
    requires name !in used || HasFresh(used, candidates)
    ensures r !in used
    ensures name !in used ==> r == name
    ensures name in used ==> r == FirstFresh(used, candidates)
  {
    if name !in used then name else FirstFresh(used, candidates)
  }

  /** The request can be answered with the candidates at hand. */
  predicate CanAnswer(used: set<string>, message: string, candidates: seq<string>)
  {
    match ParseRequest(message)
    case None => true
    case Some(req) => req.callback == "" || req.name !in used || HasFresh(used, candidates)
  }

  /** One request handled by the registry holding `used`. */
  function Apply(used: set<string>, message: string, candidates: seq<string>, sent: Sent): Step
    requires CanAnswer(used, message, candidates)
  {
    match ParseRequest(message)
    case None => Step(used, Dropped)
    case Some(req) =>
      if req.callback == "" then Step(used - {req.name}, Released(req.name))
      else
        var name := Draw(used, req.name, candidates);
        match sent
        case Returned => Step(used + {name}, Replied(name, req.callback))
        case PublishedCloseFailed => Step(used, RepliedUnrecorded(name, req.callback))
        case NotPublished => Step(used, ReplyFailed(name, req.callback))
  }

  /** A request without a colon (or with a line break) changes nothing and gets no reply. */
  lemma InvalidDropped(used: set<string>, message: string, candidates: seq<string>, sent: Sent)
    requires ':' !in message || HasLineTerminator(message)
    ensures CanAnswer(used, message, candidates)
    ensures Apply(used, message, candidates, sent) == Step(used, Dropped)
  {
  }

  /** `"<name>:"` releases `name`; releasing a name nobody holds changes nothing. */
  lemma ReleaseStep(used: set<string>, name: string, candidates: seq<string>, sent: Sent)
    requires !HasLineTerminator(name)
    ensures CanAnswer(used, name + ":", candidates)
    ensures Apply(used, name + ":", candidates, sent) == Step(used - {name}, Released(name))
    ensures name !in used ==> Apply(used, name + ":", candidates, sent).users == used
  {
    assert name + ":" == name + ":" + "";
    ParseJoined(name, "");
  }

  /**
   * `"<name>:<callback>"` with a non-empty callback claims: the reply is `name`
   * when it is free and otherwise the first free candidate; it was free before
   * the step, and it joins the registry only if sending the reply returned.
   */
  lemma ClaimStep(used: set<string>, name: string, callback: string, candidates: seq<string>, sent: Sent)
    requires callback != "" && ':' !in callback
    requires !HasLineTerminator(name) && !HasLineTerminator(callback)
    requires name in used ==> HasFresh(used, candidates)
    ensures CanAnswer(used, name + ":" + callback, candidates)
    ensures var step := Apply(used, name + ":" + callback, candidates, sent);
      && IsClaim(step.effect)
      && step.effect.Replied? == (sent == Returned)
      && step.effect.RepliedUnrecorded? == (sent == PublishedCloseFailed)
      && step.effect.queue == callback
      && step.effect.name !in used
      && (name !in used ==> step.effect.name == name)
      && (name in used ==> step.effect.name in candidates)
      && step.users == (if sent == Returned then used + {step.effect.name} else used)
  {
    ParseJoined(name, callback);
  }

  /** The request `":"` releases the reserved empty name; a later empty claim is then answered with `""`. */
  lemma ReservedReleasable(used: set<string>, callback: string, candidates: seq<string>, sent: Sent)
    requires callback != "" && ':' !in callback && !HasLineTerminator(callback)
    ensures CanAnswer(used, ":", candidates)
    ensures var after := Apply(used, ":", candidates, sent).users;
      && "" !in after
      && CanAnswer(after, ":" + callback, candidates)
      && Apply(after, ":" + callback, candidates, sent).effect.name == ""
  {
    assert !HasLineTerminator("");
    ReleaseStep(used, "", candidates, sent);
    var after := Apply(used, ":", candidates, sent).users;
    assert ":" + callback == "" + ":" + callback;
    ClaimStep(after, "", callback, candidates, sent);
  }

  /** One delivery of the request queue together with what the environment supplies for it. */
  datatype Delivery = Delivery(message: string, candidates: seq<string>, sent: Sent)

  /** The request parses as a release. */
  predicate IsRelease(message: string)
  {
    var r := ParseRequest(message);
    r.Some? && r.value.callback == ""
  }

  /** Every delivery of `ds` can be answered in turn, starting from `used`. */
  predicate Runnable(used: set<string>, ds: seq<Delivery>)
    decreases |ds|
  {
    |ds| == 0 ||
    (CanAnswer(used, ds[0].message, ds[0].candidates) &&
     Runnable(Apply(used, ds[0].message, ds[0].candidates, ds[0].sent).users, ds[1..]))
  }

  /** The registry and the effects after handling `ds` one at a time, in arrival order. */
  function Run(used: set<string>, ds: seq<Delivery>): (r: (set<string>, seq<Effect>))
    requires Runnable(used, ds)
    ensures |r.1| == |ds|
    decreases |ds|
  {
    if |ds| == 0 then (used, [])
    else
      var step := Apply(used, ds[0].message, ds[0].candidates, ds[0].sent);
      var rest := Run(step.users, ds[1..]);
      (rest.0, [step.effect] + rest.1)
  }

  /** The names handed out (replies that reached their callback queue), in order. */
  function Granted(effects: seq<Effect>): (r: seq<string>)
    ensures |r| <= |effects|
  {
    if effects == [] then []
    else if Delivered(effects[0]) then [effects[0].name] + Granted(effects[1..])
    else Granted(effects[1..])
  }

  /**
   * While no request `":"` arrives, the reserved empty name stays in the
   * registry, so no claim is ever answered with `""`.
   */
  lemma {:induction false} ReservedNeverAssigned(used: set<string>, ds: seq<Delivery>)
    requires "" in used && Runnable(used, ds)
    requires forall i :: 0 <= i < |ds| ==> ds[i].message != ":"
    ensures "" in Run(used, ds).0
    ensures forall i :: 0 <= i < |ds| ==>
      IsClaim(Run(used, ds).1[i]) ==> Run(used, ds).1[i].name != ""
    decreases |ds|
  {
    if |ds| > 0 {
      var d := ds[0];
      var step := Apply(used, d.message, d.candidates, d.sent);
      var req := ParseRequest(d.message);
      assert "" + ":" + "" == ":";
      assert "" in step.users;
      ReservedNeverAssigned(step.users, ds[1..]);
      var effects := Run(used, ds).1;
      forall i | 0 <= i < |ds| && IsClaim(effects[i])
        ensures effects[i].name != ""
      {
        if i > 0 {
          assert effects[i] == Run(step.users, ds[1..]).1[i - 1];
        }
      }
    }
  }

  /**
   * Without an intervening release, and as long as no reply is published on a
   * channel whose close then throws, the names handed out are pairwise
   * distinct, none of them was held before, and the registry ends up holding
   * exactly the old names and the handed-out ones.
   */
  lemma {:induction false} GrantsDistinct(used: set<string>, ds: seq<Delivery>)
    requires Runnable(used, ds)
    requires forall i :: 0 <= i < |ds| ==> !IsRelease(ds[i].message)
    requires forall i :: 0 <= i < |ds| ==> ds[i].sent != PublishedCloseFailed
    ensures Distinct(Granted(Run(used, ds).1))
    ensures NoneIn(Granted(Run(used, ds).1), used)
    ensures forall x :: x in Run(used, ds).0 <==> x in used || x in Granted(Run(used, ds).1)
    decreases |ds|
  {
    if |ds| > 0 {
      var d := ds[0];
      var step := Apply(used, d.message, d.candidates, d.sent);
      StepGrant(used, d);
      GrantsDistinct(step.users, ds[1..]);
      var rest := Run(step.users, ds[1..]);
      var tail := Granted(rest.1);
      var effects := [step.effect] + rest.1;
      assert Run(used, ds) == (rest.0, effects);
      if step.effect.Replied? {
        GrantedCons(step.effect, rest.1);
        FreshHead(step.effect.name, tail, used);
      } else {
        GrantedSkip(step.effect, rest.1);
      }
    }
  }

  /** No name occurs twice. */
  predicate Distinct(names: seq<string>)
  {
    forall i, j :: 0 <= i < j < |names| ==> names[i] != names[j]
  }

  /** No name is among `used`. */
  predicate NoneIn(names: seq<string>, used: set<string>)
  {
    forall i :: 0 <= i < |names| ==> names[i] !in used
  }

  /** A claim that is not a release and whose send did not fail at the close either records its reply or hands out nothing. */
  lemma StepGrant(used: set<string>, d: Delivery)
    requires CanAnswer(used, d.message, d.candidates)
    requires !IsRelease(d.message) && d.sent != PublishedCloseFailed
    ensures var step := Apply(used, d.message, d.candidates, d.sent);
      || (step.effect.Replied? && step.effect.name !in used && step.users == used + {step.effect.name})
      || (!Delivered(step.effect) && step.users == used)
  {
  }

  /** A fresh name in front of distinct names that avoid it keeps them distinct. */
  lemma FreshHead(name: string, tail: seq<string>, used: set<string>)
    requires name !in used && Distinct(tail) && NoneIn(tail, used + {name})
    ensures Distinct([name] + tail) && NoneIn([name] + tail, used)
  {
    var granted := [name] + tail;
    forall i, j | 0 <= i < j < |granted|
      ensures granted[i] != granted[j]
    {
      assert granted[j] == tail[j - 1];
      if i > 0 {
        assert granted[i] == tail[i - 1];
      }
    }
    forall i | 0 < i < |granted|
      ensures granted[i] !in used
    {
      assert granted[i] == tail[i - 1];
    }
  }

  /**
   * The second condition of `GrantsDistinct` is needed: a name whose reply was
   * published before closing the channel threw is not recorded, so the next
   * claim for it is answered with the same name, and two callers hold it.
   */
  lemma ReissueAfterCloseFailure(used: set<string>, name: string, first: string, second: string,
                                 candidates: seq<string>)
    requires name !in used
    requires first != "" && ':' !in first && second != "" && ':' !in second
    requires !HasLineTerminator(name) && !HasLineTerminator(first) && !HasLineTerminator(second)
    ensures CanAnswer(used, name + ":" + first, candidates)
    ensures var step := Apply(used, name + ":" + first, candidates, PublishedCloseFailed);
      && step == Step(used, RepliedUnrecorded(name, first))
      && CanAnswer(step.users, name + ":" + second, candidates)
      && Apply(step.users, name + ":" + second, candidates, Returned) == Step(used + {name}, Replied(name, second))
  {
    ParseJoined(name, first);
    ParseJoined(name, second);
  }

  lemma GrantedCons(e: Effect, effects: seq<Effect>)
    requires Delivered(e)
    ensures Granted([e] + effects) == [e.name] + Granted(effects)
  {
    assert ([e] + effects)[1..] == effects;
  }

  lemma GrantedSkip(e: Effect, effects: seq<Effect>)
    requires !Delivered(e)
    ensures Granted([e] + effects) == Granted(effects)
  {
    assert ([e] + effects)[1..] == effects;
  }

  /** The registry object: the set of claimed names. */
  class IrcServer {
    var usernames: set<string>

    constructor ()
      ensures usernames == {}
    {
      usernames := {};
    }

    /** The registry is seeded with the reserved empty name before requests are consumed. */
    method Start()
      modifies this
      ensures usernames == old(usernames) + {""}
    {
      usernames := usernames + {""};
    }

    /**
     * Handles one request. A claim redraws from `candidates` while the name is
     * taken, then sends the reply (how far that got is `sent`) and records the
     * name only if sending returned.
     */
    method HandleDelivery(message: string, candidates: seq<string>, sent: Sent) returns (effect: Effect)
      requires CanAnswer(usernames, message, candidates)
      modifies this
      ensures Step(usernames, effect) == Apply(old(usernames), message, candidates, sent)
    {
      var request := ParseRequest(message);
      if request.None? {
        effect := Dropped;
        return;
      }
      var username := request.value.name;
      var callbackQueueName := request.value.callback;
      if callbackQueueName == "" {
        usernames := usernames - {username};
        effect := Released(username);
        return;
      }
      var i := 0;
      while username in usernames
        invariant 0 <= i <= |candidates|
        invariant username in usernames ==> HasFresh(usernames, candidates[i..])
        invariant username in usernames ==>
          Draw(usernames, request.value.name, candidates) == FirstFresh(usernames, candidates[i..])
        invariant username !in usernames ==> username == Draw(usernames, request.value.name, candidates)
        decreases |candidates| - i
      {
        var rest := candidates[i..];
        assert rest[0] == candidates[i];
        assert rest[1..] == candidates[i + 1..];
        if candidates[i] in usernames {
          var k :| 0 <= k < |rest| && rest[k] !in usernames;
          assert rest[1..][k - 1] == rest[k];
        }
        username := candidates[i];
        i := i + 1;
      }
      match sent
      case Returned =>
        usernames := usernames + {username};
        effect := Replied(username, callbackQueueName);
      case PublishedCloseFailed =>
        effect := RepliedUnrecorded(username, callbackQueueName);
      case NotPublished =>
        effect := ReplyFailed(username, callbackQueueName);
    }
  }
}
