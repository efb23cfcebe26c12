/** The VRF web worker: messages that arrive before its WASM module is ready wait in a queue. */
module VrfWorker {
  import opened Common

  datatype Message = Message(id: string, kind: string)

  datatype Response = Response(id: string, success: bool, body: string)

  /** The WASM handler: a success flag and a body, or a thrown error. */
  type Handler = Message -> Result<(bool, string), string>

  function ErrorReply(m: Message, error: string): Response {
    Response(m.id, false, error)
  }

  function Answer(handle: Handler, m: Message): Response {
    match handle(m)
    case Ok((success, body)) => Response(m.id, success, body)
    case Err(error) => ErrorReply(m, error)
  }

  /** A reply carries the id of its message and what the handler said: its flag and body, or a failure with the
      error it threw. */
  predicate SaysWhatHandlerSaid(handle: Handler, m: Message, r: Response) {
    && r.id == m.id
    && match handle(m)
       case Ok((success, body)) => r.success == success && r.body == body
       case Err(error) => !r.success && r.body == error
  }

  lemma AnswersSayWhatTheHandlerSaid(handle: Handler, m: Message, r: Response)
    ensures r == Answer(handle, m) <==> SaysWhatHandlerSaid(handle, m, r)
  {}

  function Answers(handle: Handler, ms: seq<Message>): (rs: seq<Response>)
    ensures |rs| == |ms|
  {
    seq(|ms|, i requires 0 <= i < |ms| => Answer(handle, ms[i]))
  }

  function ErrorReplies(ms: seq<Message>, error: string): (rs: seq<Response>)
    ensures |rs| == |ms|
  {
    seq(|ms|, i requires 0 <= i < |ms| => ErrorReply(ms[i], error))
  }

  datatype State = State(wasmReady: bool, messageQueue: seq<Message>, outbox: seq<Response>)

  datatype Event = Arrive(message: Message) | Succeed | Fail(error: string)

  function Step(handle: Handler, s: State, e: Event): State {
    match e
    case Arrive(m) =>
      if s.wasmReady then s.(outbox := s.outbox + [Answer(handle, m)])
      else s.(messageQueue := s.messageQueue + [m])
    case Succeed => State(true, [], s.outbox + Answers(handle, s.messageQueue))
    case Fail(error) => s.(messageQueue := [], outbox := s.outbox + ErrorReplies(s.messageQueue, error))
  }

  class Worker {
    const handle: Handler
    var wasmReady: bool
    var messageQueue: seq<Message>
    var outbox: seq<Response>  // what was posted to the main thread

    function Now(): State
      reads this
    {
      State(wasmReady, messageQueue, outbox)
    }

    constructor (handle: Handler)
      ensures this.handle == handle && Now() == State(false, [], [])
    {
      this.handle := handle;
      wasmReady := false;
      messageQueue := [];
      outbox := [];
    }

    method PostMessage(response: Response)
      modifies this`outbox
      ensures outbox == old(outbox) + [response]
    {
      outbox := outbox + [response];
    }

    method HandleMessage(m: Message)
      modifies this`messageQueue, this`outbox
      ensures Now() == Step(handle, old(Now()), Arrive(m))
    {
      if !wasmReady {
        messageQueue := messageQueue + [m];
        return;
      }
      match handle(m) {
        case Ok((success, body)) => PostMessage(Response(m.id, success, body));
        case Err(error) => PostMessage(ErrorReply(m, error));
      }
    }

    method ProcessQueuedMessages()
      requires wasmReady
      modifies this`messageQueue, this`outbox
      ensures wasmReady && messageQueue == []
      ensures outbox == old(outbox) + Answers(handle, old(messageQueue))
    {
      var queued := messageQueue;
      messageQueue := [];
      for i := 0 to |queued|
        invariant messageQueue == [] && outbox == old(outbox) + Answers(handle, queued[..i])
      {
        HandleMessage(queued[i]);
        assert Answers(handle, queued[..i + 1]) == Answers(handle, queued[..i]) + [Answer(handle, queued[i])];
      }
      assert queued[..|queued|] == queued;
    }

    method StartupSucceeded()
      modifies this
      ensures Now() == Step(handle, old(Now()), Succeed)
    {
      wasmReady := true;
      ProcessQueuedMessages();
    }

    method StartupFailed(error: string)
      modifies this`messageQueue, this`outbox
      ensures Now() == Step(handle, old(Now()), Fail(error))
    {
      for i := 0 to |messageQueue|
        invariant messageQueue == old(messageQueue)
        invariant outbox == old(outbox) + ErrorReplies(messageQueue[..i], error)
      {
        PostMessage(ErrorReply(messageQueue[i], error));
        assert ErrorReplies(messageQueue[..i + 1], error) ==
               ErrorReplies(messageQueue[..i], error) + [ErrorReply(messageQueue[i], error)];
      }
      assert messageQueue[..|messageQueue|] == messageQueue;
      messageQueue := [];
    }
  }

  // ---------- every interleaving ----------

  function Run(handle: Handler, es: seq<Event>): State {
    if es == [] then State(false, [], []) else Step(handle, Run(handle, es[..|es| - 1]), es[|es| - 1])
  }

  /** All messages, in arrival order. */
  function Arrivals(es: seq<Event>): seq<Message> {
    if es == [] then []
    else Arrivals(es[..|es| - 1]) + (if es[|es| - 1].Arrive? then [es[|es| - 1].message] else [])
  }

  /** How the startup ended, if it has. */
  function Startup(es: seq<Event>): (r: Option<Event>)
    ensures r.Some? ==> !r.value.Arrive?
  {
    if es == [] then None
    else if es[|es| - 1].Arrive? then Startup(es[..|es| - 1])
    else Some(es[|es| - 1])
  }

  /** How many messages arrived before the startup ended. */
  function Early(es: seq<Event>): nat {
    if es == [] then 0
    else if es[|es| - 1].Arrive? && Startup(es[..|es| - 1]).None? then Early(es[..|es| - 1]) + 1
    else Early(es[..|es| - 1])
  }

  /** The startup ends at most once. */
  predicate OneStartup(es: seq<Event>) {
    es == [] || (OneStartup(es[..|es| - 1]) && (es[|es| - 1].Arrive? || Startup(es[..|es| - 1]).None?))
  }

  /** Over every interleaving of arrivals and startup: nothing is answered before startup ends; after a
      success every message has been answered once, in arrival order; after a failure exactly the earlier
      messages have been answered, with the error, and the later ones wait in the queue for ever. */
  lemma {:induction false} AnsweredInOrder(handle: Handler, es: seq<Event>)
    requires OneStartup(es)
    ensures var s, all, n := Run(handle, es), Arrivals(es), Early(es);
            && n <= |all|
            && match Startup(es)
               case None => n == |all| && s == State(false, all, [])
               case Some(Fail(error)) => s == State(false, all[n..], ErrorReplies(all[..n], error))
               case Some(_) => s == State(true, [], Answers(handle, all))
  {
    hide Answer, ErrorReply;
    if es != [] {
      var prev, last := es[..|es| - 1], es[|es| - 1];
      AnsweredInOrder(handle, prev);
      var all := Arrivals(prev);
      assert all[..|all|] == all;
      if last.Arrive? {
        assert Answers(handle, all + [last.message]) == Answers(handle, all) + [Answer(handle, last.message)];
        assert (all + [last.message])[..Early(prev)] == all[..Early(prev)];
      }
    }
  }

  /** After a failed startup every message so far has its error reply exactly when none arrived late, and
      one that arrives late gets no reply: the comment at the end of the worker, which promises errors for
      all later messages, does not hold of the code. */
  lemma LateMessagesGetNoReply(handle: Handler, es: seq<Event>, error: string, late: Message)
    requires OneStartup(es) && Startup(es) == Some(Fail(error))
    ensures Run(handle, es).outbox == ErrorReplies(Arrivals(es), error) <==> Early(es) == |Arrivals(es)|
    ensures Run(handle, es + [Arrive(late)]).outbox == Run(handle, es).outbox
    ensures late in Run(handle, es + [Arrive(late)]).messageQueue
    ensures |Run(handle, es).outbox| == Early(es) <= |Arrivals(es)|
    ensures forall k :: 0 <= k < Early(es) ==> Run(handle, es).outbox[k] == Response(Arrivals(es)[k].id, false, error)
  {
    AnsweredInOrder(handle, es);
    var more := es + [Arrive(late)];
    assert more[..|more| - 1] == es;
    if Early(es) == |Arrivals(es)| {
      assert Arrivals(es)[..Early(es)] == Arrivals(es);
    }
  }

  /** When message ids are distinct, each message of a successful run has exactly one reply with its id. */
  lemma OneReplyForEachId(handle: Handler, es: seq<Event>, k: nat)
    requires OneStartup(es) && Startup(es) == Some(Succeed) && k < |Arrivals(es)|
    requires forall i, j :: 0 <= i < j < |Arrivals(es)| ==> Arrivals(es)[i].id != Arrivals(es)[j].id
    ensures |Run(handle, es).outbox| == |Arrivals(es)|
    ensures forall j :: 0 <= j < |Arrivals(es)| ==> (Run(handle, es).outbox[j].id == Arrivals(es)[k].id <==> j == k)
    ensures SaysWhatHandlerSaid(handle, Arrivals(es)[k], Run(handle, es).outbox[k])
  {
    AnsweredInOrder(handle, es);
    AnswersSayWhatTheHandlerSaid(handle, Arrivals(es)[k], Run(handle, es).outbox[k]);
  }
}
