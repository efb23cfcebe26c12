/** The VRF manager and its worker together, linked by the two message channels, each of which keeps order. */
module VrfSystem {
  import opened Common
  import opened VrfWorker
  import opened VrfManager

  /** What has happened on either side, the messages posted to the worker, how many of them have arrived, and
      how many of the worker's replies have been handed over. */
  datatype System =
    System(worker: seq<Event>, manager: seq<ManagerEvent>, posted: seq<Message>, arrived: nat, delivered: nat)

  datatype SystemEvent =
    | Operate(now: nat, purpose: Purpose, kind: string)  // a call: its message goes into the channel
    | Waste(now: nat)                                    // an id is generated, but its message is never sent
    | Reach                                              // the next message arrives at the worker
    | Start(ending: Event)                               // the worker's startup ends
    | Hand                                               // the next reply arrives at the manager
    | Fire(k: nat)                                       // the timer of a call

  const IDLE := System([], [], [], 0, 0)

  function Outbox(handle: Handler, s: System): seq<Response> {
    Run(handle, s.worker).outbox
  }

  /** An event that is not due changes nothing. */
  function SystemStep(handle: Handler, s: System, e: SystemEvent): System {
    match e
    case Operate(now, purpose, kind) =>
      var id := MessageId(now, ManagerRun(s.manager).counter + 1);
      s.(manager := s.manager + [Send(now, purpose)], posted := s.posted + [Message(id, kind)])
    case Waste(now) => s.(manager := s.manager + [Spend(now)])
    case Reach =>
      if s.arrived < |s.posted|
      then s.(worker := s.worker + [Arrive(s.posted[s.arrived])], arrived := s.arrived + 1)
      else s
    case Start(ending) =>
      if !ending.Arrive? && Startup(s.worker).None? then s.(worker := s.worker + [ending]) else s
    case Hand =>
      if s.delivered < |Outbox(handle, s)|
      then s.(manager := s.manager + [Deliver(Outbox(handle, s)[s.delivered])], delivered := s.delivered + 1)
      else s
    case Fire(k) => s.(manager := s.manager + [Expire(k)])
  }

  function SystemRun(handle: Handler, es: seq<SystemEvent>): System {
    if es == [] then IDLE else SystemStep(handle, SystemRun(handle, es[..|es| - 1]), es[|es| - 1])
  }

  /** The replies handed over, in order. */
  function Deliveries(es: seq<ManagerEvent>): seq<Response> {
    if es == [] then []
    else Deliveries(es[..|es| - 1]) + (if es[|es| - 1].Deliver? then [es[|es| - 1].response] else [])
  }

  /** The two sides agree on the messages and replies that have passed between them. */
  ghost predicate Linked(handle: Handler, s: System) {
    && OneStartup(s.worker)
    && s.arrived <= |s.posted| && Arrivals(s.worker) == s.posted[..s.arrived]
    && |s.posted| == |Sent(s.manager)|
    && (forall k :: 0 <= k < |s.posted| ==> s.posted[k].id == IdOf(Sent(s.manager)[k]))
    && s.delivered <= |Outbox(handle, s)| && Deliveries(s.manager) == Outbox(handle, s)[..s.delivered]
  }

  lemma OutboxGrows(handle: Handler, es: seq<Event>, e: Event)
    ensures Run(handle, es).outbox <= Run(handle, es + [e]).outbox
  {
    hide Answer, ErrorReply;
    assert (es + [e])[..|es|] == es;
  }

  lemma WorkerGrows(es: seq<Event>, e: Event)
    ensures Arrivals(es + [e]) == Arrivals(es) + (if e.Arrive? then [e.message] else [])
    ensures OneStartup(es + [e]) <==> OneStartup(es) && (e.Arrive? || Startup(es).None?)
  {
    assert (es + [e])[..|es|] == es;
  }

  lemma ManagerGrows(es: seq<ManagerEvent>, e: ManagerEvent)
    ensures Sent(es + [e]) == Sent(es) + (if e.Send? then [(e.now, Spent(es) + 1)] else [])
    ensures Deliveries(es + [e]) == Deliveries(es) + (if e.Deliver? then [e.response] else [])
  {
    assert (es + [e])[..|es|] == es;
  }

  lemma WorkerStepKeepsLinks(handle: Handler, s: System, e: Event, t: System)
    requires Linked(handle, s) && t.worker == s.worker + [e]
    requires t.manager == s.manager && t.posted == s.posted && t.delivered == s.delivered
    requires if e.Arrive? then s.arrived < |s.posted| && e.message == s.posted[s.arrived] && t.arrived == s.arrived + 1
             else Startup(s.worker).None? && t.arrived == s.arrived
    ensures Linked(handle, t)
  {
    hide Run, Arrivals, OneStartup, Startup, Sent, Deliveries;
    WorkerGrows(s.worker, e);
    OutboxGrows(handle, s.worker, e);
    var was, now := Outbox(handle, s), Outbox(handle, t);
    assert now[..s.delivered] == now[..|was|][..s.delivered];
    assert e.Arrive? ==> s.posted[..s.arrived + 1] == s.posted[..s.arrived] + [e.message];
  }

  lemma ManagerStepKeepsLinks(handle: Handler, s: System, e: ManagerEvent, t: System)
    requires Linked(handle, s) && t.manager == s.manager + [e] && t.worker == s.worker && t.arrived == s.arrived
    requires e.Send? || t.posted == s.posted
    requires e.Send? ==> |t.posted| == |s.posted| + 1 && t.posted[..|s.posted|] == s.posted
                         && t.posted[|s.posted|].id == MessageId(e.now, Spent(s.manager) + 1)
    requires if e.Deliver? then s.delivered < |Outbox(handle, s)| && e.response == Outbox(handle, s)[s.delivered]
                                && t.delivered == s.delivered + 1
             else t.delivered == s.delivered
    ensures Linked(handle, t)
  {
    hide Run, Arrivals, OneStartup, Sent, Deliveries, MessageId;
    ManagerGrows(s.manager, e);
    var out := Outbox(handle, s);
    assert e.Deliver? ==> out[..s.delivered + 1] == out[..s.delivered] + [e.response];
    assert t.posted[..s.arrived] == s.posted[..s.arrived];
  }

  lemma {:induction false} AlwaysLinked(handle: Handler, es: seq<SystemEvent>)
    ensures Linked(handle, SystemRun(handle, es))
  {
    hide Linked, Run, ManagerRun, Startup;
    if es == [] {
      NothingLinked(handle);
    } else {
      AlwaysLinked(handle, es[..|es| - 1]);
      var s, e := SystemRun(handle, es[..|es| - 1]), es[|es| - 1];
      var t := SystemStep(handle, s, e);
      IdsFollowTheOrder(s.manager);
      match e
      case Operate(now, purpose, _) => ManagerStepKeepsLinks(handle, s, Send(now, purpose), t);
      case Waste(now) => ManagerStepKeepsLinks(handle, s, Spend(now), t);
      case Reach =>
        if s.arrived < |s.posted| { WorkerStepKeepsLinks(handle, s, Arrive(s.posted[s.arrived]), t); }
      case Start(ending) =>
        if !ending.Arrive? && Startup(s.worker).None? { WorkerStepKeepsLinks(handle, s, ending, t); }
      case Hand =>
        if s.delivered < |Outbox(handle, s)| {
          ManagerStepKeepsLinks(handle, s, Deliver(Outbox(handle, s)[s.delivered]), t);
        }
      case Fire(k) => ManagerStepKeepsLinks(handle, s, Expire(k), t);
    }
  }

  lemma NothingLinked(handle: Handler)
    ensures Linked(handle, IDLE)
  {}

  /** A call settled by a reply was settled by one that was handed over and carries its id. */
  lemma {:induction false} SettlingReplyWasDelivered(es: seq<ManagerEvent>, k: nat) returns (j: nat)
    requires k < |Sent(es)| && Verdict(es, k).Some? && Verdict(es, k).value.Replied?
    ensures j < |Deliveries(es)| && Deliveries(es)[j] == Verdict(es, k).value.response
    ensures Deliveries(es)[j].id == IdOf(Sent(es)[k])
  {
    hide IdOf;
    var prev, last := es[..|es| - 1], es[|es| - 1];
    if Verdict(prev, k).Some? {
      SettledWasSent(prev, k);
      j := SettlingReplyWasDelivered(prev, k);
    } else {
      j := |Deliveries(prev)|;
    }
  }

  lemma SettledWasSent(es: seq<ManagerEvent>, k: nat)
    requires Verdict(es, k).Some?
    ensures k < |Sent(es)|
  {}

  /** Over every interleaving of calls, channels, startup and timers: a call that is settled by a reply is
      settled by the worker's own answer to its own message, or, when the startup failed, by the startup error
      and only if its message had arrived before. */
  lemma RepliesAreOnesOwn(handle: Handler, es: seq<SystemEvent>, k: nat)
    requires k < |ManagerRun(SystemRun(handle, es).manager).calls|
    ensures var s := SystemRun(handle, es);
            var outcome := ManagerRun(s.manager).calls[k].outcome;
            && |s.posted| == |ManagerRun(s.manager).calls|
            && (outcome.Some? && outcome.value.Replied? ==>
                  match Startup(s.worker)
                  case Some(Fail(error)) =>
                    k < Early(s.worker) && outcome.value.response == Response(s.posted[k].id, false, error)
                  case Some(_) => SaysWhatHandlerSaid(handle, s.posted[k], outcome.value.response)
                  case None => false)
  {
    hide SystemRun, Answer, SaysWhatHandlerSaid, Verdict, ManagerRun, Sent, Deliveries, MessageId, Startup, Early;
    var s := SystemRun(handle, es);
    AlwaysLinked(handle, es);
    IdsFollowTheOrder(s.manager);
    SettledOnceByItsOwn(s.manager, k);
    var outcome := ManagerRun(s.manager).calls[k].outcome;
    if outcome.Some? && outcome.value.Replied? {
      var j := SettlingReplyWasDelivered(s.manager, k);
      AnsweredInOrder(handle, s.worker);
      ReplyCarriesTheId(handle, s, j);
      AnswersSayWhatTheHandlerSaid(handle, s.posted[k], outcome.value.response);
      if j < k { IdsAreDistinct(s.manager, j, k); }
      if k < j { IdsAreDistinct(s.manager, k, j); }
    }
  }

  lemma ReplyCarriesTheId(handle: Handler, s: System, j: nat)
    requires Linked(handle, s) && j < |Outbox(handle, s)|
    ensures j < s.arrived && Outbox(handle, s)[j].id == s.posted[j].id
  {
    AnsweredInOrder(handle, s.worker);
  }

  /** After a failed startup every call whose message had not arrived by then, whether sent before or after,
      can only time out. */
  lemma LateCallsOnlyTimeOut(handle: Handler, es: seq<SystemEvent>, k: nat)
    requires k < |ManagerRun(SystemRun(handle, es).manager).calls|
    requires Startup(SystemRun(handle, es).worker).Some? && Startup(SystemRun(handle, es).worker).value.Fail?
    requires k >= Early(SystemRun(handle, es).worker)
    ensures var outcome := ManagerRun(SystemRun(handle, es).manager).calls[k].outcome;
            outcome.Some? ==> outcome.value.TimedOut?
  {
    hide SystemRun, ManagerRun, Startup, Early;
    RepliesAreOnesOwn(handle, es, k);
  }
}
