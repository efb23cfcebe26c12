/** The main-thread side of the VRF worker: each message gets a fresh id, and its promise is settled by the
    reply that carries that id or by its own timer. */
module VrfManager {
  import opened Common
  import opened Decimal
  import opened VrfWorker

  /** What a successful reply does to the tracked session account. */
  datatype Purpose = Adopt(account: string) | Drop | Keep

  datatype Settled = Replied(response: Response) | TimedOut

  /** One sendMessage call: its promise, its timer and its listener. */
  datatype Call = Call(id: string, purpose: Purpose, outcome: Option<Settled>, armed: bool, listening: bool)

  datatype ManagerState = ManagerState(counter: nat, calls: seq<Call>, session: Option<string>)

  /** A message is sent; an id is generated but building its message throws; a reply arrives; a timer fires. */
  datatype ManagerEvent =
    | Send(now: nat, purpose: Purpose)
    | Spend(now: nat)
    | Deliver(response: Response)
    | Expire(k: nat)

  /** The id of the n-th message, sent at clock reading `now`. */
  function MessageId(now: nat, n: nat): string {
    "vrf_" + ToString(now) + "_" + ToString(n)
  }

  function Receive(c: Call, r: Response): Call {
    if !c.listening || c.id != r.id then c
    else c.(armed := false, listening := false,
         outcome := if c.outcome.None? then Some(Replied(r)) else c.outcome)
  }

  /** The session after the code waiting on this call has seen the reply. */
  function SessionAfter(c: Call, r: Response, session: Option<string>): Option<string> {
    if !c.listening || c.id != r.id || c.outcome.Some? || !r.success then session
    else match c.purpose case Adopt(account) => Some(account) case Drop => None case Keep => session
  }

  function SessionAfterAll(cs: seq<Call>, r: Response, session: Option<string>): Option<string> {
    if cs == [] then session
    else SessionAfter(cs[|cs| - 1], r, SessionAfterAll(cs[..|cs| - 1], r, session))
  }

  function ReceiveAll(cs: seq<Call>, r: Response): (ds: seq<Call>)
    ensures |ds| == |cs|
  {
    seq(|cs|, i requires 0 <= i < |cs| => Receive(cs[i], r))
  }

  function ManagerStep(s: ManagerState, e: ManagerEvent): ManagerState {
    match e
    case Send(now, purpose) =>
      s.(counter := s.counter + 1,
      calls := s.calls + [Call(MessageId(now, s.counter + 1), purpose, None, true, true)])
    case Spend(_) => s.(counter := s.counter + 1)
    case Deliver(r) =>
      ManagerState(s.counter, ReceiveAll(s.calls, r), SessionAfterAll(s.calls, r, s.session))
    case Expire(k) =>
      if k < |s.calls| && s.calls[k].armed
      then s.(calls := s.calls[k := s.calls[k].(armed := false,
           outcome := if s.calls[k].outcome.None? then Some(TimedOut) else s.calls[k].outcome)])
      else s
  }

  class Manager {
    var messageId: nat
    var calls: seq<Call>
    var currentVrfAccountId: Option<string>

    function Now(): ManagerState
      reads this
    {
      ManagerState(messageId, calls, currentVrfAccountId)
    }

    constructor ()
      ensures Now() == ManagerState(0, [], None)
    {
      messageId := 0;
      calls := [];
      currentVrfAccountId := None;
    }

    method GenerateMessageId(now: nat) returns (id: string)
      modifies this`messageId
      ensures Now() == ManagerStep(old(Now()), Spend(now)) && id == MessageId(now, messageId)
      ensures id == "vrf_" + ToString(now) + "_" + ToString(old(messageId) + 1)
    {
      messageId := messageId + 1;
      id := MessageId(now, messageId);
    }

    method SendMessage(id: string, purpose: Purpose)
      modifies this`calls
      ensures calls == old(calls) + [Call(id, purpose, None, true, true)]
    {
      calls := calls + [Call(id, purpose, None, true, true)];
    }

    /** A public operation: the id is generated first, and the message is sent if the rest of it can be built. */
    method Operate(now: nat, purpose: Purpose, builds: bool)
      modifies this`messageId, this`calls
      ensures Now() == ManagerStep(old(Now()), if builds then Send(now, purpose) else Spend(now))
    {
      var id := GenerateMessageId(now);
      if builds {
        SendMessage(id, purpose);
      }
    }

    /** Every listener still attached sees the message; the one whose id it carries settles. */
    method OnMessage(r: Response)
      modifies this`calls, this`currentVrfAccountId
      ensures Now() == ManagerStep(old(Now()), Deliver(r))
    {
      ghost var before := calls;
      for k := 0 to |calls|
        invariant |calls| == |before|
        invariant forall i :: 0 <= i < |calls| ==> calls[i] == if i < k then Receive(before[i], r) else before[i]
        invariant currentVrfAccountId == SessionAfterAll(before[..k], r, old(currentVrfAccountId))
      {
        assert before[..k + 1][..k] == before[..k];
        var c := calls[k];
        if c.listening && c.id == r.id {
          if c.outcome.None? && r.success {
            match c.purpose {
              case Adopt(account) => currentVrfAccountId := Some(account);
              case Drop => currentVrfAccountId := None;
              case Keep =>
            }
          }
          var outcome := if c.outcome.None? then Some(Replied(r)) else c.outcome;
          calls := calls[k := c.(armed := false, listening := false, outcome := outcome)];
        }
      }
      assert before[..|before|] == before;
      assert calls == ReceiveAll(before, r);
    }

    method OnTimeout(k: nat)
      modifies this`calls
      ensures Now() == ManagerStep(old(Now()), Expire(k))
    {
      if k < |calls| && calls[k].armed {
        var outcome := if calls[k].outcome.None? then Some(TimedOut) else calls[k].outcome;
        calls := calls[k := calls[k].(armed := false, outcome := outcome)];
      }
    }
  }

  // ---------- ids ----------

  /** A numeral after an underscore can be read off the end of a text. */
  lemma TailNumeral(a: string, m: nat, b: string, n: nat)
    requires a + "_" + ToString(m) == b + "_" + ToString(n)
    ensures m == n
  {
    var x, y := ToString(m), ToString(n);
    var s := a + "_" + x;
    ValueInvertsToString(m);
    ValueInvertsToString(n);
    assert s[|a|] == '_' && s[|b|] == '_';
    assert forall i :: |a| < i < |s| ==> s[i] == x[i - |a| - 1];
    assert forall i :: |b| < i < |s| ==> s[i] == y[i - |b| - 1];
    assert |a| == |b|;
    assert s[|a| + 1..] == x && s[|b| + 1..] == y;
    ToStringIsInjective(m, n);
  }

  /** Whatever the clock says, different counters give different ids. */
  lemma IdsDiffer(now: nat, m: nat, later: nat, n: nat)
    requires MessageId(now, m) == MessageId(later, n)
    ensures m == n
  {
    TailNumeral("vrf_" + ToString(now), m, "vrf_" + ToString(later), n);
  }

  // ---------- every interleaving ----------

  function ManagerRun(es: seq<ManagerEvent>): ManagerState {
    if es == [] then ManagerState(0, [], None) else ManagerStep(ManagerRun(es[..|es| - 1]), es[|es| - 1])
  }

  /** How many ids have been generated. */
  function Spent(es: seq<ManagerEvent>): nat {
    if es == [] then 0
    else Spent(es[..|es| - 1]) + (if es[|es| - 1].Send? || es[|es| - 1].Spend? then 1 else 0)
  }

  /** The messages sent, in order, each with the clock reading and the counter of its id. */
  function Sent(es: seq<ManagerEvent>): seq<(nat, nat)> {
    if es == [] then []
    else
      var front := es[..|es| - 1];
      Sent(front) + (if es[|es| - 1].Send? then [(es[|es| - 1].now, Spent(front) + 1)] else [])
  }

  function IdOf(sent: (nat, nat)): string {
    MessageId(sent.0, sent.1)
  }

  /** Whether this event settles call `k`: the reply with its id or its own timer. */
  function Settles(e: ManagerEvent, k: nat, id: string): Option<Settled> {
    match e
    case Deliver(r) => if r.id == id then Some(Replied(r)) else None
    case Expire(j) => if j == k then Some(TimedOut) else None
    case _ => None
  }

  /** The first event after the k-th message was sent that settles it. */
  function Verdict(es: seq<ManagerEvent>, k: nat): Option<Settled> {
    if es == [] || k >= |Sent(es[..|es| - 1])| then None
    else
      var before := Verdict(es[..|es| - 1], k);
      if before.Some? then before
      else Settles(es[|es| - 1], k, IdOf(Sent(es[..|es| - 1])[k]))
  }

  /** Some reply with the id of call `k` has been delivered since it was sent. */
  predicate Heard(es: seq<ManagerEvent>, k: nat) {
    es != [] && k < |Sent(es[..|es| - 1])|
    && (Heard(es[..|es| - 1], k)
        || (es[|es| - 1].Deliver? && es[|es| - 1].response.id == IdOf(Sent(es[..|es| - 1])[k])))
  }

  /** In every reachable state each call has the id it was sent with, and counters only grow. */
  lemma {:induction false} IdsFollowTheOrder(es: seq<ManagerEvent>)
    ensures |ManagerRun(es).calls| == |Sent(es)| && ManagerRun(es).counter == Spent(es)
    ensures forall k :: 0 <= k < |Sent(es)| ==> ManagerRun(es).calls[k].id == IdOf(Sent(es)[k])
    ensures forall k :: 0 <= k < |Sent(es)| ==> Sent(es)[k].1 <= Spent(es)
    ensures forall i, k :: 0 <= i < k < |Sent(es)| ==> Sent(es)[i].1 < Sent(es)[k].1
  {
    hide MessageId;
    if es != [] {
      IdsFollowTheOrder(es[..|es| - 1]);
    }
  }

  /** Ids are pairwise distinct, so a reply can settle only the call it answers. */
  lemma IdsAreDistinct(es: seq<ManagerEvent>, i: nat, k: nat)
    requires i < k < |ManagerRun(es).calls|
    ensures ManagerRun(es).calls[i].id != ManagerRun(es).calls[k].id
  {
    hide MessageId, ManagerRun, Sent, Spent;
    IdsFollowTheOrder(es);
    if ManagerRun(es).calls[i].id == ManagerRun(es).calls[k].id {
      IdsDiffer(Sent(es)[i].0, Sent(es)[i].1, Sent(es)[k].0, Sent(es)[k].1);
    }
  }

  /** What an event does to the call at `k`. */
  function CallStep(c: Call, e: ManagerEvent, k: nat): Call {
    match e
    case Deliver(r) => Receive(c, r)
    case Expire(j) =>
      if j == k && c.armed then c.(armed := false, outcome := if c.outcome.None? then Some(TimedOut) else c.outcome)
      else c
    case _ => c
  }

  lemma StepsCallByCall(s: ManagerState, e: ManagerEvent, k: nat)
    requires k < |s.calls|
    ensures k < |ManagerStep(s, e).calls| && ManagerStep(s, e).calls[k] == CallStep(s.calls[k], e, k)
  {
    hide MessageId, Receive, SessionAfterAll;
  }

  lemma CallSettlesOnce(c: Call, e: ManagerEvent, k: nat, heard: bool)
    requires (c.armed <==> c.outcome.None?) && (c.listening <==> !heard) && (heard ==> c.outcome.Some?)
    ensures var d := CallStep(c, e, k);
            && d.outcome == (if c.outcome.Some? then c.outcome else Settles(e, k, c.id))
            && (d.armed <==> d.outcome.None?)
            && (d.listening <==> !(heard || (e.Deliver? && e.response.id == c.id)))
  {}

  /** Over every interleaving each promise is settled by the first of its own reply and its own timer, and
      never again; its timer is armed exactly while it is open, and its listener stays until its reply comes,
      also past a timeout. */
  lemma {:induction false} SettledOnceByItsOwn(es: seq<ManagerEvent>, k: nat)
    requires k < |ManagerRun(es).calls|
    ensures var c := ManagerRun(es).calls[k];
            c.outcome == Verdict(es, k) && (c.armed <==> c.outcome.None?) && (c.listening <==> !Heard(es, k))
  {
    hide MessageId, CallStep, Settles;
    var prev, last := es[..|es| - 1], es[|es| - 1];
    IdsFollowTheOrder(prev);
    if k < |ManagerRun(prev).calls| {
      SettledOnceByItsOwn(prev, k);
      HeardMeansSettled(prev, k);
      hide ManagerStep;
      StepsCallByCall(ManagerRun(prev), last, k);
      CallSettlesOnce(ManagerRun(prev).calls[k], last, k, Heard(prev, k));
    } else {
      IdsFollowTheOrder(es);
    }
  }

  lemma {:induction false} HeardMeansSettled(es: seq<ManagerEvent>, k: nat)
    ensures Heard(es, k) ==> Verdict(es, k).Some?
  {
    hide MessageId;
    if es != [] {
      HeardMeansSettled(es[..|es| - 1], k);
    }
  }

  /** A settled promise keeps its outcome whatever happens next. */
  lemma OutcomesAreFinal(es: seq<ManagerEvent>, e: ManagerEvent, k: nat)
    requires k < |ManagerRun(es).calls| && ManagerRun(es).calls[k].outcome.Some?
    ensures k < |ManagerRun(es + [e]).calls|
    ensures ManagerRun(es + [e]).calls[k].outcome == ManagerRun(es).calls[k].outcome
  {
    hide MessageId;
    assert (es + [e])[..|es + [e]| - 1] == es;
  }

  /** The call at `k` is open and waiting for exactly this reply. */
  predicate AnswersOpen(es: seq<ManagerEvent>, r: Response, k: nat) {
    k < |Sent(es)| && IdOf(Sent(es)[k]) == r.id && Verdict(es, k).None?
  }

  function Moved(purpose: Purpose, session: Option<string>): Option<string> {
    match purpose case Adopt(account) => Some(account) case Drop => None case Keep => session
  }

  lemma {:induction false} SessionUnmovedByOthers(cs: seq<Call>, r: Response, session: Option<string>)
    requires forall i :: 0 <= i < |cs| ==> SessionAfter(cs[i], r, session) == session
    ensures SessionAfterAll(cs, r, session) == session
  {
    if cs != [] {
      SessionUnmovedByOthers(cs[..|cs| - 1], r, session);
    }
  }

  lemma {:induction false} SessionMovedByOne(cs: seq<Call>, r: Response, session: Option<string>, k: nat)
    requires k < |cs| && cs[k].id == r.id && cs[k].listening && cs[k].outcome.None? && r.success
    requires forall i :: 0 <= i < |cs| && i != k ==> cs[i].id != r.id
    ensures SessionAfterAll(cs, r, session) == Moved(cs[k].purpose, session)
  {
    if k == |cs| - 1 {
      SessionUnmovedByOthers(cs[..k], r, session);
    } else {
      SessionMovedByOne(cs[..|cs| - 1], r, session, k);
    }
  }

  /** The tracked session follows exactly the successful replies to calls that are still open: a reply that
      comes after its call timed out, or that answers no call, leaves the session alone. */
  lemma SessionFollowsOpenCalls(es: seq<ManagerEvent>, r: Response)
    ensures |ManagerRun(es).calls| == |Sent(es)|
    ensures forall k: nat :: AnswersOpen(es, r, k) && r.success ==>
                               ManagerRun(es + [Deliver(r)]).session ==
                               Moved(ManagerRun(es).calls[k].purpose, ManagerRun(es).session)
    ensures (forall k: nat :: !AnswersOpen(es, r, k)) || !r.success ==>
              ManagerRun(es + [Deliver(r)]).session == ManagerRun(es).session
  {
    hide MessageId, Verdict, Heard;
    var s := ManagerRun(es);
    assert (es + [Deliver(r)])[..|es + [Deliver(r)]| - 1] == es;
    IdsFollowTheOrder(es);
    forall k | 0 <= k < |s.calls| ensures s.calls[k].outcome == Verdict(es, k)
      ensures s.calls[k].listening <==> !Heard(es, k)
      ensures Heard(es, k) ==> Verdict(es, k).Some?
    {
      SettledOnceByItsOwn(es, k);
      HeardMeansSettled(es, k);
    }
    forall i, j | 0 <= i < j < |s.calls| ensures s.calls[i].id != s.calls[j].id {
      IdsAreDistinct(es, i, j);
    }
    forall k: nat | AnswersOpen(es, r, k) && r.success
      ensures SessionAfterAll(s.calls, r, s.session) == Moved(s.calls[k].purpose, s.session)
    {
      SessionMovedByOne(s.calls, r, s.session, k);
    }
    if (forall k: nat :: !AnswersOpen(es, r, k)) || !r.success {
      forall i | 0 <= i < |s.calls| ensures SessionAfter(s.calls[i], r, s.session) == s.session {
        assert !AnswersOpen(es, r, i) || !r.success;
      }
      SessionUnmovedByOthers(s.calls, r, s.session);
    }
  }
}
