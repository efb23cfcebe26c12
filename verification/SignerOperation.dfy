/** One signer worker operation: a fresh worker, a timer, progress updates, and one settlement. A worker
    that has been terminated delivers nothing more, and a cleared timer does not fire. */
module SignerOperation {
  import opened Common

  /** A worker message: its type, whether its payload says success, and the payload itself. */
  datatype Response = Response(kind: string, success: bool, payload: string)

  datatype Outcome = Resolved(response: Response) | Rejected(reason: string)

  datatype Event = Message(response: Response) | WorkerError(reason: string) | TimerFires

  predicate Contains(s: string, t: string) {
    t <= s || (s != "" && Contains(s[1..], t))
  }

  predicate IsProgress(kind: string) {
    kind == "VERIFICATION_PROGRESS" || kind == "SIGNING_PROGRESS" || kind == "REGISTRATION_PROGRESS"
  }

  predicate IsFinal(kind: string) {
    kind == "SIGNING_COMPLETE" || kind == "REGISTRATION_COMPLETE"
  }

  const VERIFIED := "VERIFICATION_COMPLETE"

  /** How a response settles the operation; None for progress, a successful verification, and types that
      name neither success nor failure. */
  function Settlement(r: Response): Option<Outcome> {
    if IsProgress(r.kind) then None
    else if r.kind == VERIFIED then (if r.success then None else Some(Rejected("Verification failed: " + r.payload)))
    else if IsFinal(r.kind) then Some(Resolved(r))
    else if r.kind == "ERROR" then Some(Rejected(r.payload))
    else if Contains(r.kind, "SUCCESS") || Contains(r.kind, "FAILURE") then Some(Resolved(r))
    else None
  }

  /** The responses whose payload goes to the event callback. */
  predicate IsReported(r: Response) {
    IsProgress(r.kind) || r.kind == VERIFIED
  }

  /** The caller's event callback: absent, or one that throws on some of its calls. */
  datatype Callback = NoCallback | Callback(throws: nat -> bool)

  datatype State = State(outcome: Option<Outcome>, alive: bool, armed: bool, received: seq<string>)

  /** The first settlement of a promise is the only one. */
  function Settle(s: State, o: Outcome): State {
    s.(outcome := if s.outcome.None? then Some(o) else s.outcome, alive := false, armed := false)
  }

  function Report(cb: Callback, s: State, r: Response): State {
    if IsReported(r) && cb.Callback? then s.(received := s.received + [r.payload]) else s
  }

  predicate Throws(cb: Callback, s: State, r: Response) {
    IsReported(r) && cb.Callback? && cb.throws(|s.received|)
  }

  function Step(cb: Callback, s: State, e: Event): State {
    match e
    case Message(r) =>
      if !s.alive then s
      else if Throws(cb, s, r) || Settlement(r).None? then Report(cb, s, r)
      else Settle(Report(cb, s, r), Settlement(r).value)
    case WorkerError(reason) => if !s.alive then s else Settle(s, Rejected("Worker error: " + reason))
    case TimerFires => if !s.armed then s else Settle(s, Rejected("Worker operation timed out"))
  }

  /** After the constructor: when handing the message to the worker throws, the promise is rejected at once
      while the timer stays armed and the worker alive. */
  function Start(postFails: Option<string>): State {
    State(if postFails.Some? then Some(Rejected(postFails.value)) else None, true, true, [])
  }

  class Operation {
    const onEvent: Callback
    var outcome: Option<Outcome>
    var alive: bool
    var armed: bool
    var received: seq<string>
    ghost var settlements: nat  // how often resolve or reject was called

    function Now(): State
      reads this
    {
      State(outcome, alive, armed, received)
    }

    constructor (onEvent: Callback, postFails: Option<string>)
      ensures this.onEvent == onEvent && Now() == Start(postFails)
      ensures settlements == if postFails.Some? then 1 else 0
    {
      this.onEvent := onEvent;
      outcome, alive, armed, received := None, true, true, [];
      settlements := 0;
      new;
      if postFails.Some? {
        Finish(Rejected(postFails.value));
      }
    }

    method Finish(o: Outcome)
      modifies this`outcome, this`settlements
      ensures outcome == (if old(outcome).None? then Some(o) else old(outcome))
      ensures settlements == old(settlements) + 1
    {
      if outcome.None? {
        outcome := Some(o);
      }
      settlements := settlements + 1;
    }

    method Emit(payload: string) returns (threw: bool)
      modifies this`received
      ensures received == old(received) + (if onEvent.Callback? then [payload] else [])
      ensures threw <==> onEvent.Callback? && onEvent.throws(|old(received)|)
    {
      threw := false;
      if onEvent.Callback? {
        threw := onEvent.throws(|received|);
        received := received + [payload];
      }
    }

    method OnMessage(r: Response)
      requires alive
      modifies this
      ensures Now() == Step(onEvent, old(Now()), Message(r))
      ensures settlements == old(settlements) + (if alive then 0 else 1)
    {
      if IsProgress(r.kind) {
        var _ := Emit(r.payload);
        return;
      }
      if r.kind == VERIFIED {
        var threw := Emit(r.payload);
        if threw { return; }
        if !r.success {
          armed := false;
          alive := false;
          Finish(Rejected("Verification failed: " + r.payload));
        }
        return;
      }
      if IsFinal(r.kind) {
        armed := false;
        alive := false;
        Finish(Resolved(r));
        return;
      }
      if r.kind == "ERROR" {
        armed := false;
        alive := false;
        Finish(Rejected(r.payload));
        return;
      }
      if Contains(r.kind, "SUCCESS") || Contains(r.kind, "FAILURE") {
        armed := false;
        alive := false;
        Finish(Resolved(r));
      }
    }

    method OnError(reason: string)
      requires alive
      modifies this
      ensures Now() == Step(onEvent, old(Now()), WorkerError(reason))
      ensures settlements == old(settlements) + 1
    {
      armed := false;
      alive := false;
      Finish(Rejected("Worker error: " + reason));
    }

    method OnTimeout()
      requires armed
      modifies this
      ensures Now() == Step(onEvent, old(Now()), TimerFires)
      ensures settlements == old(settlements) + 1
    {
      armed := false;
      alive := false;
      Finish(Rejected("Worker operation timed out"));
    }
  }

  // ---------- every interleaving ----------

  function Run(cb: Callback, start: State, es: seq<Event>): State {
    if es == [] then start else Step(cb, Run(cb, start, es[..|es| - 1]), es[|es| - 1])
  }

  /** The text has `t` somewhere in it. */
  lemma {:induction false} ContainsExactlyWhere(s: string, t: string)
    ensures Contains(s, t) <==> exists i: nat :: i <= |s| && t <= s[i..]
  {
    if t <= s {
      assert t <= s[0..];
    } else if s != "" {
      ContainsExactlyWhere(s[1..], t);
      if i: nat :| i <= |s| && t <= s[i..] {
        assert i > 0 && s[1..][i - 1..] == s[i..];
      }
      if i: nat :| i <= |s[1..]| && t <= s[1..][i..] {
        assert s[1..][i..] == s[i + 1..];
      }
    }
  }

  predicate StaysOpen(s: State, t: State) {
    t.outcome == s.outcome && t.alive && t.armed
  }

  /** The worker is terminated, the timer cleared, and the promise settled this way unless it already was. */
  predicate ClosesWith(s: State, t: State, o: Outcome) {
    t.outcome == (if s.outcome.Some? then s.outcome else Some(o)) && !t.alive && !t.armed
  }

  /** What a message does to an open operation, by its type. */
  ghost predicate ActsByType(cb: Callback, s: State, t: State, r: Response) {
    var progress := || r.kind == "VERIFICATION_PROGRESS" || r.kind == "SIGNING_PROGRESS"
                    || r.kind == "REGISTRATION_PROGRESS";
    var told := cb.Callback? && (progress || r.kind == "VERIFICATION_COMPLETE");
    && t.received == (if told then s.received + [r.payload] else s.received)
    && if progress then StaysOpen(s, t)
       else if r.kind == "VERIFICATION_COMPLETE" then
         if r.success || (told && cb.throws(|s.received|)) then StaysOpen(s, t)
         else ClosesWith(s, t, Rejected("Verification failed: " + r.payload))
       else if r.kind == "SIGNING_COMPLETE" || r.kind == "REGISTRATION_COMPLETE" then ClosesWith(s, t, Resolved(r))
       else if r.kind == "ERROR" then ClosesWith(s, t, Rejected(r.payload))
       else if exists i: nat :: i <= |r.kind| && ("SUCCESS" <= r.kind[i..] || "FAILURE" <= r.kind[i..]) then
         ClosesWith(s, t, Resolved(r))
       else StaysOpen(s, t)
  }

  /** After every interleaving that leaves the operation open, the next message acts by its type. */
  lemma MessagesActByType(cb: Callback, postFails: Option<string>, es: seq<Event>, r: Response)
    requires Run(cb, Start(postFails), es).alive
    ensures ActsByType(cb, Run(cb, Start(postFails), es), Run(cb, Start(postFails), es + [Message(r)]), r)
  {
    hide Step, ActsByType;
    assert (es + [Message(r)])[..|es|] == es;
    SettledMeansCleanedUp(cb, postFails, es);
    StepActsByType(cb, Run(cb, Start(postFails), es), r);
  }

  lemma StepActsByType(cb: Callback, s: State, r: Response)
    requires s.alive && s.armed
    ensures ActsByType(cb, s, Step(cb, s, Message(r)), r)
  {
    hide Contains;
    NamesAnEndExactlyWhere(r.kind);
  }

  lemma NamesAnEndExactlyWhere(kind: string)
    ensures Contains(kind, "SUCCESS") || Contains(kind, "FAILURE") <==>
            exists i: nat :: i <= |kind| && ("SUCCESS" <= kind[i..] || "FAILURE" <= kind[i..])
  {
    hide Contains;
    ContainsExactlyWhere(kind, "SUCCESS");
    ContainsExactlyWhere(kind, "FAILURE");
  }

  /** What an error of the worker and the timer do to an open operation; a closed one changes no more. */
  lemma WhatElseHappens(cb: Callback, postFails: Option<string>, es: seq<Event>, e: Event)
    ensures var s, t := Run(cb, Start(postFails), es), Run(cb, Start(postFails), es + [e]);
            && (!s.alive ==> t == s)
            && (s.alive && e.WorkerError? ==>
                  ClosesWith(s, t, Rejected("Worker error: " + e.reason)) && t.received == s.received)
            && (s.alive && e.TimerFires? ==>
                  ClosesWith(s, t, Rejected("Worker operation timed out")) && t.received == s.received)
  {
    assert (es + [e])[..|es|] == es;
    SettledMeansCleanedUp(cb, postFails, es);
  }

  /** The payloads the callback is due, in order. */
  function Payloads(cb: Callback, es: seq<Event>): seq<string> {
    if es == [] || cb.NoCallback? then []
    else
      var last := es[|es| - 1];
      var mine := if last.Message? && IsReported(last.response) then [last.response.payload] else [];
      Payloads(cb, es[..|es| - 1]) + mine
  }

  function OutcomeOf(e: Event): Option<Outcome> {
    match e
    case Message(r) => Settlement(r)
    case WorkerError(reason) => Some(Rejected("Worker error: " + reason))
    case TimerFires => Some(Rejected("Worker operation timed out"))
  }

  /** The callback throws while it is told of a failed verification, which is then never acted on. */
  predicate Swallowed(cb: Callback, es: seq<Event>, i: nat)
    requires i < |es|
  {
    && es[i].Message? && es[i].response.kind == VERIFIED && !es[i].response.success
    && cb.Callback? && cb.throws(|Payloads(cb, es[..i])|)
  }

  /** Event `i` is terminal and takes effect. */
  predicate Ends(cb: Callback, es: seq<Event>, i: nat)
    requires i < |es|
  {
    OutcomeOf(es[i]).Some? && !Swallowed(cb, es, i)
  }

  lemma EndsInPrefix(cb: Callback, es: seq<Event>, i: nat)
    requires i < |es| - 1
    ensures Ends(cb, es[..|es| - 1], i) == Ends(cb, es, i)
  {
    hide OutcomeOf;
    assert es[..|es| - 1][..i] == es[..i];
  }

  /** Until a terminal event takes effect the worker lives, the timer is armed, and the callback has received
      exactly the reported payloads so far, in order. */
  lemma {:induction false} OpenUntilTerminal(cb: Callback, postFails: Option<string>, es: seq<Event>)
    requires forall i: nat :: i < |es| ==> !Ends(cb, es, i)
    ensures Run(cb, Start(postFails), es) == Start(postFails).(received := Payloads(cb, es))
  {
    hide Settlement, IsProgress;
    if es != [] {
      var n := |es| - 1;
      forall i: nat | i < n ensures !Ends(cb, es[..n], i) {
        EndsInPrefix(cb, es, i);
      }
      OpenUntilTerminal(cb, postFails, es[..n]);
      assert !Ends(cb, es, n);
      OnlyVerificationsAreReportedAndTerminal(es[n]);
    }
  }

  lemma OnlyVerificationsAreReportedAndTerminal(e: Event)
    ensures e.Message? && IsReported(e.response) && Settlement(e.response).Some? ==>
              e.response.kind == VERIFIED && !e.response.success
  {}

  /** Over every interleaving of messages, errors and the timer: the first terminal event to take effect
      terminates the worker, disarms the timer and settles the promise with its own outcome (unless handing
      over the message had already failed); nothing after it changes anything. */
  lemma {:induction false} SettlesAtFirstTerminal(cb: Callback, postFails: Option<string>, es: seq<Event>, i: nat)
    requires i < |es| && Ends(cb, es, i) && forall j: nat :: j < i ==> !Ends(cb, es, j)
    ensures Run(cb, Start(postFails), es) ==
            State(if postFails.Some? then Some(Rejected(postFails.value)) else OutcomeOf(es[i]), false, false,
                  Payloads(cb, es[..i + 1]))
  {
    hide Settlement, IsProgress;
    var n := |es| - 1;
    if i < n {
      forall j: nat | j <= i ensures Ends(cb, es[..n], j) == Ends(cb, es, j) {
        EndsInPrefix(cb, es, j);
      }
      SettlesAtFirstTerminal(cb, postFails, es[..n], i);
      assert es[..n][..i + 1] == es[..i + 1];
    } else {
      forall j: nat | j < n ensures !Ends(cb, es[..n], j) {
        EndsInPrefix(cb, es, j);
      }
      OpenUntilTerminal(cb, postFails, es[..n]);
      assert es[..i + 1] == es;
      OnlyVerificationsAreReportedAndTerminal(es[n]);
    }
  }

  /** A settled operation has no live worker and no armed timer exactly when handing over the message did not
      throw or a terminal event has since taken effect. */
  lemma {:induction false} SettledMeansCleanedUp(cb: Callback, postFails: Option<string>, es: seq<Event>)
    ensures var s := Run(cb, Start(postFails), es);
            && (s.alive <==> s.armed)
            && (s.alive <==> forall i: nat :: i < |es| ==> !Ends(cb, es, i))
            && (postFails.None? ==> (s.outcome.Some? <==> !s.alive))
            && (postFails.Some? ==> s.outcome == Some(Rejected(postFails.value)))
  {
    hide Settlement, Ends;
    if i: nat :| i < |es| && Ends(cb, es, i) {
      var first := FirstEnd(cb, es, i);
      EndHasOutcome(cb, es, first);
      SettlesAtFirstTerminal(cb, postFails, es, first);
    } else {
      OpenUntilTerminal(cb, postFails, es);
    }
  }

  lemma EndHasOutcome(cb: Callback, es: seq<Event>, i: nat)
    requires i < |es| && Ends(cb, es, i)
    ensures OutcomeOf(es[i]).Some?
  {}

  lemma {:induction false} FirstEnd(cb: Callback, es: seq<Event>, i: nat) returns (first: nat)
    requires i < |es| && Ends(cb, es, i)
    ensures first <= i && Ends(cb, es, first) && forall j: nat :: j < first ==> !Ends(cb, es, j)
  {
    hide Ends;
    if j: nat :| j < i && Ends(cb, es, j) {
      first := FirstEnd(cb, es, j);
    } else {
      first := i;
    }
  }

  /** A terminal event that meets a live worker leaves it alive, with the timer armed and the promise as it was,
      exactly when it is a failed verification of which the callback throws as it is told. */
  lemma TerminalExactlyUnlessSwallowed(cb: Callback, postFails: Option<string>, es: seq<Event>, i: nat)
    requires i < |es| && OutcomeOf(es[i]).Some? && Run(cb, Start(postFails), es[..i]).alive
    ensures var before, after := Run(cb, Start(postFails), es[..i]), Run(cb, Start(postFails), es[..i + 1]);
            && (after.alive <==>
                && es[i].Message? && es[i].response.kind == VERIFIED
                && cb.Callback? && cb.throws(|Payloads(cb, es[..i])|))
            && (after.alive ==> after == before.(received := before.received + [es[i].response.payload]))
            && (!after.alive ==> !after.armed && after.outcome.Some?)
  {
    hide IsProgress, Ends, Contains;
    SettledMeansCleanedUp(cb, postFails, es[..i]);
    OpenUntilTerminal(cb, postFails, es[..i]);
    assert es[..i + 1][..i] == es[..i];
    OnlyVerificationsAreReportedAndTerminal(es[i]);
  }
}
