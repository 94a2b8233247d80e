/**
 The single-flight refresh of one OAuth session (llmprovider/oauth_session.go, Token): concurrent
 calls share one refresh, whose result every waiter receives.

 A Token call is two critical sections under the session's mutex with the refresh, or the wait for
 somebody else's, between them. A System is a session and every call made on it so far; a step is one
 critical section, one wake-up or one cancellation, in any order.
 */
module OAuthSessions {
  import opened Options

  const REFRESH_SKEW := 300_000_000_000

  /** The exported fields of a session; an absent expiry is the zero time. */
  datatype Fields = Fields(
    provider: string, access: string, refresh: string, expiry: Option<int>, issuer: string,
    clientId: string, accountId: string, fedramp: bool, tokenUrl: string)

  datatype Token = Token(value: string, expiry: Option<int>)

  datatype Error = NoRefreshToken | ContextDone | RefreshFailed(detail: string)

  datatype Result = Ok(token: Token) | Err(error: Error)

  /** currentToken: an access token that is not due within the skew. */
  function CurrentToken(f: Fields, now: int): Option<Token> {
    if f.access == "" then None
    else if f.expiry.Some? && f.expiry.value - now <= REFRESH_SKEW then None
    else Some(Token(f.access, f.expiry))
  }

  /** What a token that is handed out promises: it is there, and does not expire within the next 300 s, if ever. */
  predicate Usable(access: string, expiry: Option<int>, now: int) {
    access != "" && (expiry.None? || expiry.value > now + 300_000_000_000)
  }

  /** A future is pending until its one refresh completes it. */
  datatype Future = Pending | Completed(result: Result)

  /** What the mutex protects; futures are numbered in the order they were made. */
  datatype Session = Session(fields: Fields, inflight: Option<nat>, futures: seq<Future>)

  /** How a call leaves its first critical section. */
  datatype Entry = Current(token: Token) | Join(future: nat) | NoRefresh | Lead(future: nat, state: Fields)

  function Enter(s: Session, now: int): (Session, Entry) {
    match CurrentToken(s.fields, now)
    case Some(token) => (s, Current(token))
    case None =>
      match s.inflight
      case Some(f) => (s, Join(f))
      case None =>
        if s.fields.refresh == "" then (s, NoRefresh)
        else
          var f := |s.futures|;
          (s.(inflight := Some(f), futures := s.futures + [Pending]), Lead(f, s.fields))
  }

  /** What reloadOrRefresh returned to the leader: a session and a token, or an error. */
  datatype Outcome = Refreshed(next: Fields, token: Token) | Failed(error: Error)

  function ResultOf(outcome: Outcome): Result {
    match outcome
    case Refreshed(_, token) => Ok(token)
    case Failed(error) => Err(error)
  }

  /** The leader's second critical section. */
  function Complete(s: Session, future: nat, outcome: Outcome): Session
    requires future < |s.futures|
  {
    Session(if outcome.Refreshed? then outcome.next else s.fields,
            None,
            s.futures[future := Completed(ResultOf(outcome))])
  }

  /** The session itself, whose methods are those two critical sections. */
  class OAuthSession {
    var fields: Fields
    var inflight: Option<nat>
    var futures: seq<Future>

    ghost function View(): Session
      reads this
    {
      Session(fields, inflight, futures)
    }

    constructor (fields: Fields)
      ensures View() == Session(fields, None, [])
    {
      this.fields, inflight, futures := fields, None, [];
    }

    method EnterToken(now: int) returns (entry: Entry)
      modifies this
      ensures (View(), entry) == Enter(old(View()), now)
      ensures fields == old(fields)
      ensures entry.Current? <==> Usable(old(fields).access, old(fields).expiry, now)
      ensures entry.Current? ==> entry.token == Token(old(fields).access, old(fields).expiry)
      ensures entry.Join? <==> !entry.Current? && old(inflight).Some?
      ensures entry.Join? ==> old(inflight) == Some(entry.future)
      ensures entry.NoRefresh? <==> !entry.Current? && old(inflight).None? && old(fields).refresh == ""
      ensures entry.Lead? ==>
                && entry.state == old(fields) && entry.future == |old(futures)|
                && inflight == Some(entry.future)
      ensures futures == if entry.Lead? then old(futures) + [Pending] else old(futures)
    {
      var token := CurrentToken(fields, now);
      if token.Some? {
        return Current(token.value);
      }
      if inflight.Some? {
        return Join(inflight.value);
      }
      if fields.refresh == "" {
        return NoRefresh;
      }
      var f := |futures|;
      futures := futures + [Pending];
      inflight := Some(f);
      entry := Lead(f, fields);
    }

    method CompleteRefresh(future: nat, outcome: Outcome)
      requires future < |futures|
      modifies this
      ensures View() == Complete(old(View()), future, outcome)
      ensures fields == (if outcome.Refreshed? then outcome.next else old(fields)) && inflight.None?
      ensures futures[future] == Completed(if outcome.Refreshed? then Ok(outcome.token) else Err(outcome.error))
    {
      if outcome.Refreshed? {
        Adopt(outcome.next);
      }
      futures := futures[future := Completed(ResultOf(outcome))];
      inflight := None;
    }

    method Adopt(next: Fields)
      modifies this`fields
      ensures fields == next
    {
      fields := next;
    }
  }

  // ----- All calls on one session -----

  type Call = nat

  /** Where a call is. A finished call remembers the future its result came from, if any. */
  datatype Phase =
    | Waiting(future: nat)
    | Refreshing(future: nat, state: Fields)
    | Returned(result: Result, source: Option<nat>)

  datatype System = System(session: Session, calls: map<Call, Phase>)

  function PhaseAfter(entry: Entry): Phase {
    match entry
    case Current(token) => Returned(Ok(token), None)
    case Join(f) => Waiting(f)
    case NoRefresh => Returned(Err(NoRefreshToken), None)
    case Lead(f, state) => Refreshing(f, state)
  }

  datatype Step =
    | Begin(call: Call, now: int)
    | Finish(call: Call, outcome: Outcome)
    | Wake(call: Call)
    | Cancel(call: Call)

  predicate Enabled(sys: System, step: Step) {
    match step
    case Begin(c, _) => c !in sys.calls
    case Finish(c, _) => c in sys.calls && sys.calls[c].Refreshing? && sys.calls[c].future < |sys.session.futures|
    case Wake(c) => c in sys.calls && sys.calls[c].Waiting? && sys.calls[c].future < |sys.session.futures|
                    && sys.session.futures[sys.calls[c].future].Completed?
    case Cancel(c) => c in sys.calls && sys.calls[c].Waiting?
  }

  function Next(sys: System, step: Step): System
    requires Enabled(sys, step)
  {
    var c := step.call;
    match step
    case Begin(_, now) =>
      var (session, entry) := Enter(sys.session, now);
      System(session, sys.calls[c := PhaseAfter(entry)])
    case Finish(_, outcome) =>
      var f := sys.calls[c].future;
      System(Complete(sys.session, f, outcome), sys.calls[c := Returned(ResultOf(outcome), Some(f))])
    case Wake(_) =>
      var f := sys.calls[c].future;
      sys.(calls := sys.calls[c := Returned(sys.session.futures[f].result, Some(f))])
    case Cancel(_) =>
      sys.(calls := sys.calls[c := Returned(Err(ContextDone), None)])
  }

  function Initial(fields: Fields): System {
    System(Session(fields, None, []), map[])
  }

  /** The systems a list of steps passes through; steps that are not enabled are skipped. */
  function Run(sys: System, steps: seq<Step>): System {
    if steps == [] then sys
    else
      var before := Run(sys, steps[..|steps| - 1]);
      var step := steps[|steps| - 1];
      if Enabled(before, step) then Next(before, step) else before
  }

  ghost predicate Leads(sys: System, c: Call, f: nat) {
    c in sys.calls && sys.calls[c].Refreshing? && sys.calls[c].future == f
  }

  /**
   The refresh in flight belongs to exactly one call; a future is pending exactly while it is the one
   in flight; a waiter's future exists; and every result that came from a future is that future's.
   */
  ghost predicate Inv(sys: System) {
    var s := sys.session;
    && (forall f :: 0 <= f < |s.futures| ==> (s.futures[f].Pending? <==> s.inflight == Some(f)))
    && (s.inflight.Some? ==> s.inflight.value < |s.futures| && exists c :: Leads(sys, c, s.inflight.value))
    && (forall c :: c in sys.calls && sys.calls[c].Refreshing? ==> s.inflight == Some(sys.calls[c].future))
    && (forall c, d :: c in sys.calls && d in sys.calls && sys.calls[c].Refreshing? && sys.calls[d].Refreshing? ==>
         c == d)
    && (forall c :: c in sys.calls && sys.calls[c].Waiting? ==> sys.calls[c].future < |s.futures|)
    && (forall c :: c in sys.calls && sys.calls[c].Returned? && sys.calls[c].source.Some? ==>
          var f := sys.calls[c].source.value;
          f < |s.futures| && s.futures[f] == Completed(sys.calls[c].result))
  }

  lemma StepKeepsInv(sys: System, step: Step)
    requires Inv(sys) && Enabled(sys, step)
    ensures Inv(Next(sys, step))
  {
    match step
    case Begin(_, _) => BeginKeepsInv(sys, step);
    case Finish(_, _) => FinishKeepsInv(sys, step);
    case _ => WaiterKeepsInv(sys, step);
  }

  lemma BeginKeepsInv(sys: System, step: Step)
    requires Inv(sys) && Enabled(sys, step) && step.Begin?
    ensures Inv(Next(sys, step))
  {
    var next := Next(sys, step);
    if sys.session.inflight.Some? {
      var c :| Leads(sys, c, sys.session.inflight.value);
      assert Leads(next, c, sys.session.inflight.value);
    } else if next.session.inflight.Some? {
      assert Leads(next, step.call, next.session.inflight.value);
    }
  }

  lemma FinishKeepsInv(sys: System, step: Step)
    requires Inv(sys) && Enabled(sys, step) && step.Finish?
    ensures Inv(Next(sys, step))
  {
  }

  lemma WaiterKeepsInv(sys: System, step: Step)
    requires Inv(sys) && Enabled(sys, step) && (step.Wake? || step.Cancel?)
    ensures Inv(Next(sys, step))
  {
    if sys.session.inflight.Some? {
      var c :| Leads(sys, c, sys.session.inflight.value);
      assert Leads(Next(sys, step), c, sys.session.inflight.value);
    }
  }

  lemma {:induction false} RunKeepsInv(fields: Fields, steps: seq<Step>)
    ensures Inv(Run(Initial(fields), steps))
  {
    if steps != [] {
      var before := Run(Initial(fields), steps[..|steps| - 1]);
      RunKeepsInv(fields, steps[..|steps| - 1]);
      if Enabled(before, steps[|steps| - 1]) {
        StepKeepsInv(before, steps[|steps| - 1]);
      }
    }
  }

  /** In every interleaving the session has a refresh in flight exactly while one call refreshes, and never two do. */
  lemma InflightExactlyWhileRefreshing(fields: Fields, steps: seq<Step>)
    ensures var sys := Run(Initial(fields), steps);
            && (sys.session.inflight.Some? <==> exists c :: c in sys.calls && sys.calls[c].Refreshing?)
            && (forall c, d ::
                 c in sys.calls && d in sys.calls && sys.calls[c].Refreshing? && sys.calls[d].Refreshing? ==>
                 c == d)
  {
    RunKeepsInv(fields, steps);
    var sys := Run(Initial(fields), steps);
    if sys.session.inflight.Some? {
      var c :| Leads(sys, c, sys.session.inflight.value);
    }
  }

  /** A future never changes again once it is completed, and no future disappears. */
  lemma {:induction false} FuturesCompleteOnce(fields: Fields, steps: seq<Step>, more: seq<Step>)
    ensures var early, late := Run(Initial(fields), steps).session, Run(Initial(fields), steps + more).session;
            && |early.futures| <= |late.futures|
            && forall f :: 0 <= f < |early.futures| && early.futures[f].Completed? ==>
                 late.futures[f] == early.futures[f]
  {
    if more == [] {
      assert steps + more == steps;
    } else {
      var last := more[|more| - 1];
      FuturesCompleteOnce(fields, steps, more[..|more| - 1]);
      assert (steps + more)[..|steps + more| - 1] == steps + more[..|more| - 1];
      RunKeepsInv(fields, steps + more[..|more| - 1]);
    }
  }

  /**
   Every call that returned from a shared refresh got that refresh's result, the leader's and each
   waiter's alike; every other return is a current token, the missing refresh token or the call's own
   context error. And a waiter is never stranded: its future is completed or in flight.
   */
  lemma WaitersGetTheResult(fields: Fields, steps: seq<Step>, c: Call)
    requires c in Run(Initial(fields), steps).calls
    ensures var sys := Run(Initial(fields), steps);
            match sys.calls[c]
            case Returned(result, Some(f)) => f < |sys.session.futures| && sys.session.futures[f] == Completed(result)
            case Returned(result, None) => result.Ok? || result == Err(NoRefreshToken) || result == Err(ContextDone)
            case Waiting(f) => f < |sys.session.futures|
                && (sys.session.futures[f].Completed? || sys.session.inflight == Some(f))
            case Refreshing(f, _) => sys.session.inflight == Some(f)
  {
    RunKeepsInv(fields, steps);
    OwnReturns(fields, steps, c);
  }

  lemma {:induction false} OwnReturns(fields: Fields, steps: seq<Step>, c: Call)
    requires c in Run(Initial(fields), steps).calls
    ensures var p := Run(Initial(fields), steps).calls[c];
            p.Returned? && p.source.None? ==>
                p.result.Ok? || p.result == Err(NoRefreshToken) || p.result == Err(ContextDone)
  {
    if steps != [] {
      var before := Run(Initial(fields), steps[..|steps| - 1]);
      if c in before.calls {
        OwnReturns(fields, steps[..|steps| - 1], c);
      }
    }
  }

  lemma RunStep(sys: System, steps: seq<Step>, step: Step)
    requires Enabled(Run(sys, steps), step)
    ensures Run(sys, steps + [step]) == Next(Run(sys, steps), step)
  {
    assert (steps + [step])[..|steps|] == steps;
  }

  /**
   The leader and every waiter get what the refresh brought: its very token, or its error, whatever
   happens before they wake up.
   */
  lemma SharedResultIsTheOutcome(fields: Fields, steps: seq<Step>, leader: Call, outcome: Outcome, more: seq<Step>,
                                 c: Call)
    requires Enabled(Run(Initial(fields), steps), Finish(leader, outcome))
    requires c in Run(Initial(fields), steps + [Finish(leader, outcome)] + more).calls
    requires var sys := Run(Initial(fields), steps);
             var p := Run(Initial(fields), steps + [Finish(leader, outcome)] + more).calls[c];
             p.Returned? && p.source == Some(sys.calls[leader].future)
    ensures Run(Initial(fields), steps + [Finish(leader, outcome)] + more).calls[c].result
         == if outcome.Refreshed? then Ok(outcome.token) else Err(outcome.error)
  {
    RunKeepsInv(fields, steps);
    RunStep(Initial(fields), steps, Finish(leader, outcome));
    FuturesCompleteOnce(fields, steps + [Finish(leader, outcome)], more);
    RunKeepsInv(fields, steps + [Finish(leader, outcome)] + more);
  }

  /**
   A call that begins returns at once with the session's token exactly when that is usable, and then
   neither joins nor leads a refresh nor changes anything.
   */
  lemma ReturnsAtOnceExactlyWhenUsable(sys: System, c: Call, now: int)
    requires Enabled(sys, Begin(c, now))
    ensures var f, next := sys.session.fields, Next(sys, Begin(c, now));
            && ((next.calls[c].Returned? && next.calls[c].result.Ok?) <==> Usable(f.access, f.expiry, now))
            && (Usable(f.access, f.expiry, now) ==>
                  next.session == sys.session && next.calls[c] == Returned(Ok(Token(f.access, f.expiry)), None))
  {
  }

  /** The call was begun by the k-th step, with the session's own token, which was usable then. */
  ghost predicate BegunUsable(fields: Fields, steps: seq<Step>, k: nat, c: Call, token: Token) {
    && k < |steps| && steps[k].Begin? && steps[k].call == c
    && var f := Run(Initial(fields), steps[..k]).session.fields;
       token == Token(f.access, f.expiry) && Usable(token.value, token.expiry, steps[k].now)
  }

  lemma BegunUsableStays(fields: Fields, steps: seq<Step>, k: nat, c: Call, token: Token)
    requires steps != [] && BegunUsable(fields, steps[..|steps| - 1], k, c, token)
    ensures BegunUsable(fields, steps, k, c, token)
  {
    assert steps[..|steps| - 1][..k] == steps[..k];
  }

  /**
   In every run, a token handed out without a refresh was the session's when the call began, and then had
   more than 300 s to live or no expiry.
   */
  lemma {:induction false} OwnTokensAreUsable(fields: Fields, steps: seq<Step>, c: Call, token: Token)
    requires c in Run(Initial(fields), steps).calls
    requires Run(Initial(fields), steps).calls[c] == Returned(Ok(token), None)
    ensures exists k: nat :: BegunUsable(fields, steps, k, c, token)
  {
    if steps != [] {
      var last := |steps| - 1;
      var before, step := Run(Initial(fields), steps[..last]), steps[last];
      if c in before.calls && before.calls[c] == Returned(Ok(token), None) {
        OwnTokensAreUsable(fields, steps[..last], c, token);
        var k: nat :| BegunUsable(fields, steps[..last], k, c, token);
        BegunUsableStays(fields, steps, k, c, token);
      } else {
        assert Enabled(before, step) && step.call == c;
        ReturnsAtOnceExactlyWhenUsable(before, c, step.now);
        assert BegunUsable(fields, steps, last, c, token);
      }
    }
  }

  /** Only a refresh that succeeded changes a field of the session. */
  lemma FailureChangesNoField(sys: System, step: Step)
    requires Enabled(sys, step)
    ensures Next(sys, step).session.fields != sys.session.fields ==> step.Finish? && step.outcome.Refreshed?
    ensures step.Finish? && step.outcome.Refreshed? ==> Next(sys, step).session.fields == step.outcome.next
  {
  }
}
