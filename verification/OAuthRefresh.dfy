/**
 Refreshing through a shared store (llmprovider/oauth_session.go, reloadOrRefresh and
 refreshOAuthSession): which refresh token each request carries when several sessions, in one process
 or many, share one store and the issuer rotates the token (section 6 of RFC 6749; section 4.14 of
 RFC 9700).
 */
module OAuthRefresh {
  import opened Options
  import opened OAuthSessions

  const REFRESH_ATTEMPTS := 3

  // ----- One refresh: up to three attempts with the same token -----

  /** The token endpoint's answer to one request. */
  datatype Response =
    | TransportError
    | HttpStatus(status: int)
    | Malformed
    | Granted(access: string, refresh: string, expiry: Option<int>)

  /** Answers that are worth another attempt. */
  predicate Retryable(r: Response) {
    r.TransportError? || (r.HttpStatus? && (r.status == 429 || r.status >= 500))
  }

  predicate Grants(r: Response) {
    r.Granted? && r.access != ""
  }

  /** The session a granting answer makes: a new refresh token only if the answer has one. */
  function Refreshed(state: Fields, r: Response): Fields
    requires Grants(r)
  {
    state.(access := r.access, refresh := if r.refresh == "" then state.refresh else r.refresh, expiry := r.expiry)
  }

  /** The request never got an answer, was one too many, or met an error of the server's. */
  predicate WorthAnotherTry(r: Response) {
    match r
    case TransportError => true
    case HttpStatus(status) => status == 429 || 500 <= status
    case Malformed => false
    case Granted(_, _, _) => false
  }

  /** The refreshed session has the granted token and its expiry, a token to refresh with, and all else as before. */
  predicate MadeFrom(next: Fields, state: Fields, r: Response) {
    && r.Granted? && next.access == r.access != "" && next.expiry == r.expiry
    && next.refresh == (if r.refresh != "" then r.refresh else state.refresh)
    && next.provider == state.provider && next.issuer == state.issuer && next.clientId == state.clientId
    && next.accountId == state.accountId && next.fedramp == state.fedramp && next.tokenUrl == state.tokenUrl
  }

  /** refreshOAuthSession. `sent` is the token each request carried, in order. */
  method RefreshSession(state: Fields, response: nat -> Response, cancelled: nat -> bool)
    returns (next: Option<Fields>, sent: seq<string>)
    ensures |sent| <= REFRESH_ATTEMPTS && |sent| >= 1
    ensures forall k :: 0 <= k < |sent| ==> sent[k] == state.refresh
    ensures forall k :: 0 <= k < |sent| - 1 ==> WorthAnotherTry(response(k))
    ensures forall k :: 0 < k < |sent| ==> !cancelled(k)
    ensures next.Some? <==> Grants(response(|sent| - 1))
    ensures next.Some? ==> next.value == Refreshed(state, response(|sent| - 1))
    ensures next.Some? ==> MadeFrom(next.value, state, response(|sent| - 1))
    ensures next.None? && WorthAnotherTry(response(|sent| - 1)) ==> |sent| == 3 || cancelled(|sent|)
  {
    sent := [];
    var attempt := 0;
    while attempt < REFRESH_ATTEMPTS
      invariant 0 <= attempt <= REFRESH_ATTEMPTS && |sent| == attempt
      invariant forall k :: 0 <= k < |sent| ==> sent[k] == state.refresh && Retryable(response(k))
      invariant forall k :: 0 < k < |sent| ==> !cancelled(k)
    {
      if attempt > 0 && cancelled(attempt) {
        return None, sent;
      }
      sent := sent + [state.refresh];
      var r := response(attempt);
      if !Retryable(r) {
        return if Grants(r) then Some(Refreshed(state, r)) else None, sent;
      }
      attempt := attempt + 1;
    }
    next := None;
  }

  // ----- Reload before refresh -----

  /** What the store handed out: an error, nothing, or a record. */
  datatype Loaded = LoadFailed | Absent | Record(fields: Fields)

  /** The state a refresh works on: the stored session when it has another refresh token, else the session's own. */
  function ReloadedState(own: Fields, loaded: Loaded): Fields {
    if loaded.Record? && loaded.fields.refresh != "" && loaded.fields.refresh != own.refresh then loaded.fields else own
  }

  /** The stored session is adopted as it is when its own access token is not due. */
  predicate AdoptsStored(own: Fields, loaded: Loaded, now: int) {
    loaded.Record? && loaded.fields.refresh != "" && loaded.fields.refresh != own.refresh
    && CurrentToken(loaded.fields, now).Some?
  }

  /**
   On the stored fields: another refresh token than the session's, and an access token that is usable.
   */
  lemma AdoptsExactlyWhen(own: Fields, loaded: Loaded, now: int)
    ensures AdoptsStored(own, loaded, now)
       <==> && loaded.Record? && loaded.fields.refresh != "" && loaded.fields.refresh != own.refresh
            && Usable(loaded.fields.access, loaded.fields.expiry, now)
  {
  }

  /** A token store shared by sessions; either operation may fail. */
  class TokenStore {
    var record: Option<Fields>

    method Load(works: bool) returns (loaded: Loaded)
      ensures loaded == if !works then LoadFailed else if record.None? then Absent else Record(record.value)
    {
      if !works {
        return LoadFailed;
      }
      loaded := if record.None? then Absent else Record(record.value);
    }

    method Save(works: bool, fields: Fields) returns (ok: bool)
      modifies this
      ensures ok == works
      ensures record == if works then Some(fields) else old(record)
    {
      if works {
        record := Some(fields);
      }
      ok := works;
    }
  }

  /** reloadOrRefresh. The new fields are adopted by the caller only on success. A session need not have a store. */
  method ReloadOrRefresh(own: Fields, store: TokenStore?, now: int, loadWorks: bool, saveWorks: bool,
                         response: nat -> Response, cancelled: nat -> bool)
    returns (next: Option<Fields>, sent: seq<string>)
    modifies store
    ensures next.Some? && sent == [] ==> Usable(next.value.access, next.value.expiry, now)
    ensures next.Some? && sent != [] ==> next.value.access != ""
    ensures store == null ==>
              && |sent| >= 1 && (forall k :: 0 <= k < |sent| ==> sent[k] == own.refresh)
              && next == if Grants(response(|sent| - 1)) then Some(Refreshed(own, response(|sent| - 1))) else None
    ensures store != null ==>
              var loaded := (if !loadWorks then LoadFailed else if old(store.record).None? then Absent
                  else Record(old(store.record).value));
              var state := ReloadedState(own, loaded);
              if AdoptsStored(own, loaded, now) then
                next == Some(loaded.fields) && sent == [] && store.record == old(store.record)
              else
                && |sent| >= 1 && (forall k :: 0 <= k < |sent| ==> sent[k] == state.refresh)
                && (var r := response(|sent| - 1);
                    && (next.Some? <==> Grants(r) && saveWorks)
                    && (next.Some? ==> next.value == Refreshed(state, r))
                    && store.record == if Grants(r) && saveWorks then Some(Refreshed(state, r)) else old(store.record))
  {
    var state := own;
    if store != null {
      var loaded := store.Load(loadWorks);
      if loaded.Record? && loaded.fields.refresh != "" && loaded.fields.refresh != own.refresh {
        var token := CurrentToken(loaded.fields, now);
        if token.Some? {
          return Some(loaded.fields), [];
        }
        state := loaded.fields;
      }
    }
    next, sent := RefreshSession(state, response, cancelled);
    if next.Some? && store != null {
      var saved := store.Save(saveWorks, next.value);
      if !saved {
        next := None;
      }
    }
  }

  // ----- Any run of sessions sharing one store -----

  type SessionId = nat

  /**
   Refreshes do not overlap, so a run is a list of them. The issuer accepts one refresh token at a
   time; a grant to that token may rotate it to one never issued before, which then is the only live one.
   */
  datatype World = World(live: string, issued: set<string>, record: Option<Fields>, sessions: map<SessionId, Fields>)

  /** One refresh by a session: the clock, whether the store works, and the issuer's answer if the token is live. */
  datatype Op = Op(session: SessionId, now: int, loadWorks: bool, saveWorks: bool, grants: bool, access: string,
                   expiry: Option<int>, rotatedTo: Option<string>)

  function LoadedBy(w: World, op: Op): Loaded {
    if !op.loadWorks then LoadFailed else if w.record.None? then Absent else Record(w.record.value)
  }

  predicate Possible(w: World, op: Op) {
    && op.session in w.sessions
    && op.access != ""
    && (op.rotatedTo.Some? ==> op.rotatedTo.value != "" && op.rotatedTo.value !in w.issued)
  }

  /** Whether the refresh sends a request, and the token the request carries. */
  predicate Sends(w: World, op: Op)
    requires Possible(w, op)
  {
    !AdoptsStored(w.sessions[op.session], LoadedBy(w, op), op.now)
  }

  function Carries(w: World, op: Op): string
    requires Possible(w, op)
  {
    ReloadedState(w.sessions[op.session], LoadedBy(w, op)).refresh
  }

  /** The issuer answers the request with a grant. */
  predicate IsGranted(w: World, op: Op)
    requires Possible(w, op)
  {
    Sends(w, op) && op.grants && Carries(w, op) == w.live
  }

  /** The grant rotates the live token. */
  predicate Rotates(w: World, op: Op)
    requires Possible(w, op)
  {
    IsGranted(w, op) && op.rotatedTo.Some?
  }

  function After(w: World, op: Op): World
    requires Possible(w, op)
  {
    var own, loaded := w.sessions[op.session], LoadedBy(w, op);
    if !Sends(w, op) then w.(sessions := w.sessions[op.session := loaded.fields])
    else if !IsGranted(w, op) then w
    else
      var refresh := if op.rotatedTo.Some? then op.rotatedTo.value else "";
      var next := Refreshed(ReloadedState(own, loaded), Granted(op.access, refresh, op.expiry));
      var rotated := if op.rotatedTo.Some? then w.(live := refresh, issued := w.issued + {refresh}) else w;
      if op.saveWorks then rotated.(record := Some(next), sessions := w.sessions[op.session := next]) else rotated
  }

  /** Every refresh of the run is possible where it happens. */
  ghost predicate IsRun(w: World, ops: seq<Op>)
    decreases |ops|
  {
    ops == [] || (Possible(w, ops[0]) && IsRun(After(w, ops[0]), ops[1..]))
  }

  /** No request of the run carries a token that has been rotated away. */
  ghost predicate AllLive(w: World, ops: seq<Op>)
    requires IsRun(w, ops)
    decreases |ops|
  {
    ops == [] || ((Sends(w, ops[0]) ==> Carries(w, ops[0]) == w.live) && AllLive(After(w, ops[0]), ops[1..]))
  }

  ghost predicate LoadsWork(ops: seq<Op>) {
    forall k :: 0 <= k < |ops| ==> ops[k].loadWorks
  }

  /**
   The store holds the live token, which has been issued; every token a session or the store holds has been
   issued.
   */
  ghost predicate InStep(w: World) {
    && w.record.Some? && w.record.value.refresh == w.live
    && Issued(w)
  }

  ghost predicate Issued(w: World) {
    && w.live in w.issued && w.live != ""
    && (w.record.Some? ==> w.record.value.refresh in w.issued && w.record.value.refresh != "")
  }

  /** When the load works, a request carries exactly the stored token, whatever the session itself holds. */
  lemma RequestsCarryTheStoredToken(w: World, op: Op)
    requires Possible(w, op) && op.loadWorks && w.record.Some? && w.record.value.refresh != ""
    ensures Sends(w, op) ==> Carries(w, op) == w.record.value.refresh
  {
  }

  /** Once the store has fallen behind the issuer it stays behind: no request can be granted any more. */
  ghost predicate Behind(w: World) {
    Issued(w) && w.record.Some? && w.record.value.refresh != w.live
  }

  lemma StepKeepsStep(w: World, op: Op)
    requires Possible(w, op) && op.loadWorks
    ensures InStep(w) && !(Rotates(w, op) && !op.saveWorks) ==> InStep(After(w, op))
    ensures InStep(w) && Rotates(w, op) && !op.saveWorks ==> Behind(After(w, op))
    ensures Behind(w) ==> Behind(After(w, op)) && !Rotates(w, op)
  {
  }

  /** A rotation whose save failed, followed by any request. */
  ghost predicate LostRotation(w: World, ops: seq<Op>)
    requires IsRun(w, ops)
    decreases |ops|
  {
    ops != [] &&
    ((Rotates(w, ops[0]) && !ops[0].saveWorks && SomeRequest(After(w, ops[0]), ops[1..]))
     || LostRotation(After(w, ops[0]), ops[1..]))
  }

  ghost predicate SomeRequest(w: World, ops: seq<Op>)
    requires IsRun(w, ops)
    decreases |ops|
  {
    ops != [] && (Sends(w, ops[0]) || SomeRequest(After(w, ops[0]), ops[1..]))
  }

  /**
   When loads work and the store starts with the live token, no request ever carries a rotated-away
   token exactly when no rotation whose save failed is followed by another request.
   */
  lemma {:induction false} AllLiveExactlyWhenNoRotationIsLost(w: World, ops: seq<Op>)
    requires IsRun(w, ops) && LoadsWork(ops) && InStep(w)
    ensures AllLive(w, ops) <==> !LostRotation(w, ops)
    decreases |ops|
  {
    if ops != [] {
      var op, next, rest := ops[0], After(w, ops[0]), ops[1..];
      assert op.loadWorks;
      assert LoadsWork(rest) by {
        forall k | 0 <= k < |rest| ensures rest[k].loadWorks {
          assert rest[k] == ops[k + 1];
        }
      }
      RequestsCarryTheStoredToken(w, op);
      StepKeepsStep(w, op);
      if Rotates(w, op) && !op.saveWorks {
        BehindRequestsAreDead(next, rest);
      } else {
        AllLiveExactlyWhenNoRotationIsLost(next, rest);
      }
    }
  }

  /** Behind the issuer, every request is dead and nothing rotates. */
  lemma {:induction false} BehindRequestsAreDead(w: World, ops: seq<Op>)
    requires IsRun(w, ops) && LoadsWork(ops) && Behind(w)
    ensures AllLive(w, ops) <==> !SomeRequest(w, ops)
    ensures !LostRotation(w, ops)
    decreases |ops|
  {
    if ops != [] {
      var rest := ops[1..];
      assert ops[0].loadWorks;
      assert LoadsWork(rest) by {
        forall k | 0 <= k < |rest| ensures rest[k].loadWorks {
          assert rest[k] == ops[k + 1];
        }
      }
      RequestsCarryTheStoredToken(w, ops[0]);
      StepKeepsStep(w, ops[0]);
      BehindRequestsAreDead(After(w, ops[0]), rest);
    }
  }

  /** In particular: when loads and saves work, no request ever carries a rotated-away token. */
  lemma {:induction false} NoDeadTokenIsSent(w: World, ops: seq<Op>)
    requires IsRun(w, ops) && LoadsWork(ops) && InStep(w)
    requires forall k :: 0 <= k < |ops| ==> ops[k].saveWorks
    ensures AllLive(w, ops)
  {
    SavedRotationsAreNotLost(w, ops);
    AllLiveExactlyWhenNoRotationIsLost(w, ops);
  }

  lemma {:induction false} SavedRotationsAreNotLost(w: World, ops: seq<Op>)
    requires IsRun(w, ops) && forall k :: 0 <= k < |ops| ==> ops[k].saveWorks
    ensures !LostRotation(w, ops)
    decreases |ops|
  {
    if ops != [] {
      var rest := ops[1..];
      forall k | 0 <= k < |rest| ensures rest[k].saveWorks {
        assert rest[k] == ops[k + 1];
      }
      SavedRotationsAreNotLost(After(w, ops[0]), rest);
    }
  }

  // ----- Runs in which loads fail too -----

  /**
   The sessions that are up to date: those that refreshed, or took over the stored session, since the
   last rotation. A rotation leaves only the session that made it, and none when its save failed.
   */
  function CaughtUp(w: World, upToDate: set<SessionId>, op: Op): set<SessionId>
    requires Possible(w, op)
  {
    if !Sends(w, op) then upToDate + {op.session}
    else if !IsGranted(w, op) then upToDate
    else if Rotates(w, op) then if op.saveWorks then {op.session} else {}
    else if op.saveWorks then upToDate + {op.session}
    else upToDate
  }

  /** A refresh whose load fails, by a session that is not up to date. */
  ghost predicate StaleFallback(w: World, upToDate: set<SessionId>, ops: seq<Op>)
    requires IsRun(w, ops)
    decreases |ops|
  {
    ops != [] &&
    ((!ops[0].loadWorks && ops[0].session !in upToDate)
     || StaleFallback(After(w, ops[0]), CaughtUp(w, upToDate, ops[0]), ops[1..]))
  }

  /**
   The store is in step, exactly the sessions that are up to date hold the live token, and no session holds one
   never issued.
   */
  ghost predicate Tracks(w: World, upToDate: set<SessionId>) {
    && InStep(w)
    && forall p :: p in w.sessions ==>
         && (p in upToDate <==> w.sessions[p].refresh == w.live)
         && (w.sessions[p].refresh == "" || w.sessions[p].refresh in w.issued)
  }

  /** Nobody holds the live token any more, and nobody will. */
  ghost predicate Lost(w: World) {
    && Behind(w)
    && forall p :: p in w.sessions ==> w.sessions[p].refresh != w.live
  }

  lemma StepKeepsTrack(w: World, upToDate: set<SessionId>, op: Op)
    requires Possible(w, op) && Tracks(w, upToDate)
    ensures Rotates(w, op) && !op.saveWorks ==> Lost(After(w, op))
    ensures !(Rotates(w, op) && !op.saveWorks) ==> Tracks(After(w, op), CaughtUp(w, upToDate, op))
    ensures Sends(w, op) && Carries(w, op) != w.live <==> !op.loadWorks && op.session !in upToDate
  {
  }

  lemma LostStaysLost(w: World, op: Op)
    requires Possible(w, op) && Lost(w)
    ensures Lost(After(w, op)) && !Rotates(w, op) && Carries(w, op) != w.live
  {
  }

  lemma {:induction false} LostRequestsAreDead(w: World, upToDate: set<SessionId>, ops: seq<Op>)
    requires IsRun(w, ops) && Lost(w)
    ensures AllLive(w, ops) <==> !SomeRequest(w, ops)
    ensures !LostRotation(w, ops)
    ensures StaleFallback(w, upToDate, ops) ==> SomeRequest(w, ops)
    decreases |ops|
  {
    if ops != [] {
      LostStaysLost(w, ops[0]);
      LostRequestsAreDead(After(w, ops[0]), CaughtUp(w, upToDate, ops[0]), ops[1..]);
    }
  }

  /**
   Over any run, loads and saves failing as they may, no request carries a rotated-away token exactly
   when no rotation whose save failed is followed by a request, and no session that has neither
   refreshed nor reloaded since the last rotation has to refresh without the store.
   */
  lemma {:induction false} AllLiveExactlyWhen(w: World, upToDate: set<SessionId>, ops: seq<Op>)
    requires IsRun(w, ops) && Tracks(w, upToDate)
    ensures AllLive(w, ops) <==> !LostRotation(w, ops) && !StaleFallback(w, upToDate, ops)
    decreases |ops|
  {
    if ops != [] {
      var op, next, rest := ops[0], After(w, ops[0]), ops[1..];
      StepKeepsTrack(w, upToDate, op);
      if Rotates(w, op) && !op.saveWorks {
        LostRequestsAreDead(next, CaughtUp(w, upToDate, op), rest);
      } else {
        AllLiveExactlyWhen(next, CaughtUp(w, upToDate, op), rest);
      }
    }
  }

  /** A grant that is saved: session and store hold the granted access token and the token that is live from then on. */
  lemma GrantIsAdopted(w: World, op: Op)
    requires Possible(w, op) && IsGranted(w, op) && op.saveWorks
    ensures var next := After(w, op);
            && next.record == Some(next.sessions[op.session])
            && next.sessions[op.session].access == op.access && next.sessions[op.session].expiry == op.expiry
            && next.live == (if op.rotatedTo.Some? then op.rotatedTo.value else w.live)
            && (next.live != "" ==> next.sessions[op.session].refresh == next.live)
            && forall p :: p in w.sessions && p != op.session ==> next.sessions[p] == w.sessions[p]
  {
  }

  /** A load that fails is enough to send a dead token: the session then falls back on its own. */
  lemma FailedLoadMaySendADeadToken(w: World, op: Op)
    requires Possible(w, op) && !op.loadWorks && w.sessions[op.session].refresh != w.live
    ensures Sends(w, op) && Carries(w, op) != w.live
  {
  }
}
