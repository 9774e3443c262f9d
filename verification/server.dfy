/** The routed server as a state machine over a sequence of requests.

Each request reaches the handler its path is routed to, and requests are
taken one at a time. The validation-only handler is not routed and so does
not appear here.
 */
module Server {
  import opened Text
  import opened Profanity
  import opened HitCounter
  import opened Handlers

  /** One request, with everything decided outside the handler filled in. */
  datatype Request =
    | HealthzRequest(verb: Method)
    | CreateUserRequest(verb: Method, user: Decoded<Bytes>, id: Uuid, now: Timestamp, db: DbResult)
    | CreateChirpRequest(verb: Method, chirp: Decoded<ChirpRequest>, id: Uuid, now: Timestamp, db: DbResult)
    | MetricsRequest(verb: Method)
    | ResetRequest(verb: Method, db: DbResult)
    | AppRequest(served: Response)

  /** The method each routed handler accepts; `/app/` accepts any. */
  function AcceptedMethod(req: Request): Method
    requires !req.AppRequest?
  {
    if req.HealthzRequest? || req.MetricsRequest? then Get else Post
  }

  /** Serve one request. Only chirp creation adds chirps, and none is ever
      removed; only user creation and a dev reset touch the users; only an
      `/app/` request and a dev reset touch the counter. */
  function Step(platform: string, st: State, req: Request): (r: Reply)
    ensures st.chirps <= r.state.chirps
    ensures !req.CreateChirpRequest? ==> r.state.chirps == st.chirps
    ensures !req.CreateUserRequest? && !ZeroesCounter(platform, req) ==> r.state.users == st.users
    ensures platform != DevPlatform ==> st.users <= r.state.users
  {
    match req
    case HealthzRequest(m) => Reply(Healthz(m), st)
    case CreateUserRequest(m, user, id, now, db) => CreateUser(m, user, id, now, db, st)
    case CreateChirpRequest(m, chirp, id, now, db) => CreateChirp(m, chirp, id, now, db, st)
    case MetricsRequest(m) => Metrics(m, st)
    case ResetRequest(m, db) => Reset(m, platform, db, st)
    case AppRequest(served) => App(served, st)
  }

  /** Serve the requests in order; the state after the last one. Stored
      chirps are never removed or rewritten, and off the dev platform neither
      are stored users. */
  function Run(platform: string, st: State, reqs: seq<Request>): (r: State)
    ensures st.chirps <= r.chirps
    ensures platform != DevPlatform ==> st.users <= r.users
    decreases |reqs|
  {
    if |reqs| == 0 then st else Run(platform, Step(platform, st, reqs[0]).state, reqs[1..])
  }

  /** A request that sets the counter back to zero. */
  predicate ZeroesCounter(platform: string, req: Request) {
    req.ResetRequest? && req.verb == Post && platform == DevPlatform
  }

  /** Number of requests under `/app/`. */
  function AppCount(reqs: seq<Request>): nat {
    if |reqs| == 0 then 0 else (if reqs[0].AppRequest? then 1 else 0) + AppCount(reqs[1..])
  }

  /** Every stored chirp is within the length limit and has no profane token. */
  predicate StoredChirpsValid(st: State) {
    forall i :: 0 <= i < |st.chirps| ==>
      |st.chirps[i].body| <= MaxChirpLength && NoProfaneTokens(st.chirps[i].body)
  }

  /** A routed handler called with the wrong method answers 405 and changes
      nothing. */
  lemma WrongMethodChangesNothing(platform: string, st: State, req: Request)
    requires !req.AppRequest?
    requires req.verb != AcceptedMethod(req)
    ensures Step(platform, st, req) == Reply(MethodNotAllowed, st)
  {
  }

  /** Every step keeps the stored chirps valid. */
  lemma StepKeepsChirpsValid(platform: string, st: State, req: Request)
    requires StoredChirpsValid(st)
    ensures StoredChirpsValid(Step(platform, st, req).state)
  {
    if req.CreateChirpRequest? {
      var r := Step(platform, st, req);
      if r.response.status == StatusCreated {
        forall i | 0 <= i < |r.state.chirps|
          ensures |r.state.chirps[i].body| <= MaxChirpLength && NoProfaneTokens(r.state.chirps[i].body)
        {
          if i < |st.chirps| {
            assert r.state.chirps[i] == st.chirps[i];
          }
        }
      }
    }
  }

  /** Whatever the requests, no stored chirp is ever over the limit or
      profane. */
  lemma {:induction false} RunKeepsChirpsValid(platform: string, st: State, reqs: seq<Request>)
    requires StoredChirpsValid(st)
    ensures StoredChirpsValid(Run(platform, st, reqs))
    decreases |reqs|
  {
    if |reqs| > 0 {
      StepKeepsChirpsValid(platform, st, reqs[0]);
      RunKeepsChirpsValid(platform, Step(platform, st, reqs[0]).state, reqs[1..]);
    }
  }

  /** One step adds one hit for an `/app/` request and none for anything
      else, unless it is a reset on the dev platform. */
  lemma StepCountsHits(platform: string, st: State, req: Request)
    requires !ZeroesCounter(platform, req)
    ensures Step(platform, st, req).state.hits == if req.AppRequest? then Increment(st.hits) else st.hits
  {
  }

  /** Without a dev reset, the counter takes one increment per `/app/`
      request. */
  lemma {:induction false} RunIncrementsHits(platform: string, st: State, reqs: seq<Request>)
    requires forall i :: 0 <= i < |reqs| ==> !ZeroesCounter(platform, reqs[i])
    ensures Run(platform, st, reqs).hits == IncrementBy(st.hits, AppCount(reqs))
    decreases |reqs|
  {
    if |reqs| > 0 {
      var next := Step(platform, st, reqs[0]).state;
      var rest := reqs[1..];
      StepCountsHits(platform, st, reqs[0]);
      assert forall i :: 0 <= i < |rest| ==> rest[i] == reqs[i + 1];
      RunIncrementsHits(platform, next, rest);
      if reqs[0].AppRequest? {
        IncrementByShift(st.hits, AppCount(rest));
      }
    }
  }

  /** Without a dev reset, the counter ends at its start plus the number of
      `/app/` requests, wrapped to 32 bits. */
  lemma {:induction false} RunCountsHits(platform: string, st: State, reqs: seq<Request>)
    requires forall i :: 0 <= i < |reqs| ==> !ZeroesCounter(platform, reqs[i])
    ensures Run(platform, st, reqs).hits == Wrap(st.hits as int + AppCount(reqs))
  {
    RunIncrementsHits(platform, st, reqs);
    IncrementByAdds(st.hits, AppCount(reqs));
  }

  /** From a fresh counter, `n` requests under `/app/` (and no dev reset)
      leave exactly `n` on the counter while `n` fits in 32 bits. */
  lemma {:induction false} HitsFromZero(platform: string, st: State, reqs: seq<Request>)
    requires st.hits == 0
    requires forall i :: 0 <= i < |reqs| ==> !ZeroesCounter(platform, reqs[i])
    requires AppCount(reqs) <= MaxInt32 as int
    ensures Run(platform, st, reqs).hits as int == AppCount(reqs)
  {
    RunIncrementsHits(platform, st, reqs);
  }

  /** On the dev platform a reset is followed by a metrics page showing zero
      visits, whether or not the users could be deleted. */
  lemma MetricsAfterResetShowsZero(db: DbResult, st: State)
    ensures Metrics(Get, Reset(Post, DevPlatform, db, st).state).response
         == Response(StatusOK, MetricsPage(0))
  {
  }

  /** Off the dev platform a reset leaves the metrics page as it was. */
  lemma MetricsAfterRefusedReset(platform: string, db: DbResult, st: State)
    requires platform != DevPlatform
    ensures Metrics(Get, Reset(Post, platform, db, st).state) == Metrics(Get, st)
  {
  }

  /** A metrics page served after an `/app/` request shows one visit more. */
  lemma MetricsAfterAppShowsOneMore(served: Response, st: State)
    requires st.hits < MaxInt32
    ensures Metrics(Get, App(served, st).state).response.payload.visits as int == st.hits as int + 1
  {
  }
}
