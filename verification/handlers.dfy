/** The HTTP handlers of the Chirpy API as functions.

Each handler takes the request method, the outcome of reading and decoding
the JSON body, the outcome of its database call, and the server state, and
returns the response status and body together with the new state. Reading
the body, decoding JSON, generating ids and reading the clock are done
outside and passed in.
 */
module Handlers {
  import opened Text
  import opened Words
  import opened Profanity
  import opened HitCounter

  /** Any request method other than the two the handlers accept. */
  type OtherName = s: string | s != "GET" && s != "POST" witness "PUT"

  datatype Method = Get | Post | OtherMethod(name: OtherName)

  /** What `io.ReadAll` followed by `json.Unmarshal` produced. */
  datatype Decoded<T> = Parsed(value: T) | InvalidJson | ReadFailed

  /** Whether the database call succeeded. */
  datatype DbResult = DbOk | DbFailed

  /** A generated `uuid.UUID`, passed in. */
  type Uuid = nat

  /** A `time.Now().UTC()` reading, passed in. */
  type Timestamp = int

  datatype User = User(id: Uuid, createdAt: Timestamp, updatedAt: Timestamp, email: Bytes)

  datatype Chirp = Chirp(id: Uuid, createdAt: Timestamp, updatedAt: Timestamp, body: Bytes, userId: Uuid)

  /** The decoded body of a chirp creation request. */
  datatype ChirpRequest = ChirpRequest(body: Bytes, userId: Uuid)

  /** The hit counter and the stored rows. */
  datatype State = State(hits: Int32, users: seq<User>, chirps: seq<Chirp>)

  /** What the handler writes after the status line. */
  datatype Payload =
    | NoPayload
    | ErrorJson(error: string)
    | CleanedJson(body: Bytes)
    | UserJson(user: User)
    | ChirpJson(chirp: Chirp)
    | PlainText(text: string)
    | MetricsPage(visits: Int32)

  datatype Response = Response(status: nat, payload: Payload)

  datatype Reply = Reply(response: Response, state: State)

  const StatusOK: nat := 200
  const StatusCreated: nat := 201
  const StatusBadRequest: nat := 400
  const StatusForbidden: nat := 403
  const StatusMethodNotAllowed: nat := 405
  const StatusInternalServerError: nat := 500

  const ReadFailedMessage := "Failed to read request"
  const InvalidJsonMessage := "Invalid JSON"
  const TooLongMessage := "Chirp is too long"
  const CreateUserFailedMessage := "Failed to create user"
  const CreateChirpFailedMessage := "Failed to create chirp"
  const ResetForbiddenMessage := "Reset endpoint only available in dev mode"
  const DeleteUsersFailedMessage := "Failed to delete users"

  /** The only platform on which the reset endpoint is enabled. */
  const DevPlatform := "dev"

  /** The bare 405 a handler answers a wrong method with. */
  const MethodNotAllowed := Response(StatusMethodNotAllowed, NoPayload)

  /** The response for a body that could not be read or decoded. */
  function DecodeFailure<T>(req: Decoded<T>): (r: Response)
    requires !req.Parsed?
    ensures req.ReadFailed? ==> r == Response(StatusInternalServerError, ErrorJson(ReadFailedMessage))
    ensures req.InvalidJson? ==> r == Response(StatusBadRequest, ErrorJson(InvalidJsonMessage))
  {
    if req.ReadFailed? then Response(StatusInternalServerError, ErrorJson(ReadFailedMessage))
    else Response(StatusBadRequest, ErrorJson(InvalidJsonMessage))
  }

  /** The platform name read from the environment; unset means "prod". */
  function PlatformOf(env: string): (p: string)
    ensures p == DevPlatform <==> env == DevPlatform
    ensures env != "" ==> p == env
    ensures env == "" ==> p == "prod"
  {
    if env == "" then "prod" else env
  }

  /** `GET /api/healthz`. */
  function Healthz(m: Method): (r: Response)
    ensures r.status == StatusOK <==> m == Get
    ensures m != Get ==> r == MethodNotAllowed
  {
    if m != Get then MethodNotAllowed else Response(StatusOK, PlainText("OK"))
  }

  /** `POST` to the validation handler: check the length and answer with the
      cleaned body, storing nothing. */
  function ValidateChirp(m: Method, req: Decoded<Bytes>): (r: Response)
    ensures m != Post ==> r == MethodNotAllowed
    ensures m == Post && !req.Parsed? ==> r == DecodeFailure(req)
    ensures r.status == StatusOK <==> m == Post && req.Parsed? && |req.value| <= MaxChirpLength
    ensures r == Response(StatusBadRequest, ErrorJson(TooLongMessage))
        <==> m == Post && req.Parsed? && |req.value| > MaxChirpLength
    ensures r.status == StatusOK ==>
      && r.payload == CleanedJson(Clean(req.value))
      && |r.payload.body| <= |req.value|
      && |Split(r.payload.body)| == |Split(req.value)|
      && NoProfaneTokens(r.payload.body)
      && (NoProfaneTokens(req.value) ==> r.payload.body == req.value)
  {
    if m != Post then MethodNotAllowed
    else if !req.Parsed? then DecodeFailure(req)
    else
      match Validate(req.value)
      case TooLong => Response(StatusBadRequest, ErrorJson(TooLongMessage))
      case Valid(cleaned) =>
        CleanTokens(req.value);
        Response(StatusOK, CleanedJson(cleaned))
  }

  /** `POST /api/users`: store a user with the given id and time when the
      insert succeeds. */
  function CreateUser(m: Method, req: Decoded<Bytes>, id: Uuid, now: Timestamp, db: DbResult, st: State): (r: Reply)
    ensures m != Post ==> r == Reply(MethodNotAllowed, st)
    ensures m == Post && !req.Parsed? ==> r == Reply(DecodeFailure(req), st)
    ensures r.response.status == StatusCreated <==> m == Post && req.Parsed? && db == DbOk
    ensures r.response.status == StatusCreated ==>
      var u := User(id, now, now, req.value);
      r.state == st.(users := st.users + [u]) && r.response.payload == UserJson(u)
    ensures r.response.status != StatusCreated ==> r.state == st
    ensures m == Post && req.Parsed? && db == DbFailed ==>
      r.response == Response(StatusInternalServerError, ErrorJson(CreateUserFailedMessage))
  {
    if m != Post then Reply(MethodNotAllowed, st)
    else if !req.Parsed? then Reply(DecodeFailure(req), st)
    else if db == DbFailed then
      Reply(Response(StatusInternalServerError, ErrorJson(CreateUserFailedMessage)), st)
    else
      var u := User(id, now, now, req.value);
      assert db == DbOk;
      Reply(Response(StatusCreated, UserJson(u)), st.(users := st.users + [u]))
  }

  /** `POST /api/chirps`: check the length, clean the body, and store the
      cleaned chirp when the insert succeeds. An over-long body is refused
      before the database is asked. */
  function CreateChirp(m: Method, req: Decoded<ChirpRequest>, id: Uuid, now: Timestamp, db: DbResult, st: State): (r: Reply)
    ensures m != Post ==> r == Reply(MethodNotAllowed, st)
    ensures m == Post && !req.Parsed? ==> r == Reply(DecodeFailure(req), st)
    ensures r.response == Response(StatusBadRequest, ErrorJson(TooLongMessage))
        <==> m == Post && req.Parsed? && |req.value.body| > MaxChirpLength
    ensures m == Post && req.Parsed? && |req.value.body| > MaxChirpLength ==>
      r == Reply(Response(StatusBadRequest, ErrorJson(TooLongMessage)), st)
    ensures m == Post && req.Parsed? && |req.value.body| <= MaxChirpLength && db == DbFailed ==>
      r == Reply(Response(StatusInternalServerError, ErrorJson(CreateChirpFailedMessage)), st)
    ensures r.response.status == StatusCreated
        <==> m == Post && req.Parsed? && |req.value.body| <= MaxChirpLength && db == DbOk
    ensures r.response.status == StatusCreated ==>
      && |r.state.chirps| == |st.chirps| + 1
      && r.state == st.(chirps := st.chirps + [r.state.chirps[|st.chirps|]])
      && var c := r.state.chirps[|st.chirps|];
      && r.response.payload == ChirpJson(c)
      && c.id == id && c.createdAt == now && c.updatedAt == now && c.userId == req.value.userId
      && c.body == Clean(req.value.body)
      && |c.body| <= MaxChirpLength
      && |Split(c.body)| == |Split(req.value.body)|
      && NoProfaneTokens(c.body)
      && (NoProfaneTokens(req.value.body) ==> c.body == req.value.body)
    ensures r.response.status != StatusCreated ==> r.state == st
  {
    if m != Post then Reply(MethodNotAllowed, st)
    else if !req.Parsed? then Reply(DecodeFailure(req), st)
    else
      match Validate(req.value.body)
      case TooLong => Reply(Response(StatusBadRequest, ErrorJson(TooLongMessage)), st)
      case Valid(cleaned) =>
        if db == DbFailed then
          Reply(Response(StatusInternalServerError, ErrorJson(CreateChirpFailedMessage)), st)
        else
          assert db == DbOk;
          CleanTokens(req.value.body);
          var c := Chirp(id, now, now, cleaned, req.value.userId);
          Reply(Response(StatusCreated, ChirpJson(c)), st.(chirps := st.chirps + [c]))
  }

  /** `GET /admin/metrics`: report the hit count without changing anything. */
  function Metrics(m: Method, st: State): (r: Reply)
    ensures r.state == st
    ensures m == Get ==> r.response == Response(StatusOK, MetricsPage(st.hits))
    ensures m != Get ==> r.response == MethodNotAllowed
  {
    if m != Get then Reply(MethodNotAllowed, st)
    else Reply(Response(StatusOK, MetricsPage(st.hits)), st)
  }

  /** `POST /admin/reset`: outside the dev platform, refuse and change nothing;
      on it, zero the counter first and then delete every user, so the counter
      is zero even when the deletion fails. */
  function Reset(m: Method, platform: string, db: DbResult, st: State): (r: Reply)
    ensures m != Post ==> r == Reply(MethodNotAllowed, st)
    ensures m == Post && platform != DevPlatform ==>
      r == Reply(Response(StatusForbidden, ErrorJson(ResetForbiddenMessage)), st)
    ensures m == Post && platform == DevPlatform ==>
      && r.state.hits == 0
      && r.state.chirps == st.chirps
      && (db == DbOk ==> r.response == Response(StatusOK, NoPayload) && r.state.users == [])
      && (db == DbFailed ==>
            r.response == Response(StatusInternalServerError, ErrorJson(DeleteUsersFailedMessage))
            && r.state.users == st.users)
  {
    if m != Post then Reply(MethodNotAllowed, st)
    else if platform != DevPlatform then
      Reply(Response(StatusForbidden, ErrorJson(ResetForbiddenMessage)), st)
    else
      var zeroed := st.(hits := 0);
      if db == DbFailed then
        Reply(Response(StatusInternalServerError, ErrorJson(DeleteUsersFailedMessage)), zeroed)
      else
        Reply(Response(StatusOK, NoPayload), zeroed.(users := []))
  }

  /** A request under `/app/`: the counter goes up by one, whatever the file
      server then answers. */
  function App(served: Response, st: State): (r: Reply)
    ensures r.response == served
    ensures r.state.users == st.users && r.state.chirps == st.chirps
    ensures r.state.hits == Wrap(st.hits as int + 1)
    ensures st.hits < MaxInt32 ==> r.state.hits as int == st.hits as int + 1
  {
    Reply(served, st.(hits := Increment(st.hits)))
  }
}
