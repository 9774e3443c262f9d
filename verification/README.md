# Chirpy in Dafny

A model of the request-handling core of Chirpy, a small Go web API for short
posts ("chirps"). The heart of it is the chirp validator: a body longer than
140 bytes is refused, and an accepted body is split on single spaces. Each
token whose lower-cased form is exactly "kerfuffle", "sharbert" or "fornax"
becomes `****`. The tokens are then joined back with single spaces. Around
the validator sit the HTTP handlers and their effect on the server state: the
file-server hit counter, the stored users and the stored chirps.

Layout, one module per concern:

- `text.dfy`, module `Text`: Go strings as byte sequences (`len` is `|s|`), and ASCII lower-casing.
- `words.dfy`, module `Words`: `strings.Index`, `strings.Split` and `strings.Join` on `" "`, with their round-trip lemmas.
- `profanity.dfy`, module `Profanity`: the denylist, the mask, the 140-byte limit, cleaning and its properties, and the handler's nested cleaning loop as a method.
- `hit_counter.dfy`, module `HitCounter`: the `atomic.Int32` counter as a 32-bit two's-complement integer.
- `handlers.dfy`, module `Handlers`: each handler as a function. It maps (method, decoded body, id, time, database outcome, state) to (status, payload, new state).
- `server.dfy`, module `Server`: the routed handlers as a state machine over request sequences, with trace invariants.

The length limit counts bytes (`len` of a Go string), not characters. The
routes live under `/api/` (`/api/healthz`, `/api/users`, `/api/chirps`) and
`/admin/` (`/admin/metrics`, `/admin/reset`). `validateChirpHandler` is never
registered with the router in `main`. It is modelled as
`Handlers.ValidateChirp` but is not part of `Server.Step`.

## Model

| member | source | states |
|---|---|---|
| Text.LowerByte | main.go:242 | an ASCII capital becomes the matching small letter, no result byte is a capital, and every other byte is kept |
| Text.ToLower | main.go:242 | lower-casing keeps the length and lower-cases every byte on its own |
| Text.ToLowerAppend | main.go:242 | lower-casing a concatenation lower-cases each part |
| Text.ToLowerIdempotent | main.go:242 | lower-casing twice is the same as lower-casing once |
| Words.Index | main.go:240 | the position of the first space, or -1 exactly when there is none |
| Words.Split | main.go:240 | splitting on a space always yields at least one token, and no token contains a space |
| Words.Join | main.go:250 | joining no tokens gives the empty string; otherwise the result holds every token byte plus one space per gap |
| Words.JoinSplit | main.go:240-250 | joining the split tokens with single spaces gives back the original body exactly, including empty tokens from leading, trailing or repeated spaces |
| Words.SplitJoin | main.go:240-250 | splitting a join of a non-empty list of space-free tokens gives back the same tokens (the empty list joins to the empty string, which splits into one empty token) |
| Words.SplitCount | main.go:240 | the number of tokens is one more than the number of spaces |
| Words.JoinShrinks | main.go:250 | joining tokens that are each no longer gives a body no longer, and strictly shorter if one token is strictly shorter |
| Profanity.ProfaneIgnoresCase | main.go:242-245 | whether a token is denylisted does not depend on its case |
| Profanity.CleanWord | main.go:242-248 | a token is either kept or replaced by `****`; it is replaced iff its lower-cased form is a denylisted word; the result is never longer and never itself denylisted |
| Profanity.CleanAll | main.go:241-249 | the loop keeps the number of tokens, cleans each token on its own, and introduces no space |
| Profanity.Clean | main.go:240-250 | the cleaned body splits back into exactly the cleaned tokens of the input, and is never longer than the input |
| Profanity.NoProfaneWordInsideAnother | main.go:67-71 | no denylisted word occurs inside a longer denylisted word |
| Profanity.OnlyExactMatches | main.go:143-147 | a denylisted word with anything attached before it, after it or on both sides (a longer word, punctuation) is not masked |
| Profanity.CleanTokens | main.go:240-250 | the cleaned body has the same number of tokens as the input, and each of its tokens is the input token unchanged or `****` |
| Profanity.MaskedIffProfane | main.go:241-249 | token `i` changes iff it is denylisted, and then it becomes `****` |
| Profanity.CleanIdentity | main.go:240-250 | cleaning returns the body exactly, case and spacing included, iff no token is denylisted |
| Profanity.CleanRemovesProfanity | main.go:241-249 | no token of a cleaned body is denylisted |
| Profanity.CleanIdempotent | main.go:245 | cleaning a cleaned body changes nothing, because `****` is not denylisted |
| Profanity.CleanAllShorter | main.go:245-250 | masking one denylisted token makes the joined body strictly shorter, since every denylisted word is longer than `****` |
| Profanity.CleanShorterWhenMasked | main.go:240-250 | a body with a denylisted token comes back strictly shorter |
| Profanity.CleanShrinks | main.go:240-250 | cleaning never lengthens a body, and shortens it iff some token was masked |
| Profanity.Validate | main.go:232-250 | a body is refused iff it is over 140 bytes; an accepted body is answered by its cleaning, which is within the limit, no longer than the input, free of denylisted tokens, already clean, and the body itself when nothing matched |
| Profanity.CleanTokensLoop | main.go:241-249 | the nested loop, which compares each lower-cased token with each denylisted word and breaks on the first match, computes the token-wise cleaning |
| HitCounter.Increment | main.go:76 | one hit adds one to the counter, wrapping at the 32-bit limit as two's-complement addition does |
| HitCounter.IncrementBy | main.go:76 | `n` hits add exactly `n` while the sum fits in 32 bits |
| HitCounter.IncrementByShift | main.go:76 | one hit followed by `n` hits is `n + 1` hits |
| HitCounter.IncrementByAdds | main.go:76 | `n` hits add `n` modulo 2^32, and exactly `n` while the sum fits |
| Handlers.DecodeFailure | main.go:216-230 | an unreadable body gives 500 "Failed to read request" and malformed JSON gives 400 "Invalid JSON" |
| Handlers.PlatformOf | main.go:319-322 | an unset platform reads as "prod", any other value is kept, and only an explicit "dev" enables reset |
| Handlers.Healthz | main.go:99-107 | GET answers 200, any other method 405 |
| Handlers.ValidateChirp | main.go:110-159 | wrong method gives 405; an unreadable or malformed body gives the decode-failure answer; "Chirp is too long" is answered iff a decoded body exceeds 140 bytes; 200 iff a decoded body is within the limit, and then the answer is the cleaned body: no longer, with as many tokens, free of denylisted words and unchanged if none matched |
| Handlers.CreateUser | main.go:162-207 | wrong method gives 405; an unreadable or malformed body gives the decode-failure answer; a failed insert gives 500; 201 iff the method is POST, the body decoded and the insert succeeded, and then exactly the new user is appended; in every other case nothing changes |
| Handlers.CreateChirp | main.go:210-277 | wrong method gives 405; an unreadable or malformed body gives the decode-failure answer; an over-long body gets 400 "Chirp is too long" whatever the database would have answered; a failed insert of a body within the limit gives 500; 201 iff POST, decoded, within the limit and the insert succeeded, and then exactly one chirp is appended with the given id, time and user and the cleaned body; otherwise nothing changes |
| Handlers.Metrics | main.go:82-96 | GET reports the current hit count, any other method gives 405, and the state never changes |
| Handlers.Reset | main.go:280-305 | wrong method gives 405 and off the dev platform 403, both changing nothing; on dev the counter is zero afterwards even when deleting users fails with 500, and users are cleared only on success |
| Handlers.App | main.go:74-79 | a request under `/app/` adds exactly one hit (wrapping at 32 bits), keeps the file server's answer and touches nothing else |
| Server.Step | main.go:341-355 | a routed request never removes or rewrites a stored chirp (the reset handler is taken to leave chirps alone, since a users-to-chirps cascade in the database is not modelled), and only chirp creation changes the chirps; only user creation and a dev reset change the users, and off the dev platform users are never removed |
| Server.Run | main.go:341-355 | after any sequence of requests the stored chirps start with the initial ones (no database cascade from deleted users to their chirps is modelled), and off the dev platform so do the stored users |
| Server.WrongMethodChangesNothing | main.go:83-86 | every routed handler except the file server answers a wrong method with a bare 405 and no state change; the same guard sits at main.go:100-103, 163-166, 211-214 and 281-284 |
| Server.StepKeepsChirpsValid | main.go:232-260 | each request keeps every stored chirp within 140 bytes and free of denylisted tokens |
| Server.RunKeepsChirpsValid | main.go:232-260 | after any sequence of requests every stored chirp is within 140 bytes and free of denylisted tokens |
| Server.StepCountsHits | main.go:76 | apart from a dev reset, only a request under `/app/` moves the counter, by one hit |
| Server.RunIncrementsHits | main.go:76 | without a dev reset, the counter takes one hit per `/app/` request |
| Server.RunCountsHits | main.go:76 | without a dev reset, the final count is the initial count plus the number of `/app/` requests, modulo 2^32 |
| Server.HitsFromZero | main.go:76 | from zero, the count equals the number of `/app/` requests while that number fits in 32 bits |
| Server.MetricsAfterResetShowsZero | main.go:293-294 | after a dev reset the metrics page shows zero visits, whether or not the deletion failed |
| Server.MetricsAfterRefusedReset | main.go:287-291 | a refused reset leaves the metrics page as it was |
| Server.MetricsAfterAppShowsOneMore | main.go:95 | below the 32-bit maximum, the metrics page after an `/app/` request shows one visit more |

## Left out

- HTTP plumbing is not modelled: `ResponseWriter`, headers and Content-Type, the `ServeMux` route table, `FileServer` and `StripPrefix`. The file server's own answer is an input to `Handlers.App`.
- JSON encoding and decoding and `io.ReadAll` are not modelled. Their outcome is the input `Decoded` (parsed, invalid JSON, read failure). The metrics page carries the count rather than the formatted HTML.
- The generated database layer and the Postgres driver are not modelled. Each call's success or failure is an input. A successful insert is taken to store exactly the row the handler sent. A failed `DeleteAllUsers` is taken to delete nothing.
- Database constraints are not modelled, such as the unique email or a cascade from users to chirps. The schema is not part of this model, so `Handlers.Reset` leaves stored chirps alone.
- `uuid.New()` and `time.Now()` are parameters. Rendering ids with `String()` is not modelled.
- Concurrency is left out: requests are served one at a time, and the atomic counter is a plain 32-bit integer.
- Start-up is left out: loading `.env`, reading `DB_URL`, opening the database, and panics. Only the "prod" default for the platform is kept, as `Handlers.PlatformOf`.
- Text.ToLower: lower-cases ASCII letters only. Go's `strings.ToLower` also maps non-ASCII letters, for example the Kelvin sign U+212A to `k`. A token spelled with the Kelvin sign in place of the `k` of "kerfuffle" is masked by the source but not by the model.
