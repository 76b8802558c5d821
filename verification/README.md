# EchoProxy, modelled in Dafny

EchoProxy moves HTTP events from SDKs and a capturing proxy, through redaction and rate limiting, into Kafka
and from there into ClickHouse. This project models the stateful pieces on that way and proves what they
promise. `dafny verify dfyconfig.toml` checks it.

| file | component |
|---|---|
| `Common.dfy` | what several components share |
| `Luhn.dfy` | the Luhn check: the Go, Python and PHP loops against one definition |
| `PatternScrub.dfy` | the pattern pass of the redactor, with a greedy backtracking matcher for the token patterns |
| `PatternLaws.dfy` | what that matcher finds and what a pass leaves: leftmost, greedy, and nothing but the matches replaced |
| `TokenLanguages.dfy` | the languages of the eight token patterns, spelled out |
| `Redact.dfy` | rule sets, header masking, in-place JSON masking, bodies |
| `KeyCache.dfy` | API-key validation, the cache, and the refresher that races with it |
| `RateLimit.dfy` | the Redis fixed-window limiter under two clocks |
| `StreamCopy.dfy` | the capped writer and the two copy loops of the proxy |
| `CapturedBody.dfy` | decoding and placeholders; the event against the reuse of pooled buffers |
| `PooledBuffers.dfy` | the buffer pool shared by requests, and transports that write late |
| `IdleWatchdog.dfy` | the idle timeout of streamed responses |
| `LogConsumer.dfy` | the batcher, the poll and ticker goroutines, offset commits |
| `GoSdk.dfy` | the Go SDK's channel, flush loop, shutdown; splitting and joining |
| `RingClient.dfy` | the Python and TypeScript ring-buffer clients |
| `Ingest.dfy` | partial success of an ingested batch |

Code that updates objects is a class or a loop proved against a specification function; the properties are
lemmas about that function. Where threads or goroutines interleave, the code is cut into its atomic steps, and a
run is a sequence of states and steps. Clocks, random ids, answers of the network and the outcome of inserts,
sends and writes are parameters of a step, so every result holds for all of them.

## What turned out

These follow the code where a document, a comment or a natural reading says otherwise. Each has a lemma.

- `docs/architecture.md:60` says that offsets stay uncommitted while ClickHouse is down. The ticker commits every
  polled offset whatever `MaybeFlush` returned (`consumer.go:66-68`): `CommitRunsAhead` is a run in which a row is
  committed and only in memory, and `CommitCoversExactlyWhenIdle` says exactly when a commit covers only inserted
  rows. Records that a poll returns during shutdown are committed and never handled (`ShutdownSkipsPolledRecords`);
  `ShutdownIsCompleteIff` says exactly when a shutdown loses nothing, whether or not its final flush succeeds.
- `docs/architecture.md:63` gives a revoked key a window of at most one refresh interval. A lookup that read the
  row before the revoke and sets the cache after the refresh reopens it: `StaleCallUndoesTheRefresh`.
  `RevocationHoldsIff` says exactly when the window closes: a refresh listed since the revoke closes it if and only if
  no call still holds the old row. A key whose row is deleted is never taken out of the cache by a refresh; it stays
  exactly until it is evicted: `DeletedKeyStaysCached`.
- `pkg/ratelimit/limiter.go:6` says that replicas never race past the limit by more than one. The script is
  atomic, so with every call answered a window admits the limit exactly, if and only if the server's clock gains at
  most 101 ms on the client's inside a window: `ExactIff`. Beyond that the counter can expire in its own window, and
  `GrantsAtMostIff` gives the tight bound for every drift: at 102 ms it is already twice the limit.
- The Python redactor's card check accepts numbers in the digits of other scripts, which the Go and PHP checks
  refuse (`sdk-python/echoproxy/redact.py:112`): `PythonDiffersIff`.
- The documentation for SDK authors asks for a full buffer to drop its oldest event. The Go SDK refuses the newest
  (`sdk.go:229-233`): `FullChannelRefusesTheNewest` is such a run for every buffer size, and `DropsOldestIff` says
  exactly when a capture does what is asked.
- A request's buffers go back to the pool when its handler ends (`proxy_request.go:79-84`), although the transport may
  still read the request body into one of them (`proxy_request.go:92`). `PutMixesIffStillReading` says exactly when
  another request's event can come to hold those bytes.
- In the Python client a batch size within the buffer size does not rule out evictions: `EvictionReachableIff`
  gives the exact number of capturing threads from which they can occur.
- A swap of two adjacent digits goes unnoticed by the Luhn check exactly for 0 and 9.

## Model

| member | source | states |
|---|---|---|
| `Luhn.GoLuhn` | pkg/redact/redact.go:228-251 | The one-pass loop that skips separators as it meets them decides Luhn validity (13 to 19 digits, nothing else but separators, sum a multiple of ten) as defined left to right on the stripped string |
| `Luhn.PythonLuhn` | sdk-python/echoproxy/redact.py:109-122 | On every string, by index parity in the reversed string: whether the number the digits denote, in any script, passes the check, or that the routine raises |
| `Luhn.PhpLuhn` | sdk-laravel/src/Redact/Redactor.php:148-172 | The PHP port, by a toggle over the stripped string, decides the same predicate |
| `Luhn.ChecksumByPairs` | pkg/redact/redact.go:239-250 | From the right, every second digit counts with the digits of its double, the others as they are |
| `Luhn.ValidIsANumber` | pkg/redact/redact.go:233-250 | A valid number has 13 to 19 digits and nothing else but separators |
| `Luhn.PortsAgree` | pkg/redact/redact.go:225-251 | Go and PHP give one verdict on every string, and Python the same on every ASCII string |
| `Luhn.PythonDiffersIff` | sdk-python/echoproxy/redact.py:112-122 | The Python port differs from the other two if and only if the string is not ASCII, its stripped form has 13 to 19 characters that are all digits to `isdigit`, and one of them has no value or the number they denote passes the check |
| `Luhn.PythonAcceptsOtherScripts` | sdk-python/echoproxy/redact.py:112-116 | Numbers of Arabic-Indic zeros of every accepted length are valid to the Python port alone |
| `Luhn.SeparatorsDoNotMatter` | pkg/redact/redact.go:233-235 | A space or hyphen put anywhere never changes the verdict, and neither does removing all of them |
| `Luhn.CheckDigitExistsAndIsUnique` | pkg/redact/redact.go:239-250 | Every digit prefix of an accepted length has exactly one valid check digit |
| `Luhn.SingleDigitErrorDetected` | pkg/redact/redact.go:239-250 | Changing any one digit of a valid number, separated or not, makes it invalid |
| `Luhn.AdjacentSwapDetected` | pkg/redact/redact.go:239-250 | Swapping two different neighbouring digits of a valid number, separated or not, leaves it valid if and only if they are 0 and 9 |
| `PatternScrub.MatchEndIsSound` | pkg/redact/redact.go:53-61 | What the greedy backtracking search reports is in the language of the pattern |
| `PatternScrub.MatchEndIsComplete` | pkg/redact/redact.go:53-61 | The search finds a match at a position whenever any string starting there is in the language |
| `PatternScrub.LuhnOnly` | pkg/redact/redact.go:203-210 | Of the card matches exactly those whose text passes the Luhn check are masked, in their order |
| `PatternScrub.SpliceCreatesNothing` | pkg/redact/redact.go:18-18 | A string that cannot overlap the mask and occurs after masking occurred before: masking creates no token |
| `PatternScrub.SpliceRemovesOwnTokens` | pkg/redact/redact.go:212-212 | Replacing the leftmost disjoint matches of a pattern leaves no substring in its language |
| `PatternScrub.ReplaceAll` | pkg/redact/redact.go:203-212 | The replacement loop copies what lies between the matches and puts the mask for each |
| `PatternScrub.MaskPatterns` | pkg/redact/redact.go:197-215 | The loop over the patterns computes the sequential scrub, and its output holds no token of any token pattern in the list |
| `PatternScrub.NoTokenSurvives` | pkg/redact/redact.go:197-215 | For every list of patterns, with arbitrary card and caller-supplied searches before, between and after, no substring of the output is in the language of any token pattern |
| `PatternScrub.DefaultsAreTokenPatterns` | pkg/redact/redact.go:53-61 | The eight default expressions match only strings longer than eight characters without brackets |
| `PatternScrub.NoDefaultTokenSurvives` | pkg/redact/redact.go:53-63 | With the defaults and any further patterns, the output holds no token of the eight defaults |
| `PatternScrub.ChangedIffTokenPresent` | pkg/redact/redact.go:195-215 | Token patterns change a text if and only if it holds a token |
| `PatternScrub.TokenScrubIsIdempotent` | pkg/redact/redact.go:197-215 | Scrubbing with token patterns twice is scrubbing once |
| `PatternLaws.SearchIsGreedy` | pkg/redact/redact.go:53-61 | Of all the ways to match a token pattern at a position, the search takes the one in which each piece in turn covers as much as it can |
| `PatternLaws.FindsLeftmost` | pkg/redact/redact.go:212-212 | The spans of a pattern, from left to right: nothing matches before the next one, and each is the greediest match at its place |
| `PatternLaws.NoTailIsLeft` | pkg/redact/redact.go:212-212 | Right behind a masked token of an open-ended pattern stands no character that could have belonged to it |
| `PatternLaws.SpliceLength` | pkg/redact/redact.go:203-212 | How long a text is after masking: nothing is dropped but the matches and nothing is added but the masks |
| `PatternLaws.SpliceMasks` | pkg/redact/redact.go:18-18 | Each match becomes the mask, at the place that what stands before it gives |
| `PatternLaws.SpliceKeeps` | pkg/redact/redact.go:203-212 | Each character outside the matches is kept, at the place that what stands before it gives |
| `PatternLaws.ReplacesTheRightMatches` | pkg/redact/redact.go:202-212 | Of the card matches those that pass the Luhn check are replaced, of any other pattern, modelled or arbitrary, all of them |
| `PatternLaws.ScrubInTurn` | pkg/redact/redact.go:202-213 | Each pattern works on what the patterns before it have left |
| `TokenLanguages.JsonWebToken` | pkg/redact/redact.go:54-54 | The language of the pattern: `eyJ` and three dotted parts of at least ten word characters or dashes |
| `TokenLanguages.BearerToken` | pkg/redact/redact.go:55-55 | The language of the pattern: the word in any case, white space, at least twenty token characters |
| `TokenLanguages.AwsAccessKey` | pkg/redact/redact.go:56-56 | The language of the pattern: `AKIA` and 16 digits or capitals |
| `TokenLanguages.GithubToken` | pkg/redact/redact.go:57-57 | The language of the pattern: `gh`, one of five letters, an underscore, at least 36 letters or digits |
| `TokenLanguages.StripeKeys` | pkg/redact/redact.go:58-59 | The languages of the two patterns: the prefix and at least twenty letters or digits |
| `TokenLanguages.GoogleApiKey` | pkg/redact/redact.go:60-60 | The language of the pattern: `AIza` and 35 word characters or dashes |
| `TokenLanguages.SlackToken` | pkg/redact/redact.go:61-61 | The language of the pattern: `xox`, one of five letters, a dash, at least ten letters, digits or dashes |
| `TokenLanguages.NoSecretSurvives` | pkg/redact/redact.go:53-63 | With the defaults, and any patterns after them, no substring of a scrubbed text is in one of those languages |
| `TokenLanguages.NoSecretInABody` | pkg/redact/redact.go:150-160 | Nor is one of any body, JSON or not, that comes out of a redactor with the default patterns |
| `TokenLanguages.OnlySecretsAreMasked` | pkg/redact/redact.go:197-215 | A text without such a substring passes the eight token patterns unchanged |
| `Redact.New` | pkg/redact/redact.go:104-127 | A redactor denies the defaults, unless they are disabled, and the caller's names in lower case; patterns are the defaults followed by the caller's |
| `Redact.DenyNames` | pkg/redact/redact.go:109-123 | The two loops collect exactly the set of denied names |
| `Redact.Headers` | pkg/redact/redact.go:131-144 | The copy has the same names; denied ones, whatever their case, hold the mask and the others their value |
| `Redact.HitsIffDenied` | pkg/redact/redact.go:109-123 | A denylist built from rules catches a key if and only if it folds to a default, unless those are off, or as one of the names does |
| `Redact.RulesMaskHeaders` | pkg/redact/redact.go:104-144 | A redactor built from rules puts the mask for exactly the headers its rules deny, in any case, and keeps the others |
| `Redact.RulesMaskFields` | pkg/redact/redact.go:104-193 | A redactor built from rules masks an object at exactly the keys its rules deny, in any case, and goes on below the others |
| `Redact.HeadersHideExactlyDeniedValues` | pkg/redact/redact.go:129-144 | Two header maps come out equal if and only if they differ at most in values under denied names |
| `Redact.HeadersCompose` | ingest-api/internal/usecase/ingest.go:88-90 | Masking with one denylist and then another, in either order and however each folds case, is masking what either denies; masking is idempotent |
| `Redact.RulesMerge` | pkg/redact/redact.go:102-123 | The denylist built from merged rules is the union of the denylists built from each |
| `Redact.MaskJSONValue` | pkg/redact/redact.go:178-193 | The recursive walk that assigns into the decoded maps leaves the heap holding the masked document, and changes only objects of that document |
| `Redact.MaskShapeIsMaskJson` | pkg/redact/redact.go:178-193 | The tree the walk leaves on the heap spells the same document as masking by value |
| `Redact.MaskHidesExactlyDeniedValues` | pkg/redact/redact.go:178-193 | Two documents mask to the same one if and only if they differ at most under denied keys, at any depth |
| `Redact.MasksCompose` | ingest-api/internal/usecase/ingest.go:93-94 | For trees of any depth, masking with one denylist and then another, however each folds case, is masking what either denies |
| `Redact.MaskOrderDoesNotMatter` | ingest-api/internal/usecase/ingest.go:93-94 | The order of two services does not matter, and repeating one changes nothing |
| `Redact.MergedRulesMask` | pkg/redact/redact.go:102-127 | Masking headers or a JSON tree with one set of names and then another, under one case folding, is masking with the merged set |
| `Redact.MaskedAtPath` | pkg/redact/redact.go:178-193 | What masking leaves at every path: the old value outside denied keys, the mask at the first denied key, nothing below it |
| `Redact.NoDeniedValueIsKept` | pkg/redact/redact.go:178-193 | Wherever a denied key still stands, its value is the mask |
| `Redact.BodyLeavesNoToken` | pkg/redact/redact.go:150-160 | JSON or not, parsed or not, a body comes out without any token of the redactor's token patterns |
| `Redact.BodyHidesDeniedFields` | pkg/redact/redact.go:150-176 | Two JSON bodies that differ only under denied keys come out as the same bytes |
| `Redact.IsJSONIff` | pkg/redact/redact.go:217-223 | A body is taken for JSON if and only if its content type holds `json`, in any case, or its first character that is not white space is a brace or a square bracket |
| `Redact.PatternsComeLast` | pkg/redact/redact.go:150-160 | The patterns are applied to what masking the fields has left |
| `Redact.JsonBodyReadsBack` | pkg/redact/redact.go:165-176 | Without patterns, a JSON body that parses reads back as the masked document |
| `Redact.OtherBodyIsOnlyScrubbed` | pkg/redact/redact.go:154-160 | Any other body goes through the patterns and nothing else |
| `KeyCache.ValidateAPIKey.Execute` | proxy-gateway/internal/usecase/validate_apikey.go:26-51 | Cache, verdict and errors of one call for a hit and for each answer of the repository on a miss; an empty key changes nothing |
| `KeyCache.VerdictMeans` | proxy-gateway/internal/usecase/validate_apikey.go:42-50 | A key is let through if and only if it is active and its allowlist is empty or names the host, in any case; it is refused as revoked if and only if it is revoked |
| `KeyCache.Loader.Refresh` | proxy-gateway/internal/adapter/postgres/loader.go:47-57 | The loop sets the listed keys one after another and leaves the others; a failed query changes nothing |
| `KeyCache.SetAllMeans` | proxy-gateway/internal/adapter/postgres/loader.go:52-54 | For each hash the last listed row is cached; a hash that is not listed keeps what it had |
| `KeyCache.UninterruptedCall` | proxy-gateway/internal/usecase/validate_apikey.go:32-50 | The steps of a call with nothing in between give the cache and the answer that `Execute` gives |
| `KeyCache.UninterruptedRefresh` | proxy-gateway/internal/adapter/postgres/loader.go:52-54 | The steps of a refresh with nothing in between give the cache that `Refresh` gives |
| `KeyCache.RowsKnowTheirHash` | proxy-gateway/internal/adapter/postgres/loader.go:48-53 | In every run each row is stored under its own hash, so a refresh sets a key where lookups look for it |
| `KeyCache.StaleSinceRevoke` | proxy-gateway/internal/usecase/validate_apikey.go:34-38 | A call that holds the old row after a revoke held it at the revoke and has not set the cache since |
| `KeyCache.ListedSinceRevoke` | proxy-gateway/internal/adapter/postgres/loader.go:48-54 | After a snapshot taken since the revoke, the refresher holds only revoked copies of the key |
| `KeyCache.SealedStep` | proxy-gateway/internal/adapter/postgres/loader.go:47-57 | Once no active copy is left in cache, refresher and calls, no step brings one back while the row stays revoked |
| `KeyCache.SealedFrom` | proxy-gateway/internal/adapter/postgres/loader.go:47-57 | That state lasts over whole runs |
| `KeyCache.SealedIsExact` | proxy-gateway/internal/usecase/validate_apikey.go:32-45 | While the row is revoked, every call is refused in every run from a state if and only if no active copy is left there in the cache, with the refresher or with a call |
| `KeyCache.RevocationTakesEffect` | proxy-gateway/internal/usecase/validate_apikey.go:32-45 | In every interleaving: once calls that read the old row have set the cache and a later refresh has set the key, every call that ends is refused as revoked, wherever evictions fall, unless the repository fails to answer |
| `KeyCache.RevocationHoldsIff` | proxy-gateway/internal/adapter/postgres/loader.go:47-57 | When a refresh listed since the revoke has set the key, every later call is refused in every continuation if and only if no call still holds the row it read before |
| `KeyCache.StaleCallUndoesTheRefresh` | proxy-gateway/internal/usecase/validate_apikey.go:34-39 | A concrete run in which a refresh has set the revoked key and a later call is still let through |
| `KeyCache.DeletedKeyStaysCached` | proxy-gateway/internal/adapter/postgres/loader.go:52-54 | A key whose row is gone is in the cache, with its old value, if and only if it has not been evicted, through any refreshes |
| `RateLimit.BucketKeyIsInjective` | pkg/ratelimit/limiter.go:76-76 | Different API keys or different seconds never share a counter |
| `RateLimit.Redis.Eval` | pkg/ratelimit/limiter.go:59-65 | The script counts a live counter up and starts an expired or missing one at one with a new time to live |
| `RateLimit.Limiter.Allow` | pkg/ratelimit/limiter.go:71-94 | Decision and store for every combination of disabled limiter, limit, script result and Redis error before or after the script |
| `RateLimit.FailsOpen` | pkg/ratelimit/limiter.go:72-85 | In every run an unlimited key, and a call that Redis does not answer, are let through uncounted |
| `RateLimit.CounterCountsTheWindow` | pkg/ratelimit/limiter.go:59-77 | In every run, whichever calls are lost, the counter of a window is the number of its attempts that reached Redis and expires 1100 ms after the first |
| `RateLimit.AllowedIffUnderLimit` | pkg/ratelimit/limiter.go:86-93 | The j-th attempt of a window to reach Redis, if answered, is let through if and only if j is at most the limit, and is told what remains |
| `RateLimit.NeverGrantsMoreThanTheLimit` | pkg/ratelimit/limiter.go:71-94 | Whatever Redis fails to answer, answered calls let through in a window never exceed the limit |
| `RateLimit.OnlyUnansweredCallsAreExtra` | pkg/ratelimit/limiter.go:78-85 | A window lets through exactly the calls it grants and the calls that get no answer, so at most the limit and the latter |
| `RateLimit.WindowAdmitsExactly` | pkg/ratelimit/limiter.go:71-94 | With every call answered, each one-second window admits exactly the smaller of limit and attempts |
| `RateLimit.IntervalBound` | pkg/ratelimit/limiter.go:71-94 | Any interval of T ms is granted at most limit * (ceil((T-1)/1000) + 1), which is twice the limit for one second, whichever calls are lost |
| `RateLimit.BurstAcrossTheBoundary` | pkg/ratelimit/limiter.go:75-76 | That bound is met, for every limit, by a burst across the boundary of two seconds |
| `RateLimit.DriftBound` | pkg/ratelimit/limiter.go:59-77 | For every drift, and whichever calls are lost, a window grants at most limit * ((999 + drift) / 1101 + 1) |
| `RateLimit.DriftResetsTheWindow` | pkg/ratelimit/limiter.go:77-77 | That bound is met for every key, limit and drift: the counter expires again and again in its own window |
| `RateLimit.GrantsAtMostIff` | pkg/ratelimit/limiter.go:59-94 | For every key, limit and drift: no run grants more than a given number in a window if and only if that number is at least the bound |
| `RateLimit.ExactIff` | pkg/ratelimit/limiter.go:75-77 | For every key and limit: every answered run with a given bound on the drift admits exactly in every window if and only if that bound is at most 101 ms |
| `StreamCopy.Buffer.Write` | proxy-gateway/internal/usecase/proxy_request.go:402-404 | A buffer appends, in its own memory or in new memory when it has to grow |
| `StreamCopy.CappedWriter.Write` | proxy-gateway/internal/usecase/proxy_request.go:395-407 | The capture stays the first max(0, cap) bytes of what was written, the flag says for chunks that are not empty whether there were more, and the whole chunk is always reported as written |
| `StreamCopy.WriteEach` | proxy-gateway/internal/usecase/proxy_request.go:265-268 | Client first, then capture: a refused chunk is not captured |
| `StreamCopy.WriteBoth` | proxy-gateway/internal/usecase/proxy_request.go:169-170 | The multi-writer is never cut short by the capture, only by the client |
| `StreamCopy.StreamToClient` | proxy-gateway/internal/usecase/proxy_request.go:259-277 | The streaming loop delivers, captures and flushes every chunk, or stops at the first one the client refuses, having captured exactly the chunks before it |
| `StreamCopy.CopyToClient` | proxy-gateway/internal/usecase/proxy_request.go:168-171 | The plain copy delivers and captures as the streaming loop does, byte for byte also when a write is refused |
| `StreamCopy.CopiesAgree` | proxy-gateway/internal/usecase/proxy_request.go:157-171 | Two copies of one body to clients that refuse alike stop at the same read and leave the same bytes received, the same capture and the same flag |
| `StreamCopy.CutKeepsTheBody` | proxy-gateway/internal/usecase/proxy_request.go:260-262 | Cutting a body into reads of any sizes keeps its bytes |
| `StreamCopy.ChunkingDoesNotMatter` | proxy-gateway/internal/usecase/proxy_request.go:259-277 | However a body is cut, the client receives exactly the body, the capture is its first bytes up to the cap, and truncated holds if and only if there were more |
| `StreamCopy.CopyStopsWhenRefused` | proxy-gateway/internal/usecase/proxy_request.go:265-267 | The copy stops early if and only if the body has more chunks than the client takes |
| `CapturedBody.CutAt` | proxy-gateway/internal/usecase/proxy_request_decode.go:144-145 | The part of a content type before its first semicolon: a prefix without one, ending at one or at the end |
| `CapturedBody.ParametersDoNotMatter` | proxy-gateway/internal/usecase/proxy_request_decode.go:143-151 | What counts of a content type: its part before the first semicolon, trimmed and in lower case, or octet-stream when nothing is left |
| `CapturedBody.CaseDoesNotMatter` | proxy-gateway/internal/usecase/proxy_request_decode.go:143-151 | Content types that differ in case and surrounding space are taken alike |
| `CapturedBody.BinaryIsOpaque` | proxy-gateway/internal/usecase/proxy_request_decode.go:111-138 | Images, gRPC and a missing content type count as binary |
| `CapturedBody.TextIsNotOpaque` | proxy-gateway/internal/usecase/proxy_request_decode.go:111-138 | No text type counts as binary |
| `CapturedBody.JsonIsNotOpaque` | proxy-gateway/internal/usecase/proxy_request_decode.go:111-138 | JSON does not count as binary |
| `CapturedBody.DecompressCapped` | proxy-gateway/internal/usecase/proxy_request_decode.go:59-88 | Output, flag and success for every decoder output and ending, always in new memory |
| `CapturedBody.DecodeKeepsThePrefix` | proxy-gateway/internal/usecase/proxy_request_decode.go:66-87 | Decoded output is the first cap bytes of the decoder's output (1 MiB if cap is not positive), flagged if and only if bytes are missing or the stream is corrupt |
| `CapturedBody.DecodeFailsIff` | proxy-gateway/internal/usecase/proxy_request_decode.go:59-86 | Decoding fails if and only if there is no decoder or the stream is corrupt before its first byte |
| `CapturedBody.NormalizeCapturedBody` | proxy-gateway/internal/usecase/proxy_request_decode.go:25-52 | Identity copy, binary placeholder, decoded body or failure placeholder, in new memory unless the capture is empty |
| `CapturedBody.DecodedBodyIsStored` | proxy-gateway/internal/usecase/proxy_request_decode.go:38-51 | A compressed capture is stored as the first cap bytes of what it decodes to, flagged if bytes are missing anywhere or the stream is corrupt |
| `CapturedBody.PlainBodyIsStored` | proxy-gateway/internal/usecase/proxy_request_decode.go:26-37 | A capture that is empty, or neither binary nor compressed, is stored as it is |
| `CapturedBody.PlaceholderHidesTheBody` | proxy-gateway/internal/usecase/proxy_request_decode.go:29-49 | Any other capture is replaced by a placeholder that depends on nothing of it but its length |
| `CapturedBody.RedactBody` | pkg/redact/redact.go:150-160 | A redacted body is the very slice it was given, or lies in new memory |
| `CapturedBody.Store` | proxy-gateway/internal/usecase/proxy_request.go:296-321 | A stored body that is not empty lies in memory nobody else holds |
| `CapturedBody.EmitThenReuse` | proxy-gateway/internal/usecase/proxy_request.go:77-84 | After both buffers have gone back to the pool and have been used in any way, the event still holds what was captured, on every path |
| `CapturedBody.ServeAndStore` | proxy-gateway/internal/usecase/proxy_request.go:152-182 | From end to end, on either copy path and for every cutting into reads: the client receives exactly the body, and after any reuse of the buffer the event holds what is to be stored of the body's first cap bytes: the redacted first cap bytes of what it decodes to when it is compressed, of the body itself when it is plain |
| `PooledBuffers.WellFormedStep` | proxy-gateway/internal/usecase/proxy_request.go:77-92 | Every step keeps: a buffer has at most one holder, a request holds two different ones, and a tee writes to its own request's buffer as long as that is held |
| `PooledBuffers.CleanStep` | proxy-gateway/internal/usecase/proxy_request.go:77-92 | As long as nobody gives buffers back too early, every step keeps the pool empty of bytes and open events free of others' bytes |
| `PooledBuffers.EventsHoldTheirOwnBytes` | proxy-gateway/internal/usecase/proxy_request.go:79-97 | In every interleaving of requests, transports and the pool: if each transport lets go of the body before the buffers are given back, every event holds bytes of its own request only |
| `PooledBuffers.EventsAreExact` | proxy-gateway/internal/usecase/proxy_request.go:79-97 | And then each event holds exactly the first cap bytes of what its transport had read of the body, and the first cap bytes of its response |
| `PooledBuffers.MixesIff` | proxy-gateway/internal/usecase/proxy_request.go:77-92 | From any state, some continuation in which nobody else is late mixes two requests' bytes in an event if and only if the state has bytes in the pool, others' bytes in an open event, or a late writer |
| `PooledBuffers.PutMixesIffStillReading` | proxy-gateway/internal/usecase/proxy_request.go:79-92 | Giving buffers back, when nobody was late before, makes such a continuation possible if and only if the request's transport is still reading its body |
| `IdleWatchdog.Watchdog.OnTick` | proxy-gateway/internal/usecase/proxy_request.go:246-251 | A tick fires if and only if the idle limit has passed since the last recorded activity; firing is final |
| `IdleWatchdog.FiresIffATickSawIdle` | proxy-gateway/internal/usecase/proxy_request.go:246-251 | In every run the timeout is reported if and only if some tick saw the idle limit pass without activity |
| `IdleWatchdog.NeverFiresWhileLively` | proxy-gateway/internal/usecase/proxy_request.go:224-255 | If every gap between activities is below the limit, the stream is never cut off |
| `IdleWatchdog.StallFiresInTime` | proxy-gateway/internal/usecase/proxy_request.go:227-255 | After a permanent stall at a, with ticks on time, the tick that fires lies in [a + idle, a + idle + max(idle/4, 250 ms)) |
| `LogConsumer.Batcher.Add` | log-consumer/internal/usecase/batcher.go:41-50 | Appends, dates the first row of a batch, and flushes a full batch; an error keeps the rows |
| `LogConsumer.Batcher.MaybeFlush` | log-consumer/internal/usecase/batcher.go:54-62 | Flushes if and only if rows wait and the deadline has come |
| `LogConsumer.Batcher.Flush` | log-consumer/internal/usecase/batcher.go:65-77 | Moves the waiting rows into the sink, or, when the insert fails, keeps them all |
| `LogConsumer.ConservedStep` | log-consumer/internal/adapter/kafka/consumer.go:53-104 | Every step of either goroutine keeps: inserted rows, then waiting rows, are the decodable handled records in order |
| `LogConsumer.RowsAreConserved` | log-consumer/internal/adapter/kafka/consumer.go:53-104 | So in every interleaving and with any failing inserts no row is lost, repeated or reordered |
| `LogConsumer.FinalFlushDrains` | log-consumer/internal/adapter/kafka/consumer.go:99-113 | In every run, after a final flush that succeeds nothing waits any more: the sink holds every decodable handled record, once, in order |
| `LogConsumer.PollIsHandled` | log-consumer/internal/adapter/kafka/consumer.go:88-97 | All records of a poll are gone through, those that do not decode are skipped, and whatever becomes of the inserts the next poll can begin |
| `LogConsumer.InsertsOnlyWhenDue` | log-consumer/internal/usecase/batcher.go:41-77 | In every run rows get into the sink only as a full batch, at a tick not before the deadline, or at the end |
| `LogConsumer.DueBatchIsInserted` | log-consumer/internal/usecase/batcher.go:54-77 | And a batch that is due at a tick or at the end gets there whole, when the insert succeeds |
| `LogConsumer.CommitCoversExactlyWhenIdle` | log-consumer/internal/adapter/kafka/consumer.go:66-70 | After a commit every committed row is in the sink if and only if, before it, no row was waiting and no polled record still had one to give |
| `LogConsumer.CommitRunsAhead` | log-consumer/internal/adapter/kafka/consumer.go:66-68 | A reachable state in which an offset is committed and its row is only in memory |
| `LogConsumer.ShutdownSkipsPolledRecords` | log-consumer/internal/adapter/kafka/consumer.go:76-79 | A run without any failure in which a polled record is committed and never handled |
| `LogConsumer.ShutdownIsCompleteIff` | log-consumer/internal/adapter/kafka/consumer.go:76-113 | In every run, whether its final flush succeeds or not, every decodable polled record is in the sink if and only if the poll that returned after cancellation brought none and the flush succeeded or found nothing waiting |
| `LogConsumer.DeadlineIsTheOldestRows` | log-consumer/internal/usecase/batcher.go:41-44 | In every run, while rows wait, the deadline is the oldest one's time plus the maximal wait |
| `LogConsumer.RowsAreInsertedInTime` | log-consumer/internal/adapter/kafka/consumer.go:58-67 | With ticks on time and a working sink no row waits maxWait + tickEvery: each row in the sink was inserted in less, and each row still waiting is younger |
| `LogConsumer.PendingBelowMax` | log-consumer/internal/usecase/batcher.go:45-48 | As long as the inserts made by Add succeed, fewer than maxSize rows wait, whenever ticks come and whatever they do |
| `GoSdk.Client.Capture` | sdk-reference-go/sdk.go:229-233 | A capture enqueues if the channel has room and counts a drop if not; it never waits |
| `GoSdk.Client.FlushBatch` | sdk-reference-go/sdk.go:278-289 | Hands a batch that is not empty to the transport and counts it as dropped if the send fails |
| `GoSdk.Client.OnEvent` | sdk-reference-go/sdk.go:298-303 | Takes the oldest event and flushes a full batch |
| `GoSdk.Client.OnStop` | sdk-reference-go/sdk.go:292-295 | Drains the channel into the batch, in order, and flushes it |
| `GoSdk.Client.DrainAll` | sdk-reference-go/sdk.go:307-316 | Moves everything in the channel to the end of the batch |
| `GoSdk.UninterruptedStop` | sdk-reference-go/sdk.go:292-295 | The steps of stopping with no capture in between do what `OnStop` does |
| `GoSdk.SendsIff` | sdk-reference-go/sdk.go:278-304 | In every run a batch goes out if and only if an event makes it full, or it is not empty at a tick or at the end of the drain |
| `GoSdk.WholeBatchIsSent` | sdk-reference-go/sdk.go:278-289 | While a batch is out nothing is added to it, and then it is recorded, whole, with its outcome |
| `GoSdk.ConservedStep` | sdk-reference-go/sdk.go:229-305 | Every step of captures and loop keeps the two accounts below |
| `GoSdk.EventsAreConserved` | sdk-reference-go/sdk.go:229-316 | In every run the accepted events are those of the sent batches, then the batch, then the channel, in order; dropped is refusals plus sizes of failed batches |
| `GoSdk.DropsOldestIff` | sdk-reference-go/sdk.go:229-233 | In every reachable state a capture leaves what dropping the oldest event would leave if and only if there is room or all queued events equal the new one |
| `GoSdk.CaptureRemovesNothing` | sdk-reference-go/sdk.go:229-233 | In every run a capture takes nothing out of the channel |
| `GoSdk.FullChannelRefusesTheNewest` | sdk-reference-go/sdk.go:229-233 | For every buffer size and any events, a run in which the first ones fill the channel and the newest is refused and counted |
| `GoSdk.ShutdownLeavesNothing` | sdk-reference-go/sdk.go:135-148 | If captures stop before Close, the finished loop leaves channel and batch empty and every event delivered or counted |
| `GoSdk.LoopTerminates` | sdk-reference-go/sdk.go:291-305 | After Close and without captures the loop takes at most 2 * buffer + 4 steps plus one for each tick, and is done if and only if no step but a tick is left |
| `GoSdk.DoneIsFinal` | sdk-reference-go/sdk.go:273-305 | Events captured after the loop is done stay in the channel, undelivered, and only refusals are counted |
| `GoSdk.BytesSplit` | sdk-reference-go/sdk.go:445-456 | The scanning loop computes the recursive split |
| `GoSdk.JoinComma` | sdk-reference-go/sdk.go:527-536 | The appending loop computes the recursive join |
| `GoSdk.JoinOfSplit` | sdk-reference-go/sdk.go:445-456 | Joining the split of any string gives the string |
| `GoSdk.SplitOfJoin` | sdk-reference-go/sdk.go:527-536 | Splitting the join of any nonempty list of separator-free strings gives the list |
| `RingClient.PythonClient.Capture` | sdk-python/echoproxy/client.py:67-81 | Ring, drop counter and posted batch of one call; a ring of size 0 raises |
| `RingClient.PythonClient.Flush` | sdk-python/echoproxy/client.py:91-106 | Posts everything buffered; a failed post is counted |
| `RingClient.UninterruptedCapture` | sdk-python/echoproxy/client.py:73-81 | The locked steps of a capture and its flush, with no other thread in between, do what the sequential call does |
| `RingClient.UninterruptedFlush` | sdk-python/echoproxy/client.py:91-106 | The steps of a flush, by any thread, with no other thread in between, do what the sequential call does |
| `RingClient.TypeScriptClient.Capture` | sdk-ts/src/ingest.ts:118-127 | Buffer, drop counter and the batch whose send begins |
| `RingClient.TypeScriptClient.Flush` | sdk-ts/src/ingest.ts:129-132 | Takes everything buffered, unless there is no key |
| `RingClient.AccountsBalance` | sdk-python/echoproxy/client.py:74-106 | Appended events are evicted plus buffered plus in flight plus delivered plus failed, and every batch is a contiguous stretch of append order |
| `RingClient.OwnedStep` | sdk-python/echoproxy/client.py:91-106 | Every step keeps: each batch in flight has exactly one thread sending it, and no thread sends a batch that is not in flight |
| `RingClient.EveryRunIsSafe` | sdk-python/echoproxy/client.py:67-119 | Over all interleavings of any number of capturing threads and the flush thread: the order of events, the drop counter (evicted plus failed) and the owners of batches |
| `RingClient.EvictionReachableIff` | sdk-python/echoproxy/client.py:74-81 | Some run evicts if and only if there is a capturing thread, and capturing threads plus the batch size exceed the buffer size plus one (a batch size below one counts as one) |
| `RingClient.EveryTsRunIsSafe` | sdk-ts/src/ingest.ts:118-142 | The same accounts in every run of the single-threaded client, and between two calls less than a batch is buffered |
| `RingClient.TsSendsIff` | sdk-ts/src/ingest.ts:118-132 | A capture begins a send if and only if it makes a batch full, a flush if and only if anything is buffered; the send takes all of it |
| `RingClient.TsEvictionReachableIff` | sdk-ts/src/ingest.ts:118-127 | Some run evicts if and only if the batch size exceeds the buffer size (a size below one counts as one) |
| `RingClient.TsOvercounts` | sdk-ts/src/ingest.ts:121-124 | The first capture counts a drop that did not happen if and only if the buffer size is not positive |
| `Ingest.Stamp` | ingest-api/internal/usecase/ingest.go:78-94 | One event after stamping and scrubbing, the content type read from the scrubbed headers |
| `Ingest.LookUp` | ingest-api/internal/usecase/ingest.go:47-55 | The cached key, or on a miss the repository's, which then fills the cache; a failed query changes nothing |
| `Ingest.Execute` | ingest-api/internal/usecase/ingest.go:43-108 | Cache, result, error, pushes and final state of every event of a batch, for each refusal and past authorization |
| `Ingest.EveryEventIsCounted` | ingest-api/internal/usecase/ingest.go:70-103 | Accepted plus rejected is the number of events, and accepted is the number of pushes |
| `Ingest.AcceptedSelects` | ingest-api/internal/usecase/ingest.go:95-102 | The accepted indices increase and are exactly those of the events that do not fail |
| `Ingest.PushesAreTheAcceptedEvents` | ingest-api/internal/usecase/ingest.go:95-102 | The k-th push is the k-th accepted event as the call leaves it |
| `Ingest.PartialSuccess` | ingest-api/internal/usecase/ingest.go:70-103 | For any batch and any failing pushes: every event is counted once, the accepted ones are in input order exactly those that are valid and whose push succeeds, and they are what is pushed, stamped and scrubbed; invalid events stay as they came |
| `Ingest.ErrorIffNothingAccepted` | ingest-api/internal/usecase/ingest.go:104-107 | An error is returned if and only if the batch is not empty and every event failed |
| `Ingest.ReasonIsTheFirstFailure` | ingest-api/internal/usecase/ingest.go:71-100 | The reason is the message of the first failure that has one |
| `Ingest.EveryPushIsStampedAndScrubbed` | ingest-api/internal/usecase/ingest.go:77-95 | Every push carries the key's ids, no denied header value and no token in a body |
| `Ingest.StampedKeepsTheRest` | ingest-api/internal/usecase/ingest.go:77-94 | Stamping keeps ids and times the client gave, verb, host and headers that are not denied, and scrubs each body by its own content type as pushed |
| `Ingest.ClaimsCannotBeForged` | ingest-api/internal/usecase/ingest.go:77-90 | Batches that differ only in the ids they claim and in denied header values lead to the same pushes and failures |
| `Ingest.DefenseInDepth` | ingest-api/internal/usecase/ingest.go:88-90 | Headers an SDK has scrubbed, by its own rules and its own case folding, come out as if one service denied what either denies |

## Left out

- Luhn.PythonLuhn: what `isdigit` and `int` say of characters outside ASCII is a parameter, restricted to values from 0 to 9.
- StreamCopy.StreamToClient: the chunk counter is unbounded; the code's is 32 bits wide and wraps.
- Ingest.Execute: the two counters are unbounded, where the code's are 32 bits wide; the objects of a batch are distinct, as every decoder makes them; fields that are neither checked, stamped nor scrubbed are not modelled.
- GoSdk.EventsAreConserved: the drop counter is unbounded, where the code's is 64 bits wide; the retry inside a send is part of its outcome.
- RingClient.EveryRunIsSafe: only the time before close; an exception other than the caught ones, and an error thrown while an event is serialized, are not modelled. An HTTP error status counts as delivered, as in the code.
- Redact.MaskJSONValue: string keys only. PHP turns keys that look like integers into integers and never masks them.
- Redact.BodyLeavesNoToken: JSON text is read and written by two functions about which nothing is assumed, so nothing is said about whether a scrubbed body is still JSON (masking a bare number can break it); writing a document that was read is taken not to fail.
- PatternScrub.NoTokenSurvives: the credit-card expression and the patterns of a caller are arbitrary searches for ordered, disjoint spans. Nothing is said about card numbers that remain: the expression is greedy and wants word boundaries.
- KeyCache.RevocationTakesEffect: the cache evicts any key at any time and sets at once; admission and buffered sets of the cache library are not modelled. A row has a status and an allowlist, its other columns are left out.
- RateLimit.Limiter.Allow: request to Redis and answer are one step with three outcomes; a counter beyond the range of 64 bits is not modelled.
- PooledBuffers.EventsHoldTheirOwnBytes: when the transport lets go of a body is a step of its own, and nothing is said about how the HTTP library orders it; a write is one step, and requests without a body begin with a transport that lets go at once.
- LogConsumer.RowsAreConserved: one partition and no rebalancing; an insert is atomic. Rows whose insert reports an error after it took effect are not modelled.
- CapturedBody.Store: the request capture is the writer's state at the time of the call; the tee reader that fills it is the capped writer of `StreamCopy.dfy`.
- The decoders for gzip and deflate, SHA-256, lower-casing, trimming and decimal printing are parameters.
- Sampling, route filters and body caps of the SDKs: single branches before the modelled code.
- Dashboard, statistics API, HTTP and gRPC adapters, SQL, migrations, deployment files, target parsing with DNS lookup and header copying are not part of this model.
- Field-by-field copies (`toProto`, `decode`, `fromJSON`) and the retention job would only add easy members.
