# CodeWhale kernels: a Dafny model and its proofs

The project models the algorithmic kernels of the CodeWhale workspace and proves what each one is for.
Code that works by changing things is modelled as methods with loops, or as classes with fields, and is
proved against a function of its input; the theorems are then about those functions. What a kernel asks of
the outside world (a network reply, a store write, a UTF-8 or JSON decoder, SHA-256, a clock) is a parameter,
so every theorem holds whatever the outside answers.

| file | what it models |
|---|---|
| `Search.dfy`, `Text.dfy` | searching, trimming, ASCII case, lines, joining: the string operations the sources call |
| `Harness.dfy` | the wildcard matcher with one remembered star, and route matching |
| `SseFrames.dfy` | cutting a byte stream into event-stream frames |
| `SseEvents.dfy`, `RuntimeBridge.dfy` | parsing a frame, and the stdio bridge: thread map, cursors, streamed turns |
| `RuntimeSdk.dfy` | the JavaScript SDK's incremental event parser |
| `Fingerprint.dfy`, `BaseUrl.dfy` | the FNV-1a digest (module `Fnv`) and base-URL normalisation |
| `OrderedMap.dfy`, `Catalog.dfy` | the ordered map, the three-layer catalog and the reference cards |
| `CatalogCache.dfy` | the provider catalog cache as a function of its refresh history |
| `Glibc.dfy` | scanning a binary for `GLIBC_` requirements, and the preflight check |
| `ChecksumManifest.dfy` | hexadecimal text and the SHA-256 manifest |
| `SelfUpdate.dfy` | download with retries, verification and replacement of the installed binaries |
| `Providers.dfy`, `AuthMigrate.dfy` | credential lookup, and moving keys from the config file to the secret store |
| `ModelRegistry.dfy` | the alias index, resolution, re-resolution, and the provider of a request |
| `Thousands.dfy`, `Durations.dfy` | numerals (module `Decimal`), thousands separators, durations |
| `Folding.dfy`, `SessionMetrics.dfy` | folding with commuting steps; the message walk and the fold over session files |
| `ContentWatch.dfy`, `HtmlNodes.dfy` | stripping HTML and collapsing white space |
| `UpstreamUrl.dfy` | version segments of base URLs and upstream URLs |

## Where the code does less than it seems

For each of these the exact condition is proved, and a lemma at an input that fails.

- The matcher compares characters before it looks at the star branch, so a literal `*` in the value can use up
  the pattern's star. It agrees with the meaning of the glob for every pattern exactly when the value holds no
  `*` (`Harness.ValueExact`), and for every value exactly when the pattern holds none (`Harness.PatternExact`).
  Inputs: `Harness.LiteralStarRefused`, `Harness.OwnTextRefused`.
- A frame is cut at the first CRLF blank line even when an LF blank line comes before it. Chunking is invisible
  exactly on streams where that never happens (`SseFrames.ChunkingExact`), which includes every stream that uses
  one delimiter (`SseFrames.OneDelimiterUnmixed`). Input: `SseFrames.MixedExample`.
- `siliconflow-CN` shares its slot with `siliconflow`. A working migration keeps every provider's key exactly when
  the sharers of each slot agreed before (`AuthMigrate.MigrationExact`). Input: `AuthMigrate.SharedSlotLosesKey`.
- A blank DeepSeek block hides the root key from the lookup but not from the migration; the two agree exactly when
  that is not so (`AuthMigrate.ValueIsLookup`). Input: `AuthMigrate.HiddenExample`.
- A malformed manifest line is an error, except that a line of 66 bytes or more with a character across its 64th
  byte panics. The parse panics exactly when that is the first bad line (`ChecksumManifest.PanicExact`). Input:
  `ChecksumManifest.PanicExample`.
- Cache keys join a provider and a fingerprint with the unit separator. Under the fingerprints the program makes,
  which are digests, scopes never collide (`CatalogCache.DigestScopesExact`). For arbitrary text another scope has
  the same key exactly when some other separator in it also cuts it into two trimmed parts
  (`CatalogCache.SharedExact`). Input: `CatalogCache.ScopeCollision`.
- Base-URL normalisation strips trailing slashes and one implied port, once. It is idempotent exactly on URLs that
  end cleanly and do not write that port twice (`BaseUrl.NormalizeIdempotentExact`), in particular on those without
  white space that have a host and at most one such port (`BaseUrl.PlainUrlIdempotent`). Input:
  `BaseUrl.PortTwiceExample`, such as `http://h:80:80`.
- The default upstream URL ends in `/v<digits>/chat/completions` unless the whole base is a bare version segment
  (`UpstreamUrl.DefaultUrlExact`). Input: `UpstreamUrl.BareVersionExample`.
- Stripping HTML twice differs from stripping once exactly when the 8000-character cut falls just after white
  space (`ContentWatch.StripIdempotentExact`). Input: `ContentWatch.CutExample`.

## Model

| member | source | states |
|---|---|---|
| Harness.WildcardCharsMatch | crates/config/src/harness.rs:222-247 | the loop with one remembered star computes `Greedy`, and enters its body at most (pattern length + 1) times (value length) times |
| Harness.WildcardPatternMatches | crates/config/src/harness.rs:215-220 | a match is a match in the recursive meaning of `*`, `?` and literals, and the two agree when either side has no star |
| Harness.MatchesRoute | crates/config/src/harness.rs:154-157 | a profile matches when the provider routes are equal and the glob accepts the model; exact for models without `*` |
| Harness.RoutesEqualEquivalence | crates/config/src/harness.rs:208-213 | provider route equality is an equivalence when the name table ignores case and outer blanks |
| Harness.Sound | crates/config/src/harness.rs:222-247 | the matcher never accepts what the glob does not |
| Harness.Complete | crates/config/src/harness.rs:222-247 | one remembered star is enough: the matcher equals the glob when pattern or value has no star |
| Harness.IterationBound | crates/config/src/harness.rs:227-244 | the iterations the loop counts are at most (pattern length + 1) times (value length), for every input |
| Harness.ValueExact | crates/config/src/harness.rs:228-237 | matcher and glob agree on a value for all patterns if and only if it has no `*` |
| Harness.PatternExact | crates/config/src/harness.rs:228-237 | matcher and glob agree on a pattern for all values if and only if it has no `*` |
| Harness.LiteralStarRefused | crates/config/src/harness.rs:228-237 | for every value with a `*` there is a pattern whose match is missed |
| Harness.OwnTextRefused | crates/config/src/harness.rs:228-237 | for every pattern with a `*` there is a value whose match is missed |
| SseFrames.SseBuffer.TakeSseFrame | crates/app-server/src/lib.rs:1018-1026 | takes a non-empty frame off the front up to the delimiter it looks for, or changes nothing when there is none |
| SseFrames.SseBuffer.Drain | crates/app-server/src/lib.rs:902-949 | the inner loop takes exactly the frames of `DrainAll` and leaves its rest |
| SseFrames.DrainConserves | crates/app-server/src/lib.rs:1018-1026 | frames plus rest are the bytes of the buffer |
| SseFrames.DrainLeavesNone | crates/app-server/src/lib.rs:902-949 | no delimiter is left when the inner loop ends |
| SseFrames.FeedConserves | crates/app-server/src/lib.rs:902-949 | over any chunks, frames plus rest are the bytes received |
| SseFrames.FeedLeavesNone | crates/app-server/src/lib.rs:902-949 | over any chunks, the rest never holds a delimiter |
| SseFrames.FeedIsEager | crates/app-server/src/lib.rs:902-949 | on unmixed streams any chunking gives the frames of cutting at the earliest delimiter |
| SseFrames.BytewiseIsEager | crates/app-server/src/lib.rs:1018-1026 | one byte at a time always cuts at the earliest delimiter |
| SseFrames.ChunkingExact | crates/app-server/src/lib.rs:1018-1026 | all chunkings give the same frames and rest if and only if the stream is unmixed |
| SseFrames.OneDelimiterUnmixed | crates/app-server/src/lib.rs:1018-1026 | a stream that uses only one of the two blank lines is unmixed |
| SseFrames.MixedExample | crates/app-server/src/lib.rs:1018-1026 | one stream with both blank lines: a single frame at once, and a different cut in chunks |
| SseFrames.FramesRecovered | crates/app-server/src/lib.rs:1018-1026 | well-formed LF frames come out one by one for every chunking |
| SseEvents.ParseSseFrame | crates/app-server/src/lib.rs:1028-1044 | the line loop computes the frame's event or nothing; which of the two, and what it holds, is `ParseExact` |
| SseEvents.FrameRoundTrip | crates/app-server/src/lib.rs:1028-1044 | parsing a printed frame gives back the name and the data lines joined by line feeds |
| SseEvents.ParseExact | crates/app-server/src/lib.rs:1028-1044 | for any text: no event if and only if it lacks an `event:` or a `data:` line; otherwise the trimmed value of its last `event:` line, and the values of all its `data:` lines in order |
| SseEvents.CommentsIgnored | crates/app-server/src/lib.rs:1040-1043 | a frame of comments is no event |
| SseEvents.KeepAliveIgnored | crates/tui/src/runtime_api.rs:2027-2031 | nor is a keep-alive, whatever its comment says |
| RuntimeBridge.HandleFrame | crates/app-server/src/lib.rs:905-947 | what one frame does to the cursor, the output and the turn |
| RuntimeBridge.HandleBuffered | crates/app-server/src/lib.rs:904-948 | acting on frames as they are taken equals acting on all frames of the buffer, stopping early |
| RuntimeBridge.StreamTurnEvents | crates/app-server/src/lib.rs:882-952 | streaming a turn over chunks computes the session's `StreamTurn` |
| RuntimeBridge.RuntimeBridge.EnsureRuntimeThread | crates/app-server/src/lib.rs:764-779 | a known stdio thread keeps its runtime thread; a new one is created and recorded |
| RuntimeBridge.RuntimeBridge.CreateRuntimeThread | crates/app-server/src/lib.rs:781-802 | a new thread's cursor starts at 0 and an existing cursor is kept |
| RuntimeBridge.RuntimeBridge.MessageThread | crates/app-server/src/lib.rs:804-880 | one accepted turn: start event, stream from the cursor, end event even on error, cursor stored only at a terminal event; what it answers is `ReplyAtEnd` and `ReplyExact` |
| RuntimeBridge.RuntimeBridge.HandleMessage | crates/app-server/src/lib.rs:637-648 | a stdio message ensures its thread, then sends the turn |
| RuntimeBridge.FrameExact | crates/app-server/src/lib.rs:905-947 | what a frame means: bad JSON or this turn's `turn.completed` stops the turn, a non-empty agent delta of this turn adds its text, and any `seq` is read |
| RuntimeBridge.ReplyAtEnd | crates/app-server/src/lib.rs:853-879 | with any writer: accepted if and only if the turn reaches its end and the status text of the event there, "completed" when absent and in any case, is none of failed, interrupted, canceled, cancelled |
| RuntimeBridge.ReplyExact | crates/app-server/src/lib.rs:804-952 | with a working writer, on the frames received: accepted if and only if a thread and a turn are there and the first frame that stops the turn completes it without such a status |
| RuntimeBridge.StartFails | crates/app-server/src/lib.rs:826-833 | when the start event cannot be written, nothing is written, no cursor moves, and the message is refused |
| RuntimeBridge.ThreadExact | crates/app-server/src/lib.rs:764-779 | which runtime thread each stdio thread is mapped to after a message |
| RuntimeBridge.CursorExact | crates/app-server/src/lib.rs:835-851 | a message moves a cursor only for its own thread, only when its turn reaches its end, and only to a number that turn read |
| RuntimeBridge.RunExtends | crates/app-server/src/lib.rs:764-880 | over any run no cursor decreases or is lost and no stdio thread is remapped |
| RuntimeBridge.TurnRaises | crates/app-server/src/lib.rs:900-945 | a turn that reaches its end does not move the cursor back |
| RuntimeBridge.CursorCovers | crates/app-server/src/lib.rs:910-945 | at a terminal event the cursor of the stream is at least every sequence number read, and is one of them or the start |
| RuntimeBridge.MessageCovers | crates/app-server/src/lib.rs:835-851 | when a turn reaches its terminal event, the cursor the bridge stores for its thread is at least every sequence number read |
| RuntimeBridge.RunCovers | crates/app-server/src/lib.rs:804-952 | the same at the end of any run, whatever messages come before and after that turn |
| RuntimeBridge.ReachesEndExact | crates/app-server/src/lib.rs:900-951 | with a working writer a turn reaches its end exactly when its stream stops at an event that decodes |
| RuntimeBridge.TurnWrites | crates/app-server/src/lib.rs:913-947 | with a working writer a turn writes exactly its non-empty agent deltas before its stop, in order |
| RuntimeBridge.DeltasExact | crates/app-server/src/lib.rs:914-934 | one stdio event for each event with a text, none for any other, in the order of the stream |
| RuntimeBridge.MessageWrites | crates/app-server/src/lib.rs:804-880 | with a working writer a message writes one start, its deltas, one end, or nothing without a thread and turn |
| RuntimeBridge.BlockExact | crates/app-server/src/lib.rs:824-844 | a block opens and closes with the id `thread:turn` and has only texts under that id in between |
| RuntimeBridge.RunWrites | crates/app-server/src/lib.rs:804-952 | over any run the output is the concatenation of those blocks |
| RuntimeBridge.WriteAllExact | crates/app-server/src/lib.rs:923-932 | writing in a row: exactly a front part is written, and the first failing write ends it |
| RuntimeBridge.TurnWritesAny | crates/app-server/src/lib.rs:900-951 | with any writer: a turn writes its deltas before its stop up to the first failing write, and ends if and only if all were written and the stop decodes |
| RuntimeBridge.MessageWritesAny | crates/app-server/src/lib.rs:826-849 | and a started message tries its end event whatever happened to the stream |
| RuntimeBridge.ChunkingInvisible | crates/app-server/src/lib.rs:882-952 | on an unmixed stream chunking changes neither the events written nor the outcome |
| RuntimeSdk.ParseEventStream | npm/runtime-sdk/index.js:166-187 | for every chunking: the events of splitting the whole text on blank lines and parsing every piece, up to the first exception |
| RuntimeSdk.DrainBuffer | npm/runtime-sdk/index.js:172-179 | the inner loop consumes exactly the complete pieces, whatever arrives later |
| RuntimeSdk.WireRoundTrip | npm/runtime-sdk/index.js:189-199 | payloads written as data frames come back as their JSON values, in order |
| RuntimeSdk.LineEndings | npm/runtime-sdk/index.js:190 | a line ends in a line feed or in a carriage return and a line feed |
| RuntimeSdk.FrameDataExact | npm/runtime-sdk/index.js:189-195 | the data of a printed frame is that of its data lines joined by line feeds, whatever event lines and comments stand between them |
| RuntimeSdk.StreamRoundTrip | npm/runtime-sdk/index.js:166-199 | frames written to the wire give the JSON values of their data in order, less empty data and `[DONE]`, and an exception at the first data that is no JSON |
| Fnv.FnvHex | crates/config/src/catalog.rs:612-621 | the loop computes the 64-bit FNV-1a digest in 16 hexadecimal digits |
| Fnv.XorUndone | crates/config/src/catalog.rs:617 | xor with a byte is undone by the same xor |
| Fnv.TimesPrimeUndone | crates/config/src/catalog.rs:618 | multiplying by the FNV prime mod 2^64 is undone by 0xce965057aff6957b |
| Fnv.StepPermutes | crates/config/src/catalog.rs:616-619 | each step is a permutation of the state |
| Fnv.StepSeparates | crates/config/src/catalog.rs:616-619 | from one state, different bytes lead to different states |
| Fnv.SuffixCancels | crates/config/src/catalog.rs:612-621 | a common suffix cancels: hashes agree with it if and only if they agree without it |
| Fnv.OneByteApart | crates/config/src/catalog.rs:612-621 | equal-length inputs that differ in exactly one byte never share a digest |
| Fnv.KnownDigests | crates/config/src/catalog.rs:612-621 | the published digests of no bytes and of the letter `a` |
| Fnv.HexUndone | crates/config/src/catalog.rs:620 | fixed-width hexadecimal text reads back as its number |
| Fnv.DigestTextInjective | crates/config/src/catalog.rs:620 | the digest texts agree if and only if the digests do |
| BaseUrl.SplitPrint | crates/config/src/catalog.rs:584-610 | splitting printed scheme, authority and path gives them back |
| BaseUrl.CanonicalAgain | crates/config/src/catalog.rs:591-607 | lower-casing scheme and host and dropping the implied port is idempotent unless a second implied port follows |
| BaseUrl.NormalizeIdempotentExact | crates/config/src/catalog.rs:584-610 | normalising twice is normalising once if and only if the trimmed URL ends cleanly and does not write its implied port twice |
| BaseUrl.PlainUrlIdempotent | crates/config/src/catalog.rs:584-610 | idempotent on every URL without white space, with a host, and with at most one implied port |
| BaseUrl.PortTwiceExample | crates/config/src/catalog.rs:598-605 | every lower-case host with the port written twice needs a second pass |
| BaseUrl.EndpointsShareExact | crates/config/src/catalog.rs:579-610 | two endpoints normalise alike if and only if schemes agree up to case, paths agree, and authorities agree up to case and one implied port |
| BaseUrl.NormalizeSpelled | crates/config/src/catalog.rs:591-607 | scheme and authority in lower case, `:443` taken off https and `:80` off http, nothing off any other |
| BaseUrl.NormalizeSchemeless | crates/config/src/catalog.rs:607-610 | text without a scheme is put in lower case as a whole |
| OrderedMap.GetInsert | crates/config/src/catalog.rs:554-567 | inserting binds its key and no other |
| OrderedMap.InsertSorted | crates/config/src/catalog.rs:554-567 | insertion keeps the keys strictly ascending |
| OrderedMap.Extensional | crates/config/src/catalog.rs:554-567 | two sorted maps that answer alike are equal |
| OrderedMap.StringLessExact | crates/config/src/catalog.rs:554-567 | strings are ordered at their first difference, a prefix first |
| OrderedMap.KeyLessExact | crates/config/src/catalog.rs:554-567 | and so are keys, part by part |
| Catalog.Compile | crates/config/src/catalog.rs:554-567 | inserting the layers one after the other computes `Compiled` of their concatenation |
| Catalog.CompiledExact | crates/config/src/catalog.rs:554-567 | the snapshot is strictly sorted by provider and wire id and holds exactly the last row of each identity |
| Catalog.LayerPrecedence | crates/config/src/catalog.rs:554-567 | overrides win over live rows, which win over bundled rows |
| Catalog.BundledIdentityKept | crates/config/src/catalog.rs:554-567 | no bundled identity is lost, whatever the other layers hold |
| Catalog.CompileFixedPoint | crates/config/src/catalog.rs:554-567 | compiling a snapshot again changes nothing |
| Catalog.FromModalities | crates/config/src/model_reference.rs:52-68 | text only if every stated modality is text, multimodal if one is not, unknown if none is stated |
| Catalog.ModalityExact | crates/config/src/model_reference.rs:52-68 | multimodal if and only if something other than text is stated, unknown if and only if nothing is, blanks and ASCII case aside |
| Catalog.FromOfferings | crates/config/src/model_reference.rs:198-207 | the loop builds the cards in key order |
| Catalog.FindExact | crates/config/src/model_reference.rs:121-268 | a card found in the snapshot's database states the facts of that identity's last row, limits and modality included, and leaves unknown what the row does not state; there is none if and only if there is no such row |
| CatalogCache.ProviderCatalogCache.RecordSuccess | crates/config/src/catalog.rs:361-390 | a success is appended to the history that the entries replay |
| CatalogCache.ProviderCatalogCache.RecordFailure | crates/config/src/catalog.rs:398-421 | so is a failure |
| CatalogCache.AppliedElsewhere | crates/config/src/catalog.rs:361-421 | an event leaves every other scope alone |
| CatalogCache.AppliedHere | crates/config/src/catalog.rs:361-421 | a success replaces rows, time, lifetime, provider and fingerprint of its scope; a failure changes only the status |
| CatalogCache.ReplayExact | crates/config/src/catalog.rs:361-421 | a scope's entry holds the latest success's retagged rows and endpoint, or none, under the latest event's status |
| CatalogCache.ServedExact | crates/config/src/catalog.rs:428-466 | status is fresh, and exactly those rows are served, if and only if the success is the latest event and its saturating age is below the TTL |
| CatalogCache.LiveLayerExact | crates/config/src/catalog.rs:470-476 | the live layer holds exactly the rows some scope serves |
| CatalogCache.LiveLayerOrder | crates/config/src/catalog.rs:470-476 | scope after scope in key order, each row once |
| CatalogCache.ScopeExact | crates/config/src/catalog.rs:340-343 | cache keys agree if and only if the trimmed parts do, for fingerprints without a separator |
| CatalogCache.DigestScopesExact | crates/tui/src/client.rs:1204-1262 | under digests as fingerprints, keys agree if and only if trimmed providers and digests do |
| CatalogCache.SharedExact | crates/config/src/catalog.rs:340-343 | for any text, another scope has the same key if and only if some other separator cuts the key into two trimmed parts |
| CatalogCache.ScopeCollision | crates/config/src/catalog.rs:340-343 | two different scopes of arbitrary text share a key |
| Glibc.ReadNext | crates/cli/src/update.rs:821-834 | the next marker and its version, with none in between |
| Glibc.HighestRequiredGlibc | crates/cli/src/update.rs:816-838 | the maximum of the versions at every occurrence of the marker, or none if and only if none parses |
| Glibc.NoOverlap | crates/cli/src/update.rs:834 | the marker cannot overlap itself, so resuming behind it skips no occurrence |
| Glibc.BestIsHighest | crates/cli/src/update.rs:827-833 | keeping the larger version at each step keeps the maximum |
| Glibc.PreflightDownloadedBinary | crates/cli/src/update.rs:859-876 | on a checked Linux host it succeeds if and only if the host is at least every requirement in the binary |
| Glibc.RunnableExact | crates/cli/src/update.rs:859-876 | an unchecked host runs anything, and a checked one must be at least every version behind a marker, wherever it stands |
| Glibc.TokenRead | crates/cli/src/update.rs:821-828 | the token behind a marker goes as far as its digits and dots do, wherever in the binary |
| Glibc.ReadsTwo | crates/cli/src/update.rs:808-814 | a version printed with two parts reads back, unless a part exceeds 32 bits; a single number is no version |
| Glibc.ReadsThree | crates/cli/src/update.rs:808-814 | so does one with three parts or more: a third part too large counts as 0, and later parts do not count |
| Glibc.ReadsNone | crates/cli/src/update.rs:808-814 | without a major or a minor number there is no version |
| Glibc.AtLeastExact | crates/cli/src/update.rs:777-782 | versions are ordered like the numbers whose 32-bit digits they are |
| ChecksumManifest.HexBytes | crates/cli/src/update.rs:767-775 | the loop writes two digits a byte |
| ChecksumManifest.HexRoundTrip | crates/cli/src/update.rs:767-775 | decoding hexadecimal text gives back the bytes |
| ChecksumManifest.HexInjective | crates/cli/src/update.rs:767-775 | equal text means equal bytes |
| ChecksumManifest.ParseChecksumManifest | crates/cli/src/update.rs:389-422 | the line loop computes `Parse` |
| ChecksumManifest.AcceptedExact | crates/cli/src/update.rs:392-416 | accepted if and only if every line is blank or well formed; otherwise the first bad line is reported |
| ChecksumManifest.LineExact | crates/cli/src/update.rs:392-418 | any line: blank if and only if only white space, and a checksum if and only if 64 hexadecimal digits, white space, and a name less one leading star |
| ChecksumManifest.WidthExact | crates/cli/src/update.rs:398 | a character takes the fewest UTF-8 bytes that can carry its code point |
| ChecksumManifest.StopsAtFirstBad | crates/cli/src/update.rs:398-416 | the first bad line panics if a character lies across its 64th byte, and is an error naming it otherwise |
| ChecksumManifest.PanicExact | crates/cli/src/update.rs:398-402 | the parse panics if and only if the first bad line is long enough and no character ends after its 64th byte |
| ChecksumManifest.PanicExample | crates/cli/src/update.rs:402 | 63 letters and a two-byte character panic the parse |
| ChecksumManifest.CharsAtExact | crates/cli/src/update.rs:402 | the split point is the one prefix of that many bytes, if there is one |
| ChecksumManifest.TableExact | crates/cli/src/update.rs:418 | the table holds for each name the hash of its last line |
| ChecksumManifest.PrintedLineExact | crates/cli/src/update.rs:393-418 | a printed line reads back as its name and lower-case hash if and only if the name is plain |
| ChecksumManifest.ManifestRoundTrip | scripts/release/prepare-local-release-assets.js:70-98 | parsing a printed manifest gives exactly the name-to-lower-case-hash map |
| ChecksumManifest.OrderIrrelevant | scripts/release/prepare-local-release-assets.js:94-96 | the order of the lines does not matter |
| SelfUpdate.DownloadUrl | crates/cli/src/update.rs:721-744 | the retry loop computes `Fetched` |
| SelfUpdate.FetchedExact | crates/cli/src/update.rs:721-744 | a download gives the body of the first attempt with a 2xx status, if and only if each before it failed in transport or with 5xx, 408 or 429 |
| SelfUpdate.SelectExact | crates/cli/src/update.rs:356-380 | the first asset that is the binary itself or, when there is none, the first with its name and a dot in front that is no checksum file |
| SelfUpdate.ManifestExact | crates/cli/src/update.rs:89-109 | no table if and only if no asset has the manifest's name; otherwise the table it parses to, and a failure if and only if it cannot be fetched, decoded or parsed |
| SelfUpdate.VerifiedExact | crates/cli/src/update.rs:112-153 | a target verifies if and only if its asset is there, downloads, has its digest under its name in the listed manifest, and runs here |
| SelfUpdate.PreparedExact | crates/cli/src/update.rs:89-154 | the first replacement is reached if and only if every target has such a download |
| SelfUpdate.Prepare | crates/cli/src/update.rs:89-154 | the steps before the first replacement give exactly those downloads, or none |
| SelfUpdate.Verified | crates/cli/src/update.rs:113-153 | a verified download was fetched from a selected asset, matches its checksum when there is a table, and passed preflight |
| SelfUpdate.VerifyAll | crates/cli/src/update.rs:111-154 | succeeds if and only if every target verifies, with exactly those downloads |
| SelfUpdate.Installation.RunUpdate | crates/cli/src/update.rs:89-162 | without a trusted download for every target nothing is written, a listed manifest that cannot be had included; with them the targets from `left` on are replaced, last first, up to the first replacement that fails |
| SelfUpdate.Installation.ReplaceBinary | crates/cli/src/update.rs:941-1002 | one file is replaced, or nothing changes |
| SelfUpdate.ReachedExact | crates/cli/src/update.rs:159-162 | all replacements before the stop work, and the one at the stop fails |
| SelfUpdate.InstalledExact | crates/cli/src/update.rs:159-162 | exactly a suffix of the targets holds new bytes and every other file is as before |
| SelfUpdate.SiblingsFirst | crates/cli/src/update.rs:159-162 | the invoking binary is written after all its siblings |
| AuthMigrate.RunAuthMigrate | crates/cli/src/lib.rs:1427-1473 | state, report, saved file, and both stores after every single effect, with any reads and writes failing; whom the report names is `RunReports` |
| AuthMigrate.MigrateProvider | crates/cli/src/lib.rs:1431-1466 | one provider: the net step, and both stores after its store write and after its strip, in that order; its report is `ReportedAt` |
| AuthMigrate.ConfigStore.ClearKey | crates/cli/src/lib.rs:986-991 | clearing takes out the block, and the root key for DeepSeek |
| AuthMigrate.ConfigStore.WriteKey | crates/cli/src/lib.rs:963-984 | writing sets the block, and the root key for DeepSeek |
| AuthMigrate.WriteClearExact | crates/cli/src/lib.rs:963-991 | a written key is the one looked up and the one migrated, and clearing undoes writing |
| AuthMigrate.WriteClearElsewhere | crates/cli/src/lib.rs:963-991 | neither changes what another provider's lookup finds |
| AuthMigrate.ValueIsLookup | crates/cli/src/lib.rs:1032-1043 | the migration moves the key the lookup finds, unless a blank block hides the root key |
| AuthMigrate.HiddenExample | crates/cli/src/lib.rs:1032-1043 | a blank block in front of a root key: the lookup finds nothing, the migration would move the root key |
| AuthMigrate.CredentialsSurvive | crates/cli/src/lib.rs:1427-1473 | after any number of providers, whatever fails, a provider with its own slot keeps its key, also for a process that starts over from the unsaved file |
| AuthMigrate.EveryEffectSurvives | crates/cli/src/lib.rs:1447-1465 | the same after every single effect of a run, also between a provider's write and its strip |
| AuthMigrate.WriteBeforeStrip | crates/cli/src/lib.rs:1447-1465 | a key leaves the config only when the store already holds it |
| AuthMigrate.ValueExact | crates/cli/src/lib.rs:1433-1445 | the key moved is the block unless blank, else DeepSeek's root key unless blank |
| AuthMigrate.RunReports | crates/cli/src/lib.rs:1447-1466 | whatever fails: a provider with a key is migrated, with no entry left, if and only if its write works or the store already holds the key, and otherwise warned about with its entry unchanged |
| AuthMigrate.ReportsHold | crates/cli/src/lib.rs:1476-1494 | no migrated provider keeps an entry in the config, every warned one had its write fail and keeps its entry, and each provider with a key is in exactly one list |
| AuthMigrate.ReportsOrdered | crates/cli/src/lib.rs:1431-1466 | both lists are in the canonical order without repetition |
| AuthMigrate.StoreExact | crates/cli/src/lib.rs:1447-1466 | whatever fails: a slot holds the key of the last provider migrated into it, else what it held before |
| AuthMigrate.AfterWorkingRun | crates/cli/src/lib.rs:1427-1473 | after a run whose writes work, the config holds no key and each slot the last key moved into it |
| AuthMigrate.MigrationExact | crates/cli/src/lib.rs:948-954 | such a run keeps every key if and only if the sharers of each slot agreed |
| AuthMigrate.SharedSlotLosesKey | crates/cli/src/lib.rs:948-954 | two different keys under the shared slot: one is lost |
| AuthMigrate.DryRunExact | crates/cli/src/lib.rs:1449-1465 | a dry run changes nothing and reports exactly what a run whose writes work migrates |
| AuthMigrate.SecondRunIdle | crates/cli/src/lib.rs:1427-1473 | after a run whose writes work, a second run moves and changes nothing |
| Providers.AllListsEach | crates/config/src/provider_kind.rs:114-145 | the canonical order lists every provider exactly once |
| ModelRegistry.New | crates/agent/src/lib.rs:879-888 | the nested loops build the alias index |
| ModelRegistry.IndexExact | crates/agent/src/lib.rs:879-888 | looking a name up finds precisely the first model a linear scan would match, and nothing if none does |
| ModelRegistry.Resolve | crates/agent/src/lib.rs:908-1010 | resolution with its fallbacks computes `Resolved` |
| ModelRegistry.AnsweredExact | crates/agent/src/lib.rs:915-982 | what an answered request gets: the Ollama tag, the hinted provider's first model with that name, a passed-through id, or the first model with that name in the spelling asked for |
| ModelRegistry.FallbackExact | crates/agent/src/lib.rs:908-1010 | a fallback happens if and only if nothing is asked for, or nothing answers to it and it is not passed through |
| ModelRegistry.FallbackTakes | crates/agent/src/lib.rs:985-1009 | it takes the first model of the hinted provider or DeepSeek, else the first of all, else the built-in one, with the strategies tried in order |
| ModelRegistry.PassthroughExact | crates/agent/src/lib.rs:1086-1130 | which unlisted ids are passed through, and as what |
| ModelRegistry.ResultOrigin | crates/agent/src/lib.rs:908-1010 | a result is a listed model up to the case of its id, a passed-through id, or an Ollama tag |
| ModelRegistry.ReresolveStable | crates/agent/src/lib.rs:908-1084 | in a non-empty registry, resolving a result's id under its own provider never falls back and keeps the provider |
| ModelRegistry.SameModelExact | crates/agent/src/lib.rs:931-944 | a listed model comes back under its own id if and only if no earlier model of its provider answers to that id |
| ModelRegistry.ListedTakesOver | crates/agent/src/lib.rs:931-944 | a respelled id is answered by the registry's own entry |
| ModelRegistry.PassedComesBack | crates/agent/src/lib.rs:945-974 | an id that is passed through comes back as it was |
| ModelRegistry.OllamaComesBack | crates/agent/src/lib.rs:917-930 | so does every Ollama tag |
| ModelRegistry.ProviderForRequestExact | crates/app-server/src/chat_completions.rs:97-113 | a request goes to the provider of the first model that matches, and to the configured one exactly when none does |
| Decimal.NumeralValue | crates/cli/src/metrics.rs:844 | a printed number reads back |
| Thousands.FmtNum | crates/cli/src/metrics.rs:843-853 | pushing digits last to first and reversing puts a comma before every further three digits |
| Thousands.FmtNumExact | crates/cli/src/metrics.rs:843-853 | without its commas the text is the number's numeral, and its commas are exactly every fourth character from the right |
| Durations.ParseDurationSecs | crates/cli/src/metrics.rs:69-106 | the character loop computes `Scan` |
| Durations.DurationExact | crates/cli/src/metrics.rs:69-106 | a text is accepted with a value if and only if it is numerals with units, then perhaps a bare numeral, with that weighted sum, positive and within 64 bits |
| Durations.ClockTime | crates/cli/src/metrics.rs:77-90 | a text `1d2h3m4s` is (((1 * 24) + 2) * 60 + 3) * 60 + 4 seconds, for all numbers of each |
| Durations.BareSeconds | crates/cli/src/metrics.rs:95-99 | a bare number is a number of seconds |
| Durations.AcceptedAlphabet | crates/cli/src/metrics.rs:74-93 | nothing but digits and the four units is accepted |
| Durations.OverflowExact | crates/cli/src/metrics.rs:77-99 | the sum leaves 64 bits if and only if the text starts with numerals that each fit but whose weighted sum does not |
| Durations.ScanPrinted | crates/cli/src/metrics.rs:69-106 | a well-formed duration parses to its sum, and to no value when the sum is zero or too large |
| SessionMetrics.Rollup.TouchTs | crates/cli/src/metrics.rs:217-228 | the range grows just enough to hold the time |
| SessionMetrics.Rollup.WalkToolCalls | crates/cli/src/metrics.rs:472-525 | the nested loops add exactly the counted calls; what they come to per tool is `WalkCounts` |
| SessionMetrics.Rollup.ReadSessionFile | crates/cli/src/metrics.rs:418-540 | one file's effect, unreadable, malformed, filtered or taken in |
| SessionMetrics.Rollup.ReadSessionFiles | crates/cli/src/metrics.rs:394-416 | the directory loop folds the entries' effects |
| SessionMetrics.PendingExact | crates/cli/src/metrics.rs:484-500 | a use is pending if and only if it is the last event about its non-empty id |
| SessionMetrics.CountedExact | crates/cli/src/metrics.rs:495-520 | a result is counted, under a use's name, if and only if that use is the last event about its id |
| SessionMetrics.WalkExact | crates/cli/src/metrics.rs:472-525 | a tool's calls rise by successes plus failures, at most once per use of that name and once per result |
| SessionMetrics.WalkCounts | crates/cli/src/metrics.rs:472-525 | per tool: failures and successes rise by the numbers of results with and without an error whose id was last named by a use of it, elapsed time by what those uses took, samples by how many say so |
| SessionMetrics.EventExact | crates/cli/src/metrics.rs:483-500 | uses count in the assistant's messages, results in the user's, and nothing else |
| SessionMetrics.CompactionExact | crates/cli/src/metrics.rs:527-540 | compactions rise by the messages that mark one, and the ratio's sum and samples by those that state it |
| SessionMetrics.EntryExact | crates/cli/src/metrics.rs:408-470 | each kind of entry: unlisted, unreadable, malformed, older than the cutoff, or taken in; only the last reaches counters and range |
| SessionMetrics.ListingOrderIrrelevant | crates/cli/src/metrics.rs:394-416 | the whole rollup is the same for every order in which the files are listed |
| SessionMetrics.ReadAllConsistent | crates/cli/src/metrics.rs:394-540 | over every directory calls stay successes plus failures, counts stay within their bounds, and the range stays ordered |
| SessionMetrics.RangeExact | crates/cli/src/metrics.rs:217-228 | the range ends are the least and greatest of the times taken in and the ends before |
| ContentWatch.FindClosingRawTextTag | web/lib/content-watch.ts:164-173 | the loop finds the first closing tag and goes on behind its `>` |
| ContentWatch.AfterMarkupExact | web/lib/content-watch.ts:150-217 | in any text a `<` is skipped up to the next `>`, and a script or style element up to the `>` of its first closing tag, or to the end |
| ContentWatch.CollapseWhitespace | web/lib/content-watch.ts:175-188 | the loop with a pending space computes `Collapsed` |
| ContentWatch.CollapseExact | web/lib/content-watch.ts:175-188 | collapsing is splitting on white space, joining the words by single spaces, and trimming; the trim changes nothing if and only if the ends are not wider white space |
| ContentWatch.StripHtmlForPrompt | web/lib/content-watch.ts:190-217 | the loop ends on every input and computes `Prose`, cut to 8000 characters |
| ContentWatch.ProseIdempotent | web/lib/content-watch.ts:190-217 | before the cut stripping is idempotent and leaves no `<` |
| ContentWatch.StripIdempotentExact | web/lib/content-watch.ts:190-217 | with the cut it is idempotent if and only if the cut does not fall just after white space |
| ContentWatch.CutExample | web/lib/content-watch.ts:190-217 | 7999 letters, a space and a letter: a second pass drops the space |
| HtmlNodes.MarkupStripped | web/lib/content-watch.ts:190-217 | of printed markup exactly the text is left, with one space for each tag and each script or style element |
| HtmlNodes.PromptOfMarkup | web/lib/content-watch.ts:190-217 | the prompt gets the words of that text |
| UpstreamUrl.VersionedExact | crates/app-server/src/chat_completions.rs:138-167 | adding a version is idempotent, and taking it off forgets whether it had been added |
| UpstreamUrl.VersionSegmentExact | crates/app-server/src/chat_completions.rs:161-167 | a version segment is `v` or `V` with a numeral behind it, or `beta` in any case |
| UpstreamUrl.BaseFormIrrelevant | crates/app-server/src/chat_completions.rs:116-136 | the upstream URL does not depend on whether the base already carried its version |
| UpstreamUrl.TrailingSlashesIrrelevant | crates/app-server/src/chat_completions.rs:116-136 | nor on slashes after the base |
| UpstreamUrl.DefaultUrlExact | crates/app-server/src/chat_completions.rs:124-134 | the default URL ends in a numbered version and the chat path if and only if the trimmed base is not a bare version |
| UpstreamUrl.BareVersionExample | crates/app-server/src/chat_completions.rs:124-134 | `v1` as base gives `v1/chat/completions` |
| UpstreamUrl.DefaultShape | crates/app-server/src/chat_completions.rs:124-134 | a numbered version is kept, `beta` gives way to `v1`, and anything else gets `v1` |
| UpstreamUrl.SuffixReplacesVersion | crates/app-server/src/chat_completions.rs:118-123 | a path suffix takes the place of the version segment, whatever slashes stand at the joint |
| UpstreamUrl.SuffixAppended | crates/app-server/src/chat_completions.rs:118-123 | without a version segment it is put after the whole base |
| UpstreamUrl.BlankSuffixIgnored | crates/app-server/src/chat_completions.rs:118-123 | a suffix of white space only is no suffix |
| UpstreamUrl.SlashesSuffix | crates/app-server/src/chat_completions.rs:118-123 | one of slashes only leaves the base without its version, and one slash |

## Left out

- HTTP, process, file and rename internals: a network attempt, a store access, a write or a replacement has an
  outcome given from outside. The backup-and-restore of a running Windows binary is one such outcome.
- UTF-8, JSON and SHA-256 are parameters. JSON values are modelled by the fields the code reads, with its defaults.
- Unicode case beyond ASCII and text encodings: strings are sequences of characters. JavaScript strings are
  sequences of UTF-16 code units; the two scanners treat every unit above ASCII alike apart from white space.
- Widths of counters: `u64` counters and byte offsets are unbounded. The 64-bit sums of durations are not.
- Floating point: compaction ratios are reals, so the order of additions does not matter to them.
- Concurrency: one bridge handles its messages in order. Dropping a bridge and starting another, and the HTTP routes
  over shared configuration, are not modelled.
- Harness postures, the built-in profiles, the built-in model list and the table of provider names and ids:
  the theorems hold for any list and any table. A credential slot is named by the provider whose id it carries.
- Catalog rows carry their provider, wire id, names, limits, modalities and source; prices and reasoning
  settings travel along as one opaque value. Card labels are left out.
- RuntimeBridge.StdioWriter.Emit: a failed write appends nothing, so a partly written line is not modelled.
- RuntimeSdk.ParseEventStream: what the text decoder flushes at the end holds no line feed, as it is empty or a
  replacement character; the decoder itself is not modelled.
- SelfUpdate.Installation.RunUpdate: release lookup and the version comparison before the manifest download are not
  modelled, an asset's attempts are answered alike for every target that selects it, and the pause between attempts
  is left out.
- SelfUpdate.Installation.ReplaceBinary: the steps of an atomic rename are one outcome.
- AuthMigrate.MigrateProvider: DeepSeek's block and root key are stripped in memory as one effect.
- AuthMigrate.ConfigStore.WriteKey: the auth mode and default model that are set along with a key.
- Durations.ParseDurationSecs: a sum outside 64 bits is its own outcome; whether the program stops or wraps there
  depends on its build profile. The `now-` prefix and the clock are left out.
- SessionMetrics.Rollup.ReadSessionFiles: audit logs, runtime event logs, and the agent, capacity and credential
  counters they feed; directory entries that cannot be listed are skipped before the model starts.
- Listings by provider, counts and other short projections would only add easy members.
