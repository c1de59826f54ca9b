# Verified model of s3rp

s3rp is a multi-tenant reverse proxy in front of S3-compatible object stores. It verifies the signature of
each request, decodes the signed body, decides from user and bucket policies whether the request is allowed,
and forwards it with the backend's own credentials. This project models the parts of it whose correctness is
not visible from any single function, and proves what they promise for all inputs, all runs and all
interleavings. `dafny verify dfyconfig.toml` checks everything.

The main results, by component:

- **The aws-chunked body decoder** (`ChunkedFraming`, `ChunkedReader`, `ChunkedSafety`, `ChunkedRoundTrip`,
  `ChunkedChain`, `ChunkedEncode`). The reader is a class whose methods are each equal to a step on values. For
  every body, every declared length and every schedule of calls and short reads, what error-free calls hand out
  is the data of framed chunks on the verified signature chain plus a strict prefix of the chunk under way, which
  begins right behind the line that is its header; the bytes balance, and reaching the declared length or end of
  file means that the whole stream, its terminal chunk and its checksum trailer were verified (`DecoderIsSafe`).
  If only the sender's chunk texts were ever signed, what was delivered by then is exactly the sender's payload
  (`DeliveredIsSent`). Conversely every verified stream is decoded (`StreamIsDecoded`), so end of file is
  reachable exactly on verified streams (`EndReachedIff`), and encoding followed by decoding is the identity
  (`RoundTrip`).
- **The policy engine** (`Glob`, `Policy`, `PolicyParse`, `Authorization`, `DeleteObjects`). The wildcard loop is measured
  against the declarative meaning of a pattern; the fast evaluators against the plain one; the per-object
  authorizer against the single-request one, down to the recorded reason; the batch delete against filtering by
  `authorize`; and resolving through the visibility gate against authorizing alone. Parsing is modelled from the
  decoded JSON on, with the check of the actions as a last step that changes nothing but its own report
  (`CheckerOnlyReports`).
- **State machines under concurrency** (`Breaker`, `SignerCache`): the circuit breaker over every run of
  events, the signing-key cache over every interleaving of calls.
- **Canonicalization** (`Whitespace`, `Query`, `Canonical`, `Promote`): equal canonical texts come from equal
  requests, up to exactly the rearrangements the signature is meant to ignore.
- **Indexes, folds and paging** (`Config`, `Store`, `PostPolicy`, `ListBuckets`), ending with a statement from
  the configuration and an access key to the granted request (`ServedIffConfigured`).

Several promises are not met by the code on all inputs. The model keeps the code as it is and states exactly
where the promise holds:

- The matcher tries a literal comparison before the star, so a star in the value can consume a star of the
  pattern. It is always sound; it agrees with the meaning for every pattern exactly on star-free values
  (`ExactForEveryPatternIff`) and for every value exactly for star-free patterns (`ExactForEveryValueIff`).
  With the two cases in the other order it would be exact everywhere (`StarFirstIsExact`).
- `Decide` grants on an unknown effect while the Allow evaluator does not (`UnknownEffectDiverges`). The
  evaluators give `Decide`'s Allow except exactly where only statements of an unknown effect apply
  (`EvaluatorsAgreeIff`), so never on documents that were parsed.
- An Allow that a Deny shadows everywhere still counts as an Allow for `AlwaysDenies` (`ShadowedAllowCounts`);
  what it decides exactly is whether any Allow covers any resource (`AlwaysDeniesIff`).
- The per-object path attributes one family of refusals differently (`ReasonsAgreeIff`).
- The zero signing-key id hits an unwritten slot (`ZeroIdHitsEmptySlot`, `OwnKeyIff`); credentials that key
  lookup lets through never have it (`VerifierGetsOwnKey`).
- Two hoisted query parameters that name the same header are promoted in map order (`OrderFreeIff`).
- A bucket whose name contains a wildcard would have policies that reach beyond it (`ConfinedIff`); valid bucket
  names contain none (`BucketNameIsLiteral`), so the policies of an accepted configuration decide nothing
  outside their bucket (`PoliciesAreConfined`).

Conventions. Strings are `seq<char>`, one character per byte (per rune for patterns). Hash functions, key
derivation, time parsing and the checks of other packages are function-valued parameters, so every statement
holds for all of them. Code that loops or updates fields in the source is a method or a class here, proved
against a function on values; the properties are lemmas about that function. Functions on values that no theorem
would fix by itself have a lemma that says what they mean without naming their body (`...Iff`, `...Means`), down
to the literal operators, constants and texts.

## Model

| member | source | states |
|---|---|---|
| Glob.MatchRunes | policy/policy.go:827-852 | the loop computes `Match`, the function the lemmas are about, within (length of value + 1) times (length of pattern + 1) iterations, a refusing one included |
| Glob.SkipStars | policy/policy.go:848-851 | the trailing loop reaches the end exactly when only stars are left |
| Glob.ScanSound | policy/policy.go:827-852 | success from any loop state means the rest matches, or a later position of the remembered star does |
| Glob.MatchSound | policy/policy.go:816-852 | a reported match is a match in the declarative meaning, for all patterns and values |
| Glob.NewestStarSuffices | policy/policy.go:838-846 | whatever an earlier star could still reach, the newest star reaches too, so remembering one star loses nothing |
| Glob.ScanComplete | policy/policy.go:827-852 | on star-free values the loop finds every match still reachable from its state |
| Glob.MatchExactOnStarFreeValue | policy/policy.go:816-852 | on a value without stars the matcher decides exactly the meaning |
| Glob.MatchExactOnStarFreePattern | policy/policy.go:816-852 | for a pattern without stars the matcher decides exactly the meaning |
| Glob.StarredValueHasCounterexample | policy/policy.go:834-837 | every value with a star has a pattern that means a match and is refused |
| Glob.ExactForEveryPatternIff | policy/policy.go:816-852 | the matcher is exact for all patterns if and only if the value has no star |
| Glob.StarredPatternHasCounterexample | policy/policy.go:834-837 | every pattern with a star has a value it means and refuses |
| Glob.ExactForEveryValueIff | policy/policy.go:816-852 | the matcher is exact for all values if and only if the pattern has no star |
| Glob.StarFirstIsExact | policy/policy.go:832-846 | the same loop with the star case before the literal case decides the meaning of every pattern on every value |
| Glob.MatchesItself | policy/policy.go:816-852 | every pattern, read as a value, matches itself |
| Glob.LiteralFrontForced | policy/policy.go:816-852 | a wildcard-free front of a pattern must stand literally at the front of the value |
| Policy.MatchIndex | policy/policy.go:789-796 | the index is the first matching pattern, or -1 when none matches |
| Policy.MatchIndexRunes | policy/policy.go:783-796 | the loop over patterns finds that index |
| Policy.ConditionHoldsIff | policy/condition.go:151-164 | from a known address a condition holds exactly when the address is in some listed prefix, if any are listed, and in no excluded one; from an unknown one when no prefix is listed; an unreadable one for a Deny only |
| Policy.AppliesIff | policy/policy.go:513-549 | a statement applies exactly when it names the principal, its condition holds, some action pattern matches the action in any case, and some resource pattern matches the resource as it stands |
| Policy.Least | policy/policy.go:513-549 | the least applicable Deny, or the least applicable other statement, among the first n |
| Policy.DecideMeans | policy/policy.go:513-549 | the decision is Deny exactly when some Deny applies, nothing exactly when no statement applies, and names the first applicable statement of its kind |
| Policy.DecideLoop | policy/policy.go:513-549 | the evaluator's loop: first applicable Deny, else first applicable other statement, else no effect and -1 |
| Policy.DenyEvaluatorFor | policy/policy.go:575-609 | the two-pass builder gathers the resource patterns of the selected Deny statements, each with its statement |
| Policy.AllowEvaluatorFor | policy/policy.go:625-647 | the builder gathers the resource patterns of the selected Allow statements |
| Policy.GatheredIsLeast | policy/policy.go:575-609 | the first matching gathered pattern belongs to the least applicable Deny statement |
| Policy.GatheredAllows | policy/policy.go:625-647 | some gathered Allow pattern matches exactly when some Allow statement applies |
| Policy.DenyEvaluatorAgrees | policy/policy.go:699-722 | the Deny evaluator denies exactly when `Decide` is Deny and names exactly its statement |
| Policy.EvaluatorsAgreeIff | policy/policy.go:513-722 | on every document that can be evaluated, both evaluators together give `Decide`'s Allow if and only if it is not the case that only statements of an unknown effect apply |
| Policy.AllowEvaluatorAgrees | policy/policy.go:657-668 | with effects Allow and Deny only, both evaluators together give `Decide`'s Allow and its no-effect |
| Policy.UnknownEffectDiverges | policy/policy.go:513-549 | every effect other than Allow and Deny has a document in that case, granted by `Decide` and not by the evaluator |
| Policy.AlwaysAllowsIff | policy/policy.go:694-696 | no Deny pattern was gathered if and only if no resource at all is denied |
| Policy.AlwaysDeniesIff | policy/policy.go:652-654 | no Allow pattern was gathered if and only if no Allow statement applies to any resource; with known effects nothing is then allowed |
| Policy.ShadowedAllowCounts | policy/policy.go:652-654 | the converse of the last clause fails when a Deny shadows every Allow |
| Policy.AllowedIsMentioned | policy/policy.go:679-690 | whoever a validated document allows anything is mentioned by it |
| Policy.MentionedIff | policy/policy.go:679-690 | a validated document mentions a principal exactly by an Allow statement that names it, whatever its condition |
| Policy.TenantWildcardIsExact | policy/policy.go:771-781 | an entry naming all users of a tenant covers the users of that tenant and of no other |
| Policy.ValidateResourcesFor | policy/policy.go:226-236 | accepts exactly the documents whose resources are all the bucket or below it |
| Policy.WithinIff | policy/policy.go:226-236 | within a bucket are exactly the bucket itself and what has its name, a slash and a key |
| Policy.PatternStaysWithin | policy/policy.go:226-236 | a pattern within a wildcard-free bucket matches only resources within it |
| Policy.ConfinedWhenLiteral | policy/policy.go:513-549 | an accepted document decides nothing outside a bucket with a wildcard-free name, for every caller |
| Policy.WildcardNameEscapes | policy/policy.go:226-236 | a bucket name with a wildcard has an accepted document that grants outside the bucket |
| Policy.ConfinedIff | policy/policy.go:226-236 | documents are confined to their bucket if and only if its name has no wildcard |
| Policy.LeastUser | policy/policy.go:395-420 | the least user-policy statement with an effect that concerns the action |
| Policy.UserDecideMeans | policy/policy.go:395-420 | an action passes exactly without a policy, or when some Allow and no Deny concerns it; the statement named is the first of its effect that concerns the action, and -1 means that none does |
| Policy.UserDecideLoop | policy/policy.go:395-420 | the user policy's loop: no policy allows, else first Deny, else first Allow, else the implicit refusal |
| Policy.ConcernsIff | policy/policy.go:395-420 | a user-policy statement concerns an action exactly when some of its patterns matches it in any case |
| PolicyParse.ValidatePrincipal | policy/policy.go:320-333 | accepts exactly at most 100 entries, each a user or all users of a tenant |
| PolicyParse.ValidateActions | policy/policy.go:292-302 | accepts exactly 1 to 30 action patterns of the s3: form and bounded length |
| PolicyParse.ValidateStatement | policy/policy.go:270-318 | accepts exactly the statements that meet all structural rules and caps |
| PolicyParse.Validate | policy/policy.go:240-268 | accepts exactly documents of a known version with 1 to 20 valid statements and no name used twice |
| PolicyParse.WellFormedIff | policy/policy.go:240-318 | a document is valid exactly when it has a known version, 1 to 20 statements without a shared name, and every statement meets the rules: a known effect, one of the two principal forms, exclusion for a Deny only, and the caps in numbers |
| PolicyParse.ByteLengthIsUtf8 | policy/policy.go:74-76 | the length a cap applies to is that of the UTF-8 encoding |
| PolicyParse.CheckActionPattern | s3op/s3op.go:124-132 | a pattern is known exactly when it matches some authorized action, whatever the case |
| PolicyParse.UnknownIn | policy/policy.go:188-205 | the errors are exactly the unknown patterns with their statements |
| PolicyParse.CheckActions | policy/policy.go:188-205 | the nested loops collect them in order; without a checker nothing is reported |
| PolicyParse.Parse | policy/dialect.go:76-129 | size, decoding, structure, resources and actions in this order; unknown actions are reported only when nothing else is wrong |
| PolicyParse.ParsedIsValid | policy/dialect.go:117-128 | a parsed document is validated and all its resources refer to the bucket |
| PolicyParse.ParsesIff | policy/dialect.go:76-129 | without a checker a text parses exactly when it has at most 20 kilobytes and decodes to a well-formed document all of whose resources lie within the bucket, and to that document |
| PolicyParse.CheckerOnlyReports | policy/dialect.go:117-128 | a text is malformed with the checker exactly when it does not parse without it, and one with unknown actions only parses without it to the document whose actions were named |
| PolicyParse.UnknownNeverApplies | policy/policy.go:176-184 | a statement all of whose actions are unknown applies to no authorized action, for any caller and resource |
| PolicyParse.EntryIsExact | policy/policy.go:40-46 | a valid principal entry names exactly one user or exactly the users of one tenant |
| PolicyParse.StatementConcerns | policy/policy.go:757-781 | a valid statement concerns a user exactly when it is for everyone, lists the user or all users of the tenant, or excludes others only |
| PolicyParse.ValidateUserPolicy | policy/policy.go:432-458 | accepts exactly user policies within the caps with known effects, and reports the unknown actions |
| Authorization.GrantedIff | s3gw/bucketpolicy.go:24-45 | granted exactly when the user policy passes the action, no Deny applies, and a caller of another tenant has an Allow that applies |
| Authorization.RefusalExplained | s3gw/denyreason.go:81-102 | a refusal names its layer, principal and action: the user policy with the statement of its verdict, else the first Deny that applies with its name, else the missing Allow of a caller of another tenant |
| Authorization.BuildPerObject | s3gw/bucketpolicy.go:68-94 | the builder with its early returns gives the per-object authorizer the lemmas are about |
| Authorization.PerObjectRefines | s3gw/bucketpolicy.go:24-106 | the per-object authorizer refuses a resource exactly when `authorize` refuses it |
| Authorization.ReasonsAgreeIff | s3gw/bucketpolicy.go:111-120 | both paths record the same reason, except exactly when a cross-tenant caller matches no Allow for the action while a Deny matches |
| Authorization.AllowsEverythingIff | s3gw/bucketpolicy.go:126-128 | the shortcut applies exactly when the caller is of the owning tenant and no resource at all is refused |
| Authorization.GateChangesNoOutcome | s3gw/handler.go:323-345 | resolving through the visibility gate and authorizing grants exactly what authorizing the bucket of that name grants |
| Authorization.GateAnswers | s3gw/handler.go:323-345 | the gate hands out a bucket exactly when it is visible, fails exactly when a lookup it depends on failed, and refuses a hidden bucket exactly as one that does not exist |
| DeleteObjects.AddDenialAccounts | s3gw/denyreason.go:126-138 | adding a refusal keeps the summary exact: distinct statements, exact key counts, first reasons |
| DeleteObjects.SummaryAccounts | s3gw/denyreason.go:126-138 | for every list of refusals the summary counts each exactly once, under its (layer, statement) |
| DeleteObjects.SummaryMeans | s3gw/denyreason.go:126-138 | no two summary entries share layer and statement, each counts the refusals that share its own, its reason is the first of them, and every refusal has an entry |
| DeleteObjects.Op.constructor | s3gw/denyreason.go:118-121 | a new operation record has no refusals |
| DeleteObjects.Op.Add | s3gw/denyreason.go:126-138 | the update in place: the matching entry is incremented, or a new one appended |
| DeleteObjects.PartitionIsExact | s3gw/proxy.go:541-583 | the sent and the reported entries are together exactly the request, as a multiset |
| DeleteObjects.EntryVerdict | s3gw/proxy.go:541-565 | the authorizers, consulted or skipped, give for an entry exactly what `authorize` gives for its actions |
| DeleteObjects.PermittedIff | s3gw/proxy.go:544-565 | an entry goes through exactly when `authorize` grants s3:DeleteObjectVersion, or s3:DeleteObject without a version, and under a bypass s3:BypassGovernanceRetention as well |
| DeleteObjects.VersionsStayDenied | s3gw/proxy.go:544-565 | a user denied s3:DeleteObjectVersion gets every entry that names a version refused |
| DeleteObjects.RefusalIsOfFirstAction | s3gw/proxy.go:544-565 | the recorded refusal is that of the delete action, else that of the bypass, and equals that of a single request exactly outside the one family of `ReasonsAgreeIff` |
| DeleteObjects.SentAsAsked | s3gw/proxy.go:566-583 | a sent object has the key, the size, and exactly the version and preconditions the entry names |
| DeleteObjects.BuildAuthorizers | s3gw/proxy.go:515-540 | every authorizer an entry needs is built, and the check is skipped only when nothing can be refused |
| DeleteObjects.Judge | s3gw/proxy.go:544-565 | the loop body refuses exactly the entries `authorize` refuses, with that authorizer's reason |
| DeleteObjects.PartitionEntries | s3gw/proxy.go:541-583 | the loop completes exactly when every permitted entry's time parses, and then the batch is partitioned |
| DeleteObjects.BatchAccounts | s3gw/proxy.go:541-583 | for every completed batch: key counts add up to the errors, summary entries are distinct, nothing is lost |
| DeleteObjects.DeleteBatch | s3gw/proxy.go:497-583 | the handler: 1 to 1000 entries, the permitted ones in request order to the backend, one AccessDenied for every other |
| ChunkedFraming.LineLength | sigv4/chunked.go:356-374 | a line ends at its first newline |
| ChunkedFraming.ReadLineOf | sigv4/chunked.go:356-374 | every bounded line is read back, trimmed, with the rest untouched |
| ChunkedFraming.ReadLineSplits | sigv4/chunked.go:356-374 | a line that was read is a bounded line at the front of the input |
| ChunkedFraming.TrimRightCuts | sigv4/chunked.go:356-374 | a read line has lost all carriage returns and newlines at its end and nothing else |
| ChunkedFraming.TooLongIff | sigv4/chunked.go:79-84 | a line is refused as too long exactly when more than 8192 bytes come before its newline |
| ChunkedFraming.ParseSizeIff | sigv4/chunked.go:257-260 | a text is a size exactly when it is hexadecimal digits of that place value below 2^63 behind an optional sign, negative only for zero |
| ChunkedFraming.ParseHeaderIff | sigv4/chunked.go:256-273 | a line is a header exactly when it is a size, then possibly a chunk-signature extension, which a signed stream needs |
| ChunkedFraming.TrailerValueIff | sigv4/chunked.go:324-334 | a line carries the declared checksum exactly when its trimmed name is x-amz-checksum- and the algorithm in any case; the value is trimmed |
| ChunkedFraming.CutAt | sigv4/chunked.go:256-263 | cutting at the first separator loses nothing |
| ChunkedFraming.DrainPassesIff | sigv4/chunked.go:300-336 | draining passes if and only if the text is trailer lines up to a blank line or a clean end, every line of the declared checksum carries the digest, and one is there |
| ChunkedReader.Decoder.constructor | sigv4/chunked.go:97-117 | a new reader holds the whole body, the seed signature and the declared length |
| ChunkedReader.Decoder.Line | sigv4/chunked.go:356-374 | the byte loop reads exactly one bounded line |
| ChunkedReader.Decoder.CRLF | sigv4/chunked.go:338-350 | the separator step: both bytes consumed, or the error of a short or malformed one |
| ChunkedReader.Decoder.ChunkHeader | sigv4/chunked.go:246-273 | the header step: size and signature of the next chunk, or its error |
| ChunkedReader.Decoder.Verify | sigv4/chunked.go:277-296 | the verification step: on success the chain advances and the chunk hash restarts |
| ChunkedReader.Decoder.Trailers | sigv4/chunked.go:300-336 | the trailer step: drained, and checked when a checksum is declared |
| ChunkedReader.Decoder.Terminal | sigv4/chunked.go:209-228 | the terminal step behind the last data chunk |
| ChunkedReader.Decoder.Advance | sigv4/chunked.go:126-165 | the step in front of a chunk's data, with the refusal of a chunk beyond the declared length |
| ChunkedReader.Decoder.Close | sigv4/chunked.go:148-163 | the zero-size chunk met at a header: verified, complete, trailers drained |
| ChunkedReader.Decoder.Copy | sigv4/chunked.go:169-178 | bytes handed over leave the input, reduce what remains and feed both hashes |
| ChunkedReader.Decoder.Supply | sigv4/chunked.go:166-205 | the delivery step for any buffer size, any short read and an end reported with the data |
| ChunkedReader.Decoder.Complete | sigv4/chunked.go:189-203 | a completed chunk is verified at once, and the end of the stream with it when the length is exhausted |
| ChunkedReader.Decoder.Read | sigv4/chunked.go:119-205 | one call on the fields equals one step on values, errors being sticky |
| ChunkedReader.TruncationIsReported | sigv4/chunked.go:70-77 | a body that ends where more must follow is reported incomplete, and stays so |
| ChunkedSafety.NextChunkSafe | sigv4/chunked.go:126-165 | opening a chunk, or ending the stream, keeps the run safe |
| ChunkedSafety.CopySafe | sigv4/chunked.go:166-192 | delivering bytes keeps the run safe; completed chunks are on the verified chain |
| ChunkedSafety.TerminalSafe | sigv4/chunked.go:209-228 | a terminal step that passes means the body is a complete verified stream |
| ChunkedSafety.ReadSafe | sigv4/chunked.go:119-205 | every call, whatever its size and the transport's schedule, keeps the run safe |
| ChunkedSafety.RunIsSafe | sigv4/chunked.go:119-228 | every run of calls is safe |
| ChunkedSafety.DecoderIsSafe | sigv4/chunked.go:119-336 | for every body, length and run: delivered bytes are the data of chunks behind their header lines, on the verified chain but for a strictly partial last one; delivered + remaining + undecoded is the length; and the end implies a complete verified stream with that payload |
| ChunkedSafety.StreamIsAttested | sigv4/chunked.go:300-336 | among the trailer lines of a complete stream under a declared checksum one is of that name, and every one of that name carries the digest of the payload |
| ChunkedChain.SignedTextIsUnambiguous | sigv4/chunked.go:277-289 | the text a chunk signature covers determines the previous signature and the hash of the data |
| ChunkedChain.SignedTextParts | sigv4/chunked.go:281-288 | the signed text is exactly six lines: the scheme, the time, the scope, the previous signature, the hash of nothing and the hash of the data |
| ChunkedChain.OrderIsFixed | sigv4/chunked.go:277-296 | if only the sender's chunk texts were signed, verified chunks are the sender's, in the sender's order, without gaps |
| ChunkedChain.AcceptedIsSent | sigv4/chunked.go:119-296 | then a complete verified stream has exactly the sender's chunks and payload |
| ChunkedChain.DeliveredIsSent | sigv4/chunked.go:119-296 | and every run over any body that reaches the end has delivered exactly the sender's payload |
| ChunkedChain.DeliveredChunksAreSent | sigv4/chunked.go:119-296 | at every point of every run the completed chunks delivered are the sender's first chunks, and only the chunk under way follows |
| ChunkedRoundTrip.OpensNext | sigv4/chunked.go:126-165 | in front of a data chunk of a verified stream the reader opens it |
| ChunkedRoundTrip.DeliverFlows | sigv4/chunked.go:166-205 | inside a chunk every call with a buffer makes progress without error |
| ChunkedRoundTrip.StreamIsDecoded | sigv4/chunked.go:119-374 | every verified stream is decoded without error to exactly its payload, then end of file for ever |
| ChunkedRoundTrip.EndReachedIff | sigv4/chunked.go:119-374 | some run reaches end of file if and only if the body is a verified stream of the declared length |
| ChunkedEncode.SizeRoundTrip | sigv4/chunked.go:257-260 | every size below 2^63 written in hexadecimal is read back |
| ChunkedEncode.HeaderRoundTrip | sigv4/chunked.go:246-273 | a written header line is read back as its size and signature |
| ChunkedEncode.EncodedText | sigv4/chunked.go:19-20 | the encoding of a chunk, written out byte by byte with its header, separators and terminal chunk |
| ChunkedEncode.EncodeIsStream | sigv4/chunked.go:19-23 | the framed, chain-signed encoding of any split of any payload is a verified stream of that payload |
| ChunkedEncode.RoundTrip | sigv4/chunked.go:119-374 | decoding the encoding yields exactly the payload and then end of file, for every split, seed, signing function and read pattern |
| Breaker.ConsecutiveFailures.constructor | s3gw/breaker.go:170-175 | starts closed with no failures; a threshold below one counts as one |
| Breaker.ConsecutiveFailures.Allow | s3gw/breaker.go:179-199 | admits exactly as the step function says and moves to its state |
| Breaker.ConsecutiveFailures.Report | s3gw/breaker.go:202-218 | moves to the step function's state for a success or a failure |
| Breaker.ConsecutiveFailures.OpenNow | s3gw/breaker.go:220-222 | opens, stamping the time and forgetting the count |
| Breaker.ClosedIff | s3gw/breaker.go:136-222 | over every run, closed if and only if fewer than n attempts were reported since the last success, which the counter then equals |
| Breaker.LastMark | s3gw/breaker.go:179-222 | the event a cooldown is counted from, defined on the events without the breaker: it is one of them, or -1 |
| Breaker.LastMarkIsLast | s3gw/breaker.go:179-222 | it is an opening or a probe since the last success, and none comes after it |
| Breaker.BarrierIsLastMark | s3gw/breaker.go:179-222 | while tripped, the time admissions are measured from is the last mark, read off the events alone, and the breaker is half-open exactly when that mark is a probe |
| Breaker.AdmittedIff | s3gw/breaker.go:179-199 | an attempt is admitted if and only if the breaker is closed or a cooldown has passed since every opening and probe, reported or not |
| Breaker.AdmittedByLastMark | s3gw/breaker.go:179-199 | the same for any clock: an attempt is admitted exactly when no cooldown is in force or a full one has passed since the last mark |
| Breaker.FailedProbeReopens | s3gw/breaker.go:202-222 | after a failed probe an attempt is admitted exactly when a full cooldown has passed since the failure, however old the probe is |
| Breaker.SuccessCloses | s3gw/breaker.go:202-207 | after a reported success every attempt is admitted |
| Breaker.StaysTripped | s3gw/breaker.go:202-222 | only a reported success closes a tripped breaker |
| Breaker.ProbesAreSpaced | s3gw/breaker.go:179-199 | from an opening to the next success, admissions come at least a cooldown after it and after each other |
| SignerCache.Signers.constructor | sigv4/signer.go:56-61 | a new cache has at least one slot, all unwritten |
| SignerCache.Signers.Store | sigv4/signer.go:93-100 | the slot is replaced and a foreign key's loss counted |
| SignerCache.InstallMeans | sigv4/signer.go:93-100 | after a store the key is found under its id, slots of other hashes are as before, and exactly the loss of an entry of another access key counts as a displacement |
| SignerCache.Signers.Get | sigv4/signer.go:66-102 | an undisturbed call counts once as hit or miss and returns the key of its own id; a miss derives and stores it, a hit and a failed derivation change no slot |
| SignerCache.RunKeepsKeys | sigv4/signer.go:66-102 | in every interleaving every written slot and every returned key belongs to its id |
| SignerCache.ReturnsOwnKey | sigv4/signer.go:66-102 | in every interleaving a call with a non-zero id that returns, returns the key derived from its own id |
| SignerCache.VerifierGetsOwnKey | sigv4/sigv4.go:240-263 | for every credential that key lookup lets through the id is not zero, so the call returns its own key in every interleaving |
| SignerCache.ZeroIdHitsEmptySlot | sigv4/signer.go:66-75 | a call with the zero id hits an unwritten slot and returns no key |
| SignerCache.OwnKeyIff | sigv4/signer.go:39-102 | the promise holds for an id if and only if the id is not zero (or its key is empty anyway) |
| SignerCache.OnlySuccessStores | sigv4/signer.go:81-102 | only a call returning its key changes a slot; a failed derivation changes nothing |
| SignerCache.CountersAddUp | sigv4/signer.go:66-102 | in every interleaving each call is counted once as hit or miss, and displacements never exceed misses |
| Ordering.AscendingUnique | sigv4/canonical.go:43-63 | two strictly ascending lists of the same names are equal |
| Ordering.LessIff | sigv4/canonical.go:43-63 | one name is before another exactly when it is a proper beginning of it or smaller in the first byte in which they differ |
| Ordering.FirstDifferenceDecides | s3gw/proxy.go:657 | behind a common beginning the first different byte decides the order |
| Ordering.SortCanonical | sigv4/canonical.go:124-133 | sorting gives equal results exactly for permutations |
| Ordering.SortAscends | s3gw/proxy.go:657 | distinct names sort into a strictly ascending list |
| Whitespace.CollapseWhitespace | sigv4/canonical.go:173-194 | both paths compute `Collapse` |
| Text.TrimSpaceCuts | sigv4/canonical.go:174 | trimming takes white space off both ends, all of it and nothing else |
| Text.SpaceRuneIff | sigv4/canonical.go:174 | the bytes taken for white space are exactly the UTF-8 encodings of the white-space runes |
| Whitespace.FastPathIsLoop | sigv4/canonical.go:173-194 | the shortcut gives what the loop would |
| Whitespace.CollapseIsWords | sigv4/canonical.go:169-194 | the canonical value is the words of the trimmed value, one space apart |
| Whitespace.CollapseHasNoRuns | sigv4/canonical.go:169-194 | the canonical value has no tab and no two spaces side by side |
| Whitespace.CollapseEqualIff | sigv4/canonical.go:169-194 | two values have the same canonical form if and only if they have the same words |
| Whitespace.CollapseIdempotent | sigv4/canonical.go:169-194 | canonicalizing twice is canonicalizing once |
| Query.EncodeQuery | sigv4/canonical.go:124-133 | the loops over keys and values, in any map order, write the canonical query |
| Query.CollectKeys | sigv4/canonical.go:124-133 | keys collected in any order sort into the one canonical order |
| Query.ItemsEqualIff | sigv4/canonical.go:124-133 | the canonical order of pairs depends on them exactly up to permutation |
| Query.EscapeInTwoSteps | sigv4/canonical.go:121-133 | form escaping followed by turning plus signs into %20 is the canonical escape |
| Query.EscapeInjective | sigv4/canonical.go:121-133 | distinct byte strings have distinct escapes |
| Query.CanonicalQueryText | sigv4/canonical.go:124-133 | the canonical query is the sorted kept pairs, escaped, on one line |
| Query.CanonicalQueryMeans | sigv4/canonical.go:121-133 | the canonical query is the pairs that count, ascending by key and then value, each as escaped key, equals sign and escaped value, with ampersands between them |
| Query.EscapeMeans | sigv4/canonical.go:121-133 | an escape is the unreserved characters as they stand and every other byte as a percent sign and two capital hexadecimal digits |
| Query.CanonicalQueryEqualIff | sigv4/canonical.go:124-133 | two queries canonicalize alike if and only if their pairs apart from the dropped key are permutations |
| Canonical.CheckSignedHeaderList | sigv4/canonical.go:43-63 | accepts exactly the strictly ascending lists of non-empty lower-case names that include host and not authorization |
| Canonical.AcceptedListIsUnique | sigv4/canonical.go:43-63 | accepted lists equal as sets are equal as lists |
| Canonical.TypicalListIsGood | sigv4/canonical.go:43-63 | the list of host and x-amz-date is accepted |
| Canonical.CanonicalKeyFolds | sigv4/canonical.go:137-167 | a header's map key is its name up to case |
| Canonical.CanonicalKeyShape | sigv4/canonical.go:137-167 | in the key of a token no small letter starts a word and no capital stands inside one; other names stay as they are |
| Canonical.DecimalReads | sigv4/canonical.go:147-152 | the written content length reads back as the number, without leading zeros |
| Canonical.HeaderValueMeans | sigv4/canonical.go:137-167 | the canonical value is the collapsed effective host, a content length that is in no header, or the collapsed stored values with commas between them, and nothing when none is stored |
| Canonical.CanonicalHeaderValue | sigv4/canonical.go:137-167 | host, content length and stored headers resolve to their collapsed values joined by commas, a missing one being an error |
| Canonical.Fields | sigv4/canonical.go:82-91 | one field per signed name with its canonical value, or a missing name |
| Canonical.BuildCanonicalRequest | sigv4/canonical.go:69-97 | the string builder writes the canonical request, or reports a missing header |
| Canonical.LinesUnique | sigv4/canonical.go:82-94 | the header block can be read back in one way only |
| Canonical.PartsAreUnambiguous | sigv4/canonical.go:69-97 | equal texts have equal parts |
| Canonical.CanonicalRequestIsUnambiguous | sigv4/canonical.go:69-97 | equal canonical requests come from equal method, path, canonical query, header list, header values and payload hash |
| Canonical.CanonicalRequestLines | sigv4/canonical.go:69-97 | the canonical request is, line by line, method, path, query, one line per signed header in list order, an empty line, the list and the payload hash |
| Canonical.SameHost | sigv4/canonical.go:137-167 | equal canonical requests that sign the host have the same words in their effective host |
| Canonical.SameWords | sigv4/canonical.go:137-194 | equal canonical requests have the same words in every signed header that is stored once |
| Canonical.SameTextSameParameters | sigv4/canonical.go:69-133 | and from the same decoded query parameters up to order |
| Promote.PromoteHoistedQueryParams | sigv4/sigv4.go:556-577 | the loop over the parameters, in any order, writes the promoted headers and reports exactly the covered names |
| Promote.PromotableIff | sigv4/sigv4.go:556-567 | the promoted parameters are exactly those that begin with x-amz- in any case and are not among the seven that authenticate the request |
| Promote.SameHoistedPromotesSame | sigv4/sigv4.go:556-577 | the same hoisted parameters promote the same headers whatever the traversal |
| Promote.PromotionFollowsSignature | sigv4/sigv4.go:543-577 | requests with the same canonical query promote the same headers and cover the same names, unless two parameters name one header |
| Promote.CollisionShowsOrder | sigv4/sigv4.go:556-577 | two parameters naming one header make the result depend on the traversal |
| Promote.OrderFreeIff | sigv4/sigv4.go:556-577 | promotion is independent of the traversal if and only if no two parameters name the same header |
| ListBuckets.Search | s3gw/proxy.go:659-662 | on any sorted list bisection finds the first name behind the token |
| ListBuckets.ListBuckets | s3gw/proxy.go:640-671 | an out-of-range or malformed page size is refused; otherwise the page behind the token, with a token exactly when more follows |
| ListBuckets.TokenContinues | s3gw/proxy.go:658-662 | a token continues exactly behind the name it repeats |
| ListBuckets.PagesExist | s3gw/proxy.go:640-671 | following tokens terminates |
| ListBuckets.PagesCover | s3gw/proxy.go:640-671 | from any continuation the pages are exactly the rest of the sorted list |
| ListBuckets.PagingIsComplete | s3gw/proxy.go:640-684 | for distinct non-empty names and every page size, following tokens ends and the pages are the sorted list, each name once |
| ListBuckets.PageIgnoresStoreOrder | s3gw/proxy.go:653-657 | a page does not depend on the order the store lists names in |
| ListBuckets.ChangingStoreIsListed | s3gw/proxy.go:640-684 | when names are added or removed between pages, a completed traversal is ascending, lists nothing that was never there, and lists every name present throughout exactly once |
| PostPolicy.ParseArray | sigv4/postpolicy.go:225-255 | an accepted range is ordered, non-negative and within int64, an accepted condition has a known operator |
| PostPolicy.BoundsIff | sigv4/postpolicy.go:242-249 | an array is a range condition with these bounds exactly when its elements are the operator in any case and those two numbers, ordered and not negative |
| PostPolicy.CondIff | sigv4/postpolicy.go:231-241 | an array is a field condition exactly when its elements are a known operator in any case, a name behind a dollar sign and that value |
| PostPolicy.RangesSaid | sigv4/postpolicy.go:190-216 | the ranges of a document are exactly those some element says |
| PostPolicy.ConditionsSaid | sigv4/postpolicy.go:190-216 | the conditions of a document are exactly those some element says, an object saying equality for each of its members |
| PostPolicy.FoldIsIntersection | sigv4/postpolicy.go:207-210 | a size lies in the folded range if and only if it lies in every range condition |
| PostPolicy.EmptyFoldIff | sigv4/postpolicy.go:217-219 | the folded range of a document is empty if and only if no size satisfies all its range conditions |
| PostPolicy.ParsePostPolicy | sigv4/postpolicy.go:170-221 | accepts exactly documents with an expiration that parses and not too many, usable, non-contradictory conditions; the result is the expiration, the folded range and the conditions in order |
| PostPolicy.EvaluatePostPolicy | sigv4/postpolicy.go:261-294 | accepts exactly when every condition holds and every field that needs one is named, independent of order |
| PostPolicy.AcceptsIff | sigv4/postpolicy.go:261-294 | a form is accepted exactly when it meets every condition some element says and every field but the policy and its signature is named by one |
| PostPolicy.LengthBoundedBody.constructor | s3gw/postobject.go:258-262 | a new body has counted nothing |
| PostPolicy.LengthBoundedBody.Read | s3gw/postobject.go:264-272 | counts what was read, fails as soon as the count exceeds the maximum, and passes on how the wrapped read ended otherwise |
| PostPolicy.PutObject | s3gw/postobject.go:274-332 | an upload is reported stored exactly when the backend did not give up, the file was read to its end and its size is in the range; too small and too large are told apart |
| PostPolicy.SizePermittedIff | sigv4/postpolicy.go:207-219 | the folded range permits exactly the sizes within int64 that lie in every range condition |
| PostPolicy.PostObject | sigv4/postpolicy.go:140-150 | from the elements of the document to the backend: stored exactly when there are at most 100 elements, all understood, the document has not expired, elements and form cover each other, the size meets every range element and int64, and the transfer completes; the invalid, expired and denied answers exactly as promised |
| Config.TargetEqualIff | config.go:284-289 | for endpoints without NUL, equal target strings mean the same endpoint and bucket once defaults are set |
| Config.TenantsAreIsolated | config.go:282-293 | in a sound configuration no two tenants share an endpoint and bucket once defaults are set |
| Config.BucketNameIsLiteral | store/validate.go:26-41 | a valid bucket name contains no wildcard |
| Config.UsersFitStep | config.go:212-224 | what one more user adds to the unique names and ids |
| Config.BucketsFitStep | config.go:228-232 | what one more bucket adds to the unique names and owned targets |
| Config.SoundStep | config.go:157-168 | the incremental checks on one more tenant decide soundness of all tenants so far |
| Config.SoundPrefix | config.go:157-168 | a prefix of a sound configuration is sound, so refusing early is right |
| Config.SoundMeans | config.go:208-306 | what every accepted tenant has: users with distinct names free of slashes and wildcards, complete keys, bounded policies, and buckets with bounded names, checked endpoints and both or neither of the backend credentials |
| Config.ReportedIff | config.go:194-206 | the reports are exactly the unknown actions named in the policy of some user or bucket, under its tenant and its name |
| Config.Names.constructor | config.go:152-156 | nothing has been seen |
| Config.Names.SplitUnknownActions | config.go:194-206 | unknown actions are recorded and set aside, every other failure stands |
| Config.Names.ValidateUser | config.go:236-263 | accepts exactly users whose keys are complete and new everywhere and whose policy is valid, recording the ids |
| Config.Names.ValidateUsers | config.go:208-224 | accepts exactly non-empty user lists with distinct valid names that all fit |
| Config.Names.ValidateBucket | config.go:265-306 | accepts exactly valid buckets with a new name and a target no other tenant owns, claiming it |
| Config.Names.ValidateBuckets | config.go:225-233 | accepts exactly non-empty bucket lists that fit, recording names and owners |
| Config.Names.ValidateTenant | config.go:208-234 | a tenant is accepted exactly when its users and buckets fit what was seen before |
| Config.Validate | config.go:144-171 | the verdict is other than invalid if and only if the configuration is sound; then it carries exactly the unknown actions of all policies, in order, and none means valid |
| Store.AddBuckets | store.go:26-48 | both maps receive exactly the tenant's buckets; a policy that does not parse panics |
| Store.AddKeys | store.go:50-64 | the key map receives exactly the tenant's keys |
| Store.NewConfigStore | store.go:19-67 | panics exactly on a policy that does not parse; otherwise builds the three maps of the configuration |
| Store.SoundNeverPanics | store.go:36-45 | on a sound configuration, validated with the action checker, every policy parses without it |
| Store.PolicyIsValid | store.go:36-45 | every policy handed out was validated and refers only to its own bucket |
| Store.PoliciesAreConfined | store.go:36-45 | the policies of a sound configuration decide nothing outside their own bucket, for any caller |
| Store.IndexIff | store.go:46-63 | with distinct names no row overwrites another, so a map lookup is membership |
| Store.KeyLookupIsSearch | store.go:71-76 | on a sound configuration a key lookup finds a key exactly when some user of some tenant holds it, with its secret, the names of both and the user's policy |
| Store.BucketLookupIsSearch | store.go:78-83 | a lookup within a tenant finds a bucket exactly when that tenant configures it under the name, with its backend and its parsed policy |
| Store.NameLookupIsSearch | store.go:85-90 | a lookup by name finds exactly the one bucket of that name |
| Store.ViewIsCoherent | store.go:78-90 | the two bucket lookups of a sound configuration never disagree and hand out validated policies |
| Store.GrantedIffConfigured | s3gw/handler.go:323-345 | a request is granted if and only if the configuration has the bucket and `authorize` grants it |
| Store.GrantsIffEntitled | s3gw/bucketpolicy.go:24-45 | `authorize` grants what a key asks of a bucket exactly when the configuration entitles its user: the user's policy passes the action, no Deny of the bucket's policy applies, and the bucket is of the user's tenant or an Allow applies |
| Store.ServedIffConfigured | s3gw/auth.go:113-127 | end to end, in terms of the configuration alone: a request whose signature verified under an access key is served if and only if some user holds the key and is entitled by a configured bucket of that name |

## Left out

- Hash functions, HMAC, checksum arithmetic, base64, JSON, XML, YAML and time parsing are parameters or already-decoded inputs; constant-time comparison is equality.
- The verification of an x-amz-trailer-signature line is not modelled, because the decoder does not read one.
- Case folding is ASCII: `strings.ToLower` and `EqualFold` on other runes are not modelled.
- Address prefixes in policy conditions are sets of addresses; prefix arithmetic and unmapping of IPv4-in-IPv6 addresses are not modelled.
- JSON decoding of policy documents is a parameter, and only the default dialect is modelled.
- The regular expressions for names are written out as predicates; endpoint and CORS checks, the list of authorized actions and the serialized size of a user policy are parameters of the configuration model.
- The path part of the canonical request (canonicalURI) is an input; the derivation and comparison of the final signature are not modelled.
- Integer counters of the signing-key cache, the breaker and the refusal summary are unbounded; their wrap-around is not modelled. Chunk sizes and policy ranges are bounded by 2^63 as in the source.
- Locks are modelled by the atomic steps they protect; memory-model effects below that are not modelled.
- The operation record of a batch delete always exists here; the source skips the summary when there is no observer.
- Policy compilation into rune slices and its once-only guard, and the two-rune-slice variants of the evaluators, are identified with the string forms.
- Pass-through fields (creation dates, owner display names, regions and credentials of backends) and defaults set before validation, other than the effective bucket, are left out.
- The backend calls, response headers, XML, routing, multipart, copy, tagging, versioning and object-lock handlers, the backend client cache, metrics, observers and the command line are left out: they are plumbing over unseen libraries.
- Error wording is left out; error kinds that callers distinguish are kept.
- ChunkedEncode.RoundTrip: assumes the checksum name and digest are ASCII without white space, colon or line break, as base64 digests and algorithm names do.
- ChunkedChain.DeliveredIsSent: the strength of the signature and of the hash is a hypothesis about the chunks at hand (`OnlySigned`), since both functions are parameters; that no signature repeats is a hypothesis as well.
- ChunkedRoundTrip.StreamIsDecoded: a call with an empty buffer, or one the transport leaves without data, makes no progress, so only calls that offer a buffer and find data are counted.
- Query.CanonicalQueryEqualIff: characters of parameters are bytes (below 256), as in the source's strings.
- SignerCache.Signers.Get: describes a call that is not disturbed; interleavings are the subject of SignerCache.RunKeepsKeys and the lemmas after it.
- PostPolicy.PostObject: authorization of the upload, between the policy and the put, is the subject of the Authorization module; that a delete after a too small upload may itself fail is not modelled.
- ListBuckets.ChangingStoreIsListed: speaks of completed traversals; a store that keeps growing behind every token need not let one complete.
