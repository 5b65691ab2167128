# OpenDBSC in Dafny

OpenDBSC is a server for Device Bound Session Credentials: a login issues a challenge, the
browser answers it with a signed JWT that binds the session to a key, and later refreshes
answer one challenge after another with the same key. This project models the parts of the
server where that protocol lives, and proves what they promise.

`dafny verify dfyconfig.toml` checks everything.

## How it is laid out

| file | what it models |
|---|---|
| `Sessions.dfy` | the session record, its setters and its copy routine, each of which may run out of memory |
| `StoreSpec.dfy`, `MemoryStore.dfy`, `StoreLaws.dfy`, `PurgedRoom.dfy` | the in-memory store: a growing array with swap-with-last removal, refined to a finite map; what lazy expiry shows to callers |
| `Base64Bits.dfy`, `Base64Url.dfy`, `Base64Laws.dfy`, `Jwt.dfy` | base64url and what its texts denote, splitting and decoding a compact JWT, the acceptance rules for the two kinds of proof |
| `Scanning.dfy`, `Header.dfy`, `HeaderLaws.dfy`, `HeaderReading.dfy` | quoting, unquoting and the measure-then-write serializers, and what their texts say when read back |
| `Skipped.dfy`, `SkippedGrammar.dfy`, `SkippedLaws.dfy` | the Secure-Session-Skipped list: serializer and parser, the grammar that the parser accepts, and the round trips |
| `Http.dfy`, `SetCookie.dfy`, `SetCookieLaws.dfy` | the Cookie scanner, the Set-Cookie builder, and the cookie read back |
| `Protocol.dfy`, `Manager.dfy` | the four handlers, as functions on the session map and as methods that mutate a fetched session on top of the in-memory store |
| `Answers.dfy` | what every handler answers and stores, written out for every request and failure |
| `Effects.dfy`, `Runs.dfy`, `RunLaws.dfy` | whole runs of atomic handlers: lifecycle, single use, expiry, challenge agreement, provenance |
| `Interleaving.dfy`, `InterleavingLaws.dfy`, `InterleavingHistory.dfy`, `Races.dfy` | the same handlers when other handlers may run between their two store operations |
| `RedisSpec.dfy`, `RedisIndex.dfy`, `RedisStore.dfy` | the Redis store: keys with deadlines, a set of identifiers per user, and get and delete that call each other |

Where the source changes things step by step, the model does too: methods with loops over
arrays and class fields are proved against functions, and the laws are lemmas about those
functions. A C string is the text before its terminator; a nullable pointer is an `Option`.
Clock readings, generated identifiers and challenges, and the success of each allocation
are arguments, so the results hold for every choice of them. JSON parsing and signature
verification are two arbitrary functions (`Jwt.Foreign`).

## Two granularities

The server runs one event loop (src/wrapper/http.c:430-437), so a handler is one atomic
step there; `Protocol.Apply` is that step and `Runs.Run` any sequence of such steps. The
store itself locks one operation at a time, so an embedding with several threads gets less:
`Interleaving.Next` is one store operation, and a register, refresh or close that has done
its get waits with a private copy. `InterleavingLaws.SerialRefines` shows that the first is
a special case of the second. Trace safety, single use, challenge agreement and the status
of an answer are stated for atomic handlers; identity and one-way state, the loose and the
strict lifecycle, single use, the key, expiry and provenance also for any interleaving
(`Interleaving.NeverBack`, `InterleavingLaws`, `InterleavingHistory`).

Freshness of identifiers and challenges is an explicit hypothesis where it is used. The
constant that stands in when the system has no entropy (src/manager/manager.c:70-72) breaks
it; `RunLaws.ReplayIff` says what then happens.

## Where the code does less than one might expect

Each of these is stated with the exact condition, and with a run or an input that shows it.

- A handler ignores a failed duplication of the new challenge (src/manager/manager.c:401,
  489), and the accepted proof can then be replayed (`Races.ReplayedRefresh`). Over any run no
  jti is accepted twice exactly when no proof is accepted for a session whose last acceptance
  failed that way (`Runs.SingleUseIff`).
- A login ignores it as well (src/manager/manager.c:273). A later registration then compares
  its proof with a null string (`Races.NullComparison`), exactly when the proof verifies and
  the session, live, had such a login (`RunLaws.RunUndefinedIff`).
- A registration ignores a failed duplication of the key or the algorithm
  (src/manager/manager.c:392-393), and may leave a session without a key although its proof
  was signed (`Races.SignedWithoutKey`). Which key and algorithm a bound session has, and
  when "no key" means "none", depends on that one registration (`RunLaws.BoundProvenance`).
- With concurrent handlers one challenge can be accepted twice (`Races.TwoRegistrations`): not
  at all exactly when every accepting handler still finds the challenge it had read, on a
  session that is not stale (`InterleavingLaws.SingleUseIff`). One key can replace another: not
  at all exactly when no register finishes, with another key or algorithm, on a session that
  is bound by then (`InterleavingLaws.KeyStaysIff`). REGISTER and CLOSE can happen twice
  (`Races.TwoRegistrations`, `Races.TwoCloses`); the events follow the strict lifecycle exactly
  when every register that finishes still finds its session active and no close finishes
  after another (`InterleavingLaws.StrictIff`).
- Lazy expiry shows in the in-memory store in two ways: `update` acts on dead sessions that
  happen not to be purged, and a `create` depends on the room that a purged session leaves
  (`PurgedRoom.PurgeMakesRoom`). `StoreLaws.OneStepLaziness` and `StoreLaws.LazinessIff` say
  when, for one operation and for sequences.
- The cookie search ends at the first cookie without '=' (`SetCookie.BareCookieHides`).
- The serializer of the skipped list leaves its one byte unterminated for an empty list,
  while include/protocol/header.h:113-114 promises an empty string (`Skipped.SerializeSkipped`).
- The parser of that list fails on malformed text, while include/protocol/header.h:166-168
  mentions only null arguments and memory. `SkippedGrammar.ParseIff` gives the language that
  it accepts and what each text means; `SkippedGrammar.Refused` a text outside it.
- The Redis get and delete call each other until the key is gone. The depth is at most two
  exactly when the deadline lies before the second in which the session is seen to be
  expired (`RedisSpec.ShallowIff`), which a create achieves exactly when the expiry lies in the
  future and the clock was read in the second of the SET (`RedisSpec.CreateGuardedIff`).
- A Redis create that moves an identifier to another user leaves the old user's set pointing
  at it (`RedisIndex.CreateSettledIff`, `RedisIndex.OwnerChange`).
- The Redis delete ignores lost commands; a readable session leaves its set exactly when its
  DEL is lost and its SREM is not (`RedisIndex.DeleteIndexedIff`).

## Model

| member | source | states |
|---|---|---|
| `Sessions.SessionStruct.SetString` | src/session/session.c:68-81 | a setter that cannot duplicate its argument keeps the old value; clearing never fails |
| `Sessions.SessionStruct.SetExpiresAt` | src/session/session.c:235-241 | a zero timestamp means no expiry |
| `Sessions.SessionStruct.CopyFrom` | src/session/session.c:264-276 | success exactly when every present string can be duplicated, and then the copy is equal; a failed copy is a proper part of the original |
| `MemoryStores.SwapRemovedMap` | src/store/memory.c:112-118 | moving the last slot into the hole removes exactly one identifier from the map, and keeps identifiers unique |
| `MemoryStores.OverwriteMap` | src/store/memory.c:153-160 | overwriting a slot changes that identifier only; a slot blanked by a failed copy is in no entry of the map |
| `MemoryStores.MemoryStore.Find` | src/store/memory.c:92-102 | the index of the identifier, or -1 exactly when the map does not have it |
| `MemoryStores.MemoryStore.Grow` | src/store/memory.c:63-80 | growth keeps every session, and a failed one changes nothing |
| `MemoryStores.MemoryStore.RemoveAt` | src/store/memory.c:112-118 | one session leaves the array and the map loses its identifier |
| `MemoryStores.MemoryStore.Expire` | src/store/memory.c:127-136 | the loop that stays in place after a swap still visits every slot: with a clock that moves on at every slot, none that was dead at the start remains and none that is alive at the end is lost |
| `StoreSpec.PurgedAtOnce` | src/store/memory.c:127-136 | within one second that is exactly: the sessions alive then remain |
| `MemoryStores.MemoryStore.Create` | src/store/memory.c:143-181 | refines insert-or-overwrite: a failed insert changes nothing, a failed overwrite drops exactly that key, all other keys stay |
| `MemoryStores.MemoryStore.Get` | src/store/memory.c:186-227 | returns an equal copy of a live session; a dead one is removed and not returned |
| `MemoryStores.MemoryStore.Update` | src/store/memory.c:232-257 | overwrites what is present, dead or alive, and never inserts |
| `MemoryStores.MemoryStore.Delete` | src/store/memory.c:262-277 | the identifier is gone; deleting an absent one succeeds |
| `MemoryStores.MemoryStore.CountMatches` | src/store/memory.c:295-303 | the counting loop finds as many slots as there are matches |
| `MemoryStores.MemoryStore.FillMatches` | src/store/memory.c:317-333 | the filling loop writes exactly the matches, in order, into exactly the slots that were counted, if and only if each of those copies succeeds |
| `MemoryStores.MemoryStore.GetByUserId` | src/store/memory.c:282-339 | purges, then lists each remaining session of the user once; fails exactly when there is a match and the result or one of the copies finds no memory |
| `MemoryStores.MemoryStore.ListMatches` | src/store/memory.c:297-338 | the part after the purge, which changes nothing stored |
| `MemoryStores.MemoryStore.DeleteByUserId` | src/store/memory.c:344-365 | removes every session of the user, expired or not, and nothing else |
| `MemoryStores.MatchesEnumerate` | src/store/memory.c:297-333 | the slots of one user list that user's part of the map, each session once |
| `MemoryStores.EnumerationsArePermutations` | src/store/memory.c:317-335 | two listings of the same sessions differ in order only |
| `StoreLaws.StepReturns` | src/store/memory.c:143-365 | what every operation returns, in terms of the sessions that readers see and of what is there |
| `StoreLaws.StepSeen` | src/store/memory.c:143-365 | what readers see after every operation: the one session or the one user it is about changes as it should, and no other |
| `StoreLaws.OneStepLaziness` | src/store/memory.c:143-181 | two stores with the same live sessions answer an operation alike, and stay alike, exactly when it is not an update of an identifier that only one of them still holds, nor a create that only one of them has a slot for |
| `StoreLaws.LazinessIff` | src/store/memory.c:127-136 | over any sequence of operations at non-decreasing times, all answers are alike exactly when no operation is of that kind when it comes |
| `PurgedRoom.PurgeMakesRoom` | src/store/memory.c:63-80 | of two full arrays with the same live sessions, the one whose dead session a get has purged takes a new session without growing, the other does not |
| `StoreLaws.LazyExpiryInvisible` | src/store/memory.c:186-227 | no sequence of gets, deletes, listings, deletions by user and creates that find room shows what was purged |
| `StoreLaws.PurgeInvisible` | src/store/memory.c:127-136 | purging the dead at any time changes none of those answers |
| `StoreLaws.UpdateSeesTheDead` | src/store/memory.c:232-257 | an update brings back a dead session that is still in the array, and fails on one that was purged |
| `Base64Url.RoundTrip` | src/protocol/jwt.c:44-142 | decoding the encoding of any non-empty bytes gives them back (section 5 of RFC 4648) |
| `Base64Url.EncodeShape` | src/protocol/jwt.c:114-142 | encoded length is the ceiling of 4n/3, without padding, in the url alphabet |
| `Base64Url.Canonicity` | src/protocol/jwt.c:56-103 | unpadded text of length 1 mod 4 is rejected, any other gives floor(3n/4) bytes, and re-encoding gives the text back exactly when its unused bits are zero (section 3.5 of RFC 4648) |
| `Base64Url.EncodeBuffer` | src/protocol/jwt.c:114-142 | the encoder's loop and its trimming of padding fill a buffer of the allocated size with the encoding and a terminator |
| `Base64Url.DecodeBuffer` | src/protocol/jwt.c:44-109 | the decoder's loop, after padding and alphabet conversion, stays in its buffers and yields the decoding, or -1 |
| `Base64Url.DecodeBlocksClassic` | src/protocol/jwt.c:71-75 | converting the url alphabet to the classic one changes no decoded byte |
| `Base64Bits.EncoderBits` | src/protocol/jwt.c:125-133 | the encoder's shifts, masks and ors on machine words give the four six-bit digits of the three bytes |
| `Base64Bits.ShortGroups` | src/protocol/jwt.c:126-128 | the word of a shorter group is that of one filled up with zero bytes |
| `Base64Bits.DecoderBits` | src/protocol/jwt.c:96-102 | the decoder's shifts, masks and ors on machine words give the three bytes of four digits, and the cast to a byte drops nothing |
| `Base64Url.GroupChars` | src/protocol/jwt.c:126-132 | one turn of the encoding loop, computed with the machine operations, yields the digits of its group and a NUL for each missing byte |
| `Base64Url.PutBlock` | src/protocol/jwt.c:86-103 | one turn of the decoding loop, computed with the machine operations, appends the bytes of its block or refuses it |
| `Base64Url.TableOfDigit` | src/protocol/jwt.c:32-39 | the alphabet position of a url character's value is that character |
| `Base64Laws.Alphabet` | src/protocol/jwt.c:24-39 | the value of each character by its place in the alphabet, for the decoder and for the encoder (table 2 of RFC 4648) |
| `Base64Laws.DecodeIff` | src/protocol/jwt.c:44-109 | a text decodes exactly if it is not empty and, filled up with '=', has digits in the first two places of each four and digits or '=' in the others |
| `Base64Laws.JunkIsRefused` | src/protocol/jwt.c:90-95 | a text with any other character in it is refused |
| `Base64Laws.GroupNumber` | src/protocol/jwt.c:125-132 | a group of bytes and its digits are one number in base 256 and in base 64, filled up with zero bits |
| `Base64Laws.BlockNumber` | src/protocol/jwt.c:87-102 | four digits decode to the three bytes of the same number |
| `Base64Laws.PaddingDrops` | src/protocol/jwt.c:88-102 | wherever it stands, '=' reads as zero and drops the byte that its place ends |
| `Jwt.SplitIff` | src/protocol/jwt.c:150-172 | the split is the only way to write the token as three dot-free parts (section 7.1 of RFC 7515) |
| `Jwt.SplitAccepts` | src/protocol/jwt.c:150-172 | accepted exactly with two dots |
| `Jwt.SplitToken` | src/protocol/jwt.c:150-172 | the three searches find the parts, and the signed prefix ends before the second dot |
| `Jwt.ReadToken` | src/protocol/jwt.c:284-336 | decoding succeeds exactly for a token that splits, whose header and payload decode, whose claims hold an algorithm and a jti, and for whose parts and buffers there is memory |
| `Jwt.DecodeTokenIff` | src/protocol/jwt.c:231-336 | decoding yields a proof exactly if the token is three dot-free parts of which two decode to a header and a payload with an algorithm and a jti, and the proof has those, the type, key and authorization as they are or absent, and the third part as signature |
| `Jwt.MissingClaim` | src/protocol/jwt.c:273-276 | a token without an algorithm or without a jti is not decoded |
| `Jwt.CheckSignature` | src/protocol/jwt.c:518-585 | "none" passes, another algorithm than ES256 and RS256 fails, an ES256 signature has 64 bytes, and what is verified is the text before the second dot |
| `Jwt.RegistrationProofIff` | src/protocol/jwt.c:602-652 | a registration proof is accepted exactly when the token says so much, has the right type and is either unsigned and keyless, or signed by the key it carries |
| `Jwt.RefreshProofIff` | src/protocol/jwt.c:657-689 | a refresh proof is accepted exactly when the token says so much, has the right type, carries no key, and is signed by the registered one |
| `Jwt.DecodeAndVerify` | src/protocol/jwt.c:627-652 | the checks of a registration proof in their order |
| `Jwt.VerifyWithJwk` | src/protocol/jwt.c:657-689 | the checks of a refresh proof in their order |
| `Scanning.SkipQuoted` | src/protocol/header.c:90-96 | the backslash-skips-one loop stops at the first bare quote, or at the end |
| `Scanning.ScanText` | src/protocol/header.c:90-96 | text before a quote is scanned as a whole exactly when it is self-delimiting |
| `Header.ReadQuoted` | src/protocol/header.c:74-111 | the unquoting loops yield the raw text between the quotes, or nothing |
| `Header.UnquoteIff` | src/protocol/header.c:74-111 | accepted exactly: whitespace, a quoted self-delimiting text, whitespace |
| `Header.UnquoteQuoted` | src/protocol/header.c:209-237 | unquoting inverts the quoting serializers exactly on self-delimiting text |
| `Header.JoinStrings` | src/protocol/header.c:38-66 | the measured buffer is filled exactly by the joined strings and a terminator |
| `Header.SerializeRegistration` | src/protocol/header.c:115-182 | for every combination of optional fields the measured buffer is filled exactly, with a terminator |
| `Header.SerializeChallenge` | src/protocol/header.c:184-207 | the same for the challenge header |
| `Header.SerializeQuoted` | src/protocol/header.c:209-237 | the same for the two one-string headers |
| `HeaderLaws.RegistrationInjective` | src/protocol/header.c:115-182 | equal registration headers come from equal fields, null and empty being one, for token algorithms and values that are both quote-free or both self-delimiting |
| `HeaderReading.RegistrationReads` | src/protocol/header.c:115-182 | the registration header reads back as the algorithms between parentheses and spaces and the fields under their names, in order (sections 3.1.1 and 3.1.2 of RFC 9651) |
| `HeaderReading.ChallengeReads` | src/protocol/header.c:184-207 | the challenge header reads back as the challenge and, if there is one, the identifier under "id" |
| `HeaderReading.QuotedReads` | src/protocol/header.c:209-237 | the two one-string headers read back as that string |
| `HeaderReading.JoinSplits` | src/protocol/header.c:38-66 | joined strings come apart again at the separator |
| `HeaderReading.SelfDelimitingIff` | src/protocol/header.c:90-96 | self-delimiting text is made of plain characters and of backslashes with one character each |
| `HeaderReading.TokenCharacters` | src/protocol/header.c:295-305 | the token characters (section 3.3.4 of RFC 9651) |
| `HeaderReading.SpaceCharacters` | src/protocol/header.c:12-19 | the whitespace characters, the separators of the list, and the blanks of the cookie scanner |
| `Skipped.SerializeSkipped` | src/protocol/header.c:239-278 | the measured buffer is filled exactly; the terminator is there exactly when the list is not empty |
| `Skipped.ParseSkipped` | src/protocol/header.c:320-440 | terminates in bounds on every string; succeeds exactly when the text can be parsed and every request for memory is granted, those for identifiers that are not kept included |
| `SkippedGrammar.ParseIff` | src/protocol/header.c:320-440 | a text is accepted exactly if it is separators and then items: a reason, parameters with whitespace in three places and a value without a bare quote, separators, of which a bare reason needs one before the next; and the result is the items with a recognised reason, each with its last identifier |
| `SkippedGrammar.FormsParse` | src/protocol/header.c:357-433 | every way of reading a text by the grammar gives the same result, and memory is asked for once per identifier and once per item that is kept |
| `SkippedGrammar.Refused` | src/protocol/header.c:350-352 | a text that is refused |
| `HeaderReading.ThreeReasons` | src/protocol/header.c:307-318 | each of the three reasons is kept with its identifier, any other token is parsed and dropped |
| `SkippedLaws.RoundTrip` | src/protocol/header.c:239-440 | parsing a serialized list returns in order exactly the entries with a recognised reason and a non-empty identifier (sections 3.1 and 3.1.2 of RFC 9651) |
| `SkippedLaws.ParsedAreSound` | src/protocol/header.c:320-440 | on every string, only recognised reasons and self-delimiting identifiers are returned |
| `SkippedLaws.Reparse` | src/protocol/header.c:239-440 | writing whatever was parsed and parsing it again loses only empty identifiers |
| `Http.StripQuotesCopy` | src/wrapper/http.c:51-66 | the copy is exactly as long as the text it holds |
| `Http.StripAgrees` | src/wrapper/http.c:51-66 | on a value the header parser accepts, the two unquoters agree exactly when nothing surrounds the quotes |
| `HeaderReading.StripQuotesIs` | src/wrapper/http.c:51-66 | one pair of outer quotes comes off, and every other text stays as it is |
| `Http.GetCookie` | src/wrapper/http.c:71-109 | the cursor loops compute the lookup among the ';'-separated segments, cut at the first one without '=' |
| `SetCookie.MeasureSetCookie` | src/manager/manager.c:143-155 | the measuring pass, in its own order, counts the length of the text |
| `SetCookie.BuildSetCookie` | src/manager/manager.c:143-178 | the writing pass fills the measured buffer exactly, with a terminator |
| `SetCookieLaws.SetCookieReads` | src/manager/manager.c:143-178 | read back at its semicolons the cookie is its name and value, Path, a Max-Age that denotes the lifetime, HttpOnly, Secure if configured, and Domain and SameSite if set |
| `SetCookieLaws.DecimalReads` | src/manager/manager.c:150-168 | every lifetime is written as a numeral without leading zeros that denotes it |
| `SetCookie.CookieRoundTrip` | src/wrapper/http.c:71-109 | among any cookies, with any blanks before each, the first pair with the wanted name is found, with its value, unless a cookie without '=' comes before it |
| `SetCookie.EveryHeaderIsSent` | src/wrapper/http.c:71-109 | every header text is of that form |
| `SetCookie.BareCookieHides` | src/wrapper/http.c:88-93 | a cookie without '=' at the front hides every cookie after it |
| `Managers.Manager.Initiate` | src/manager/manager.c:249-299 | the step-by-step login on the real store has the outcome and the effect of the map-level handler |
| `Managers.Manager.Register` | src/manager/manager.c:329-425 | the same for registration, with every check in its order and memory for the proof included |
| `Managers.Manager.Refresh` | src/manager/manager.c:430-510 | the same for refresh |
| `Managers.Manager.Close` | src/manager/manager.c:515-564 | the same for close: the response is complete before the session goes |
| `Managers.Manager.ApplySessionTtl` | src/manager/manager.c:237-244 | a positive lifetime sets the expiry from the clock, another one clears it |
| `Answers.LoginAnswer` | src/manager/manager.c:262-298 | a login that succeeds: every field it stores, the cookie, the two algorithms, the path, the challenge and the authorization it offers, and its event |
| `Answers.LoginFails` | src/manager/manager.c:252-282 | exactly otherwise it answers nothing, and changes nothing unless it was overwriting a session |
| `Answers.NotFoundAnswer` | src/manager/manager.c:338-349 | 401 or 400 with the right body, and nothing else, exactly when no copy of a live session is handed out |
| `Answers.DecidedAnswer` | src/manager/manager.c:351-388 | the 400 and 403 answers of register and refresh, which change nothing; a 403 has the stored challenge |
| `Answers.AcceptedAnswer` | src/manager/manager.c:395-424 | an accepted proof: 200 with the cookie, the challenge now stored, the instruction to go on, and the event; or, exactly without a challenge or memory, a failure with nothing |
| `Answers.AcceptedStores` | src/manager/manager.c:391-406 | what an accepted proof changes in the session, and that the rest of it and of the store stays |
| `Answers.CloseAnswer` | src/manager/manager.c:528-563 | a close: 200 with the cookie taken back, the instruction to stop, and the event, and the session is gone; or, exactly for lack of memory, nothing |
| `Answers.LegibleIff` | src/protocol/jwt.c:295-322 | which allocations a proof needs |
| `Answers.Illegible403` | src/manager/manager.c:366-370 | without them it counts as no proof |
| `Answers.CookieIff` | src/manager/manager.c:549 | a cookie goes out exactly with status 200, for the session of the event, and for no time exactly after a close |
| `Effects.StepEffect` | src/manager/manager.c:249-564 | every step leaves a given session untouched, or makes it vanish silently, or is its one login, binding, extension or close with the matching event and answer |
| `Runs.TraceSafety` | src/manager/manager.c:249-564 | in every run with fresh identifiers the events of a session are a prefix of LOGIN (REGISTER REFRESH*)? CLOSE? |
| `Runs.ClosedStaysClosed` | src/manager/manager.c:515-564 | after CLOSE every register, refresh and close of that session answers 401 |
| `Runs.AbsentIs401` | src/manager/manager.c:344-349 | no handler finds a session that is absent or expired |
| `Runs.AcceptanceUses` | src/manager/manager.c:372-402 | an accepted proof carries the challenge stored for the session of its event |
| `Runs.SingleUseIff` | src/manager/manager.c:372-402 | over every run with fresh challenges and all sessions, no jti is accepted twice if and only if no proof is accepted for a session whose last acceptance could not duplicate the new challenge |
| `Runs.RepeatedIff` | src/manager/manager.c:395-402 | which acceptance in a run repeats an earlier jti |
| `Runs.SingleUse` | src/manager/manager.c:476-490 | in particular none is accepted twice when accepting handlers can duplicate |
| `Runs.ChallengesAlways` | src/manager/manager.c:476-494 | in every run with fresh challenges the current ones are distinct from each other, and were accepted before exactly on such sessions |
| `RunLaws.ExpiryAlways` | src/manager/manager.c:237-244 | in every run a stored expiry is the time of the session's last successful login, register or refresh plus the lifetime; none without a lifetime |
| `RunLaws.ExpiredIs401` | src/store/memory.c:206-210 | past that time every handler answers 401 |
| `RunLaws.RefusedIffExpired` | src/store/memory.c:186-227 | a stored session that can be copied is refused exactly past that time |
| `RunLaws.ChallengeAgreement` | src/manager/manager.c:316-324 | in every run the challenge a client was last sent is the one stored; there is one exactly if the session's login could duplicate it |
| `RunLaws.UndefinedIff` | src/manager/manager.c:372-373 | a handler compares with null exactly when the proof verified and the session has no challenge |
| `RunLaws.RunUndefinedIff` | src/manager/manager.c:273 | in every run that is exactly: a register whose proof verifies, for a live session whose login could not duplicate its challenge |
| `RunLaws.Progress` | src/manager/manager.c:358-419 | before expiry and without failures of its own, a request is accepted exactly when a challenge was sent and its proof answers the last one |
| `RunLaws.StatusTable` | src/manager/manager.c:329-510 | which of 200, 400, 401 and 403 a register or refresh answers, and that a 403 repeats the stored challenge and changes nothing |
| `RunLaws.CookieMatchesStore` | src/manager/manager.c:549 | a cookie with the configured lifetime names a session that is stored when the handler returns; one with no lifetime names one that is gone |
| `RunLaws.StaleIff` | src/manager/manager.c:395-402 | an accepted challenge stays current exactly when the new one repeats it or could not be duplicated |
| `RunLaws.ReplayIff` | src/manager/manager.c:484-490 | of two successive refreshes with one jti the second is accepted in exactly those cases, the repeated fallback constant included |
| `RunLaws.BoundProvenance` | src/manager/manager.c:364-406 | in every run a bound session comes from an earlier accepted registration that carried the challenge of its login and any configured authorization, and was unsigned and keyless or signed by the key it carried; the session has that key and algorithm as far as they could be duplicated, and no key exactly for "none" if and only if what decides it could be |
| `RunLaws.ActiveProvenance` | src/manager/manager.c:262-279 | a session that is not bound has neither, and the challenge of its login or none |
| `RunLaws.KeyFixed` | src/manager/manager.c:484-494 | with atomic handlers the key and algorithm of a bound session never change while it is stored |
| `RunLaws.RecordedIff` | src/manager/manager.c:391-393 | when a registration records the key and algorithm of its proof, and when it does not |
| `RunLaws.KeylessNeverRefreshes` | src/manager/manager.c:468-474 | a session without a key never refreshes |
| `Interleaving.TwoHalves` | src/manager/manager.c:344-406 | the two store operations of a handler, one right after the other, are the atomic handler |
| `Interleaving.NextEffect` | src/manager/manager.c:344-406 | what one store operation of any handler may do to any one session |
| `Interleaving.NeverBack` | src/store/memory.c:232-277 | under any interleaving a session never goes from bound to active, keeps identifier, user and creation time, and does not reappear once gone |
| `InterleavingLaws.InterleavedTrace` | src/manager/manager.c:249-564 | under any interleaving LOGIN comes first and once, REFRESH never before REGISTER, and nothing but CLOSE after CLOSE |
| `InterleavingLaws.StrictIff` | src/manager/manager.c:249-564 | under any interleaving the events are a prefix of LOGIN (REGISTER REFRESH*)? CLOSE? exactly when every register that finishes still finds the session active and no close finishes after another |
| `InterleavingLaws.KeyStaysIff` | src/manager/manager.c:391-406 | under any interleaving the key and algorithm of a bound session never change exactly when no register finishes on it, once bound, with others |
| `InterleavingLaws.SingleUseIff` | src/manager/manager.c:344-406 | under any interleaving no jti is accepted twice if and only if every accepting handler still finds stored the challenge it read, on a session whose last acceptance replaced its challenge |
| `InterleavingHistory.InterleavedExpiry` | src/manager/manager.c:404-406 | under any interleaving a stored session expires the configured lifetime after the clock reading of the last handler that finished on it, however long before that had read it |
| `InterleavingHistory.InterleavedProvenance` | src/manager/manager.c:364-406 | under any interleaving a bound session has the key and algorithm, as far as they could be duplicated, of one register that finished on it, whose proof verified, carried a challenge issued for it at login and any configured authorization, and was unsigned and keyless or signed by the key it carried |
| `InterleavingLaws.SerialRefines` | src/wrapper/http.c:430-437 | runs of atomic handlers are the serial interleavings, with the same store, events and acceptances |
| `Races.TwoRegistrations` | src/manager/manager.c:344-406 | two registrations that read before either writes are both accepted, and the second key replaces the first |
| `Races.ReplayedRefresh` | src/manager/manager.c:484-490 | a run of atomic handlers that accepts one refresh proof twice |
| `Races.TwoCloses` | src/manager/manager.c:529-559 | two closes that both read the session both report a CLOSE |
| `Races.NullComparison` | src/manager/manager.c:273 | a run of two steps whose second compares with a null string |
| `Races.SignedWithoutKey` | src/manager/manager.c:392 | a signed registration that answers 200 and leaves the session without a key |
| `Races.DuplicationFailures` | src/manager/manager.c:392 | both of these occur, for concrete tokens |
| `Races.SingleUseFails` | src/manager/manager.c:344-406 | the race and the replay occur, for concrete tokens |
| `RedisSpec.KeysDistinct` | src/store/redis.c:41-62 | key names determine identifier and user, and the two families never meet |
| `RedisSpec.GuardedIff` | src/store/redis.c:175-180 | GET never returns an expired session exactly when the deadline lies before the second in which it is seen as expired |
| `RedisSpec.CreateGuardedIff` | src/store/redis.c:219-223 | a create achieves that exactly when the expiry lies ahead of the clock and SET falls in the second that was read; never with the clamp to 1 |
| `RedisSpec.ShallowIff` | src/store/redis.c:291-335 | the recursion of get and delete has a bound over all clocks exactly for such entries, and the bound is two |
| `RedisSpec.RunGets` | src/store/redis.c:251-335 | lost commands only shorten that recursion |
| `RedisIndex.RunReads` | src/store/redis.c:263-300 | whichever commands are lost, a session is handed out only if it is live, a key is removed only if it is dead, and nothing found means dead or a lost GET |
| `RedisIndex.CreateThenGet` | src/store/redis.c:64-160 | a session that was stored and is handed out again comes back field by field, and it is handed out whenever the GET is carried out before its expiry |
| `RedisIndex.Lifespan` | src/store/redis.c:219-226 | a stored session is live through its expiry and not after that second; without an expiry, for ever |
| `RedisIndex.CreateSets` | src/store/redis.c:233 | a create adds its identifier to its user's set and nothing to any other |
| `RedisIndex.DeleteSets` | src/store/redis.c:349-355 | a delete takes its identifier from the set of the session's user, and nothing from any other |
| `RedisIndex.DeleteKeys` | src/store/redis.c:343-347 | a delete takes its session and no other |
| `RedisIndex.CreateIndexedIff` | src/store/redis.c:227-239 | a create keeps every session in its user's set unless SADD fails for an identifier that is not there yet |
| `RedisIndex.CreateSettledIff` | src/store/redis.c:233 | a create keeps each identifier with one user exactly when no other user's set holds it |
| `RedisIndex.OwnerChange` | src/store/redis.c:233 | otherwise a set leads to a session of somebody else |
| `RedisIndex.DeleteAgrees` | src/store/redis.c:324-358 | a delete keeps keys and sets in agreement, although it leaves the set alone when the session can no longer be read, unless only its DEL is lost |
| `RedisIndex.DeleteIndexedIff` | src/store/redis.c:343-355 | a readable session leaves its set by a delete exactly when DEL is lost and SREM is not |
| `RedisIndex.ListingIsUsers` | src/store/redis.c:363-420 | with keys and sets in agreement a listing returns sessions of that user only, none that was unreadable at its start and, unless a command was lost, all that are readable at its end |
| `RedisIndex.SweepIsUsers` | src/store/redis.c:425-452 | deleting by user leaves none of that user's sessions readable and every other user's sessions and set untouched |
| `RedisStores.RedisStore.Create` | src/store/redis.c:196-246 | refuses a session without identifier; else SET with the computed ttl, then SADD, either of which may fail; a failed SADD leaves the session without its index entry; agreement is kept for an identifier of that user |
| `RedisStores.RedisStore.Get` | src/store/redis.c:251-300 | terminates on every clock that goes on and whatever commands are lost; returns the session, or purges it once it is seen to be expired, exactly as the recursion says |
| `RedisStores.RedisStore.Update` | src/store/redis.c:305-319 | fails for a session that cannot be read, else creates it again, not atomically |
| `RedisStores.RedisStore.Delete` | src/store/redis.c:324-358 | the key goes, and the index entry with it if the session could still be read, each only if its command is carried out |
| `RedisStores.RedisStore.GetByUserId` | src/store/redis.c:363-420 | in any order of the members and at any speed of the clock: each readable session once, stale members and lost GETs skipped; fails only if SMEMBERS is lost or the result cannot grow |
| `RedisStores.RedisStore.DeleteByUserId` | src/store/redis.c:425-452 | touches nothing but members, and only purges if the listing fails; if no command is lost, the set is gone and no member is readable |

## Left out

- RunLaws.UndefinedIff: after a comparison with a null string, which C does not define, the model goes on with an unchanged store.
- HeaderLaws.RegistrationInjective: does not compare a value with bare quotes, or a quote-free one with one that needs its escapes; the serializer does not escape.
- Jwt.ReadToken: leaves out failed copies of single claims, which the source partly takes for absent claims; the handlers inherit this.
- RedisStores.RedisStore.Create: numbers in JSON are exact, what JSON does to a public key is an arbitrary function, and a null user is printed as "(null)"; a command that is not answered counts as not carried out.
- RedisSpec.CreateGuardedIff: one clock serves the deadlines of the Redis server and the host's time(NULL); two clocks that differ are not modelled.
- RedisSpec.ShallowIff: rests on that one clock as well.
- The SQL stores (src/store/sqlite.c, src/store/odbc.c): statements and time formatting for drivers.
- JSON and the session instruction (src/protocol/instruction.c, parse_proof): tree building over cJSON; claims are what an arbitrary parser returns.
- OpenSSL: key construction, DER conversion and verification are one arbitrary function; only the 64-byte rule for ES256 is modelled.
- The HTTP server: routing, TLS, sending, and the fallback between header and cookie for the session identifier.
- Event details and the texts of response bodies: the model keeps the kind, user and identifier of an event, and which body is sent.
- Failed allocations of response texts: the source answers with a null header or body and still returns 0.
- Event order at the finer granularity: an event counts as part of the store operation before it.
- Generation of UUIDs and challenges: arguments, with freshness as a hypothesis where it matters.
- Mutexes: each store operation is one step.
- Freeing, leaks, overflow of very large lengths and of time_t, and null `out` arguments.
