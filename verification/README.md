# Verified models of four cores of mclolihub

The project models four parts of the repository and proves what they promise.

1. **HTML studio** (`html_studio.py`). The Server-Sent Events parser works on bytes (`Utf8`,
   `SseEvents`) and is compared with an independent reading of section 9.2.6 of the WHATWG HTML
   Living Standard (`EventStreamStandard`). `HtmlExtract` finds the document in an answer,
   `Continuation` joins the text of several requests. `Generation` and `Generate` are the
   accumulator and its reader, `AnswerLaws` what they promise about whole answers, `TimeoutRace` the
   state machine of reader and timer thread. `Studio` is the loop over requests up to the exit and
   the files it leaves.
2. **Eager loading** (`backend/ent/account_query.go`). `EagerLoad` is the many-to-many edge, walked
   through maps whose order is left open; `EagerEdges` the foreign-key edges and the loading of all
   edges. A query is a function from keys to rows.
3. **Bulk create** (`backend/ent/account_create.go`). `AccountFields` models `defaults` and `check`,
   `BulkCreate` the chain of mutators around one insert. The database is an object that records the
   batches it is sent and answers through an arbitrary function.
4. **Audit gate** (`tools/check_pnpm_audit_exceptions.py`). `AuditParser` reads the exception list,
   `AuditGate` decides the exit code.

`Text` holds the string vocabulary. A loop of the source is a method with a loop, proved equal to a
function; the promises are lemmas about that function. JSON decoding, date reading, database answers
and validators are arbitrary functions, so the results hold for all of them.

Where the code falls short of what one would expect of it, the exact condition is proved:

- Events agree with the standard only without colon-less `data` lines (`AgreesWithStandard`), and
  after a byte order mark only if the first line carries no data (`AgreesAfterBom`).
- Text is written to neither file in a round exactly under `LosesText`, a condition on the answer,
  the timer, the interrupt and the disk (`TextLostExactlyWhen`, `SessionLosesTextExactlyWhen`): a
  whole document received to its end marker is lost, for one, when the timeout flag is set by the
  last look (`LateTimeoutLosesDocument`).
- Restarts of fewer than 32 or more than 4096 characters are never joined right (`RoundExact`,
  `OutOfRangeRestartFails`).
- The order of the findings decides the gate's verdict exactly when the exceptions are well-formed,
  every relevant finding has an advisory and shares its key with a finding excused with its
  severity, and some relevant finding is not so excused itself (`OrderDecidesExactlyWhen`).
- Printed events come back exactly when no line of theirs is too long, ends in a carriage return or,
  printed without the optional space, begins with one (`SseEvents.RoundTrip`); printed exception lists exactly when no reserved key inside a record
  loses a value or opens a record (`RoundTripExact`).
- Loading all edges fails exactly when some query asked answers with a row that cannot be assigned
  (`LoadAll`).
- A bulk save is not all or nothing when a hook fails after calling the next mutator
  (`AllOrNothing`).

## Model

| member | source | states |
|---|---|---|
| `SseEvents.ReadEvents` | html_studio.py:382-399 | the loop yields exactly the events of the line-by-line specification, and stops at a line over 1 MiB |
| `SseEvents.RoundTrip` | html_studio.py:382-399 | printing any list of events as data lines, with or without the optional space, and blank lines, and parsing gives the list back, over UTF-8 bytes, if and only if every printed line is at most 1 MiB, none ends in a carriage return and none printed without the space begins with one of its own |
| `SseEvents.SplitsAtBlankLines` | html_studio.py:393-396 | the events on the two sides of a blank line are found independently, for arbitrary bytes |
| `SseEvents.LastBlankLineOptional` | html_studio.py:388-396 | a missing last blank line changes nothing: the pending event is delivered at end of stream |
| `SseEvents.OversizedLineLosesPending` | html_studio.py:385-387 | a line of more than 1 MiB ends the events, and the one being collected is lost |
| `SseEvents.RStripBreaksExact` | html_studio.py:392 | exactly the line breaks at the end of a line are cut |
| `SseEvents.IgnorableAnywhere` | html_studio.py:392-399 | a comment or other-field line inserted at any line boundary changes nothing |
| `Utf8.DecodeConcat` | html_studio.py:392 | decoding splits at every ASCII byte, also around ill-formed UTF-8, so decoding line by line is decoding the stream |
| `Utf8.DecodeEncode` | html_studio.py:392 | decoding undoes UTF-8 encoding |
| `Utf8.MaximalSubpart` | html_studio.py:392 | decoding takes the character the bytes begin with, and when there is none replaces the longest run of bytes that begins a character, or one byte, by U+FFFD |
| `EventStreamStandard.SameLines` | html_studio.py:385-392 | splitting bytes at LF and decoding each piece finds the lines the WHATWG standard finds in the decoded text, for any bytes without a bare CR |
| `EventStreamStandard.AgreesWithStandard` | html_studio.py:382-399 | without bare CR and byte order mark, the parser yields the events of section 9.2.6 of the WHATWG HTML Living Standard, and the pending one besides, if and only if no line is a colon-less `data` |
| `EventStreamStandard.AgreesAfterBom` | html_studio.py:382-399 | after a byte order mark it does so if and only if, besides, the first line carries no data |
| `EventStreamStandard.CrInEventDisagrees` | html_studio.py:385-399 | a carriage return is delivered in an event if and only if a data line keeps one after stripping and the stream ends well or a blank line follows; and each such stream is read differently by the standard |
| `Text.StripExact` | html_studio.py:491 | `strip` cuts exactly the white space at the two ends |
| `HtmlExtract.OpenerExact` | html_studio.py:483 | the opener predicate is the regular expression of the search, case ignored, under a semantics of its own |
| `HtmlExtract.CloserExact` | html_studio.py:484 | the same for the closer, and where its match ends |
| `HtmlExtract.DoctypeExact` | html_studio.py:488 | the same for the doctype |
| `HtmlExtract.LastFound` | html_studio.py:484-485 | the last of the non-overlapping closer matches is the last closer there is |
| `HtmlExtract.StartOfStarts` | html_studio.py:487-490 | the document starts at the first doctype that ends before the first opener, or at the opener |
| `HtmlExtract.ExtractIsSpan` | html_studio.py:482-491 | the result is exactly the span from that start to the end of the last closer; `strip` removes nothing |
| `HtmlExtract.ExtractNonEmpty` | html_studio.py:483-486 | non-empty if and only if some closer follows the first opener |
| `HtmlExtract.ExtractIdempotent` | html_studio.py:482-491 | extracting from an extracted document gives the same document |
| `HtmlExtract.ExtractGrows` | html_studio.py:482-491 | the document of a text is a prefix of the document of every continuation of the text |
| `HtmlExtract.SpacesCompleteNothing` | html_studio.py:482-491 | white space appended to a text without a document completes none |
| `Continuation.Overlap` | html_studio.py:501-503 | the search finds the longest overlap of 32 to 4096 characters, or 0 when there is none |
| `Continuation.MergeContinuation` | html_studio.py:494-504 | the descending search returns the tail when it holds a document, and otherwise joins it after the longest overlap |
| `Continuation.MergeShape` | html_studio.py:498-504 | without a restart the result starts with the old text, ends with the new one and is shorter than both together by the longest overlap |
| `Continuation.MergeKeepsTail` | html_studio.py:494-504 | in every branch the result ends with all that came, but for a fence line |
| `Continuation.MergeExtends` | html_studio.py:494-504 | a tail that holds a whole document replaces the old text; any other extends it |
| `Continuation.FenceExact` | html_studio.py:498-499 | a tail that opens a code fence loses exactly its first line, every other tail nothing |
| `Continuation.FenceChangesNothing` | html_studio.py:494-504 | the text of a continuation is joined alike with and without a code fence around it |
| `Continuation.RoundExact` | html_studio.py:494-504 | a tail that restarts some characters before the cut continues the document if and only if those characters are the longest overlap |
| `Continuation.StitchReconstructs` | html_studio.py:494-504 | over any number of rounds the merges give the document up to the last cut, and every intermediate text is right if and only if every restart is the longest overlap |
| `Continuation.UniqueWindow` | html_studio.py:501-503 | a restart whose first 32 characters stand nowhere else in the last 4096 is the longest overlap |
| `Continuation.FreshWindow` | html_studio.py:501-504 | a continuation that does not restart and opens with 32 unseen characters loses nothing |
| `Continuation.OutOfRangeRestartFails` | html_studio.py:500-504 | a repetition shorter than 32 or longer than 4096 characters always spoils the join |
| `Generation.Generation.Add` | html_studio.py:314-326 | adds text, counts and phase, and reports the bound only after the text is kept |
| `Generation.AddedText` | html_studio.py:317-318 | the text grows by the content, and the byte count stays the UTF-8 length of the text |
| `Generate.ReadChoices` | html_studio.py:452-462 | the loop over choices is the fold over the deltas of choice 0, stopping where the bound is passed |
| `Generate.ReadEvent` | html_studio.py:437-462 | one event has the effects of its atoms, in order, and their status |
| `Generate.Finish` | html_studio.py:463-477 | the checks after the loop and the `finally` block |
| `Generate.ReadAnswer` | html_studio.py:434-479 | reading a whole answer refines the fold over its flat list of effects, for every moment at which the flag may appear |
| `AnswerLaws.FoldTakes` | html_studio.py:434-462 | text, usage and finish reason are exactly those of the effects before the first end marker, error or bound, with the text of the delta that passes the bound |
| `AnswerLaws.FoldMeters` | html_studio.py:314-326 | event count, reasoning length, token estimate and phase are those of exactly what was taken, however it was cut into pieces |
| `AnswerLaws.ShownTokens` | html_studio.py:324-334 | the token count shown is the one reported, or else a quarter for each ASCII character and 0.67 for each other of all text taken, rounded up |
| `AnswerLaws.AnswerExact` | html_studio.py:434-462 | within 16 MiB and with the timer silent, an answer leaves the text, last finish reason, last usage report and event count of the events before the first end marker or rejected event, which decides how the reading ends |
| `AnswerLaws.DeadlineCuts` | html_studio.py:434-436 | with the flag set from some look on, the events before it are read as without a timer and one more turn finds it |
| `AnswerLaws.DoneCutsOff` | html_studio.py:437-439 | nothing after the end marker has any effect |
| `AnswerLaws.NormalReturn` | html_studio.py:463-477 | a normal return happens if and only if the reading was completed, the flag was unset at the last look and the text is not blank; the accumulator then says how it ended; and which error is raised otherwise |
| `TimeoutRace.AlwaysInv` | html_studio.py:412-479 | the invariant of the race between timer and reader holds in every state of every interleaving |
| `TimeoutRace.NormalReturnIsTimerless` | html_studio.py:414-421 | after a normal return the accumulator is what the whole answer gives with no timer at all, and end of stream was not the timer's |
| `TimeoutRace.TimerEndRaises` | html_studio.py:463-466 | end of stream caused by the timer always ends in an error |
| `TimeoutRace.KeepsWholeEvents` | html_studio.py:434-464 | only whole events of the server are processed, at most one after the flag is set, and every run is one of the sequential reader |
| `Studio.RunRound` | html_studio.py:599-606 | one request and its `finally`: the text received is merged into the prefix whether or not the request failed |
| `Studio.RunSession` | html_studio.py:589-617 | the loop over rounds is the specified session |
| `Studio.RoundKeepsText` | html_studio.py:600-617 | no round, failed or not, drops the old text unless it brought a whole document, and such a round never continues; what it received ends the new text |
| `Studio.PrefixesFormAChain` | html_studio.py:589-617 | over any number of rounds the prefixes form a chain, and none that a round produced holds a whole document |
| `Studio.LastRound` | html_studio.py:589-617 | a session exits in its last round entered, whose position and start are those of the last prefix, which holds all the text before it |
| `Studio.NeverBothFiles` | html_studio.py:618-653 | one run never writes both the final HTML and the partial file; exit code 0 means the HTML was written, 130 an interrupt |
| `Studio.PlayExact` | html_studio.py:599-653 | a round continues if and only if the answer was complete, in time and not blank, held no document, was cut at the token limit and the user at the terminal agreed; in every other case its failure, exit code and files |
| `Studio.SessionExact` | html_studio.py:589-617 | a session asks for more if and only if every round goes on, from the text all rounds before gave; otherwise it is the first round that does not |
| `Studio.SessionEnds` | html_studio.py:589-653 | it ends with the failure, exit code and files of that round |
| `Studio.RequestExact` | html_studio.py:599-606 | text, completeness and outcome of a request, from the answer, the timer and the interrupt alone |
| `Studio.TextLostExactlyWhen` | html_studio.py:607-653 | the text of a round that ends the program is in neither file if and only if: after a complete answer with a whole document, an interrupt, a timer flag set by the last look, a blank answer or a save failing before the HTML is on disk; otherwise, a partial file that cannot be written |
| `Studio.SessionLosesTextExactlyWhen` | html_studio.py:589-653 | the same over any number of rounds: a session loses its text, that of all earlier rounds included, if and only if its last round does |
| `Studio.FailuresOfWholeDocument` | html_studio.py:607-653 | the failures with a complete answer and a whole document are interrupt, timeout and failed save, or a blank answer to a request for the rest of a document that was whole already |
| `Studio.LateTimeoutLosesDocument` | html_studio.py:437-464 | a family of inputs for which a whole document received to its end marker is written nowhere |
| `Studio.LossExample` | html_studio.py:437-464 | one such input |
| `EagerLoad.ScanRows` | backend/ent/account_query.go:661-670 | the scan finds the groups in first-seen order and, for each, the set of accounts linked to it |
| `EagerLoad.AssignGroup` | backend/ent/account_query.go:682-684 | walking the account set in any order gives every account in it the group once |
| `EagerLoad.LoadGroups` | backend/ent/account_query.go:627-687 | every account ends with the neighbours it is joined to, up to the first unexpected one, whose ID is the error; with a fixed link table and distinct IDs, with exactly its groups in the table |
| `EagerLoad.FirstSeenFrom` | backend/ent/account_query.go:664-667 | every group kept is that of the row where its ID first appears |
| `EagerLoad.GroupsAreTheJoin` | backend/ent/account_query.go:627-687 | with distinct IDs and any rows, each account holds exactly the groups some row joins it to, each once, in first-seen row order, and no error is reached |
| `EagerLoad.TableLinks` | backend/ent/account_query.go:627-687 | with answers from a fixed link table every account ends with exactly the groups linked to it, each once, and no error is reached |
| `EagerEdges.CollectKeys` | backend/ent/account_query.go:689-700 | collects the non-nil foreign keys and the nodes under each |
| `EagerEdges.KeysExact` | backend/ent/account_query.go:689-700 | the id list has no duplicates and is the set of the non-nil foreign keys |
| `EagerEdges.LoadProxy` | backend/ent/account_query.go:688-719 | every node holds the last neighbour with its key among those before the first unexpected one, whose ID is the error |
| `EagerEdges.LoadParent` | backend/ent/account_query.go:720-751 | the same for the parent edge |
| `EagerEdges.ManyToOneExact` | backend/ent/account_query.go:709-717 | the error is reached if and only if some row was not asked for; under the query's contract every node, sharing its key or not, holds exactly the neighbour with its key, or none |
| `EagerEdges.LastWithLast` | backend/ent/account_query.go:709-717 | of several neighbours with its key a node holds the last |
| `EagerEdges.TableNeighbors` | backend/ent/account_query.go:688-751 | with answers from a fixed table with distinct IDs no error is reached, and every node ends with the row it refers to, or with none |
| `EagerEdges.LoadChildren` | backend/ent/account_query.go:752-784 | every parent holds its children up to the first row without a usable key, which decides the error; with a fixed table and distinct IDs there is no error, and every node holds exactly the rows of the table that refer to it, in table order |
| `EagerEdges.LoadUsageLogs` | backend/ent/account_query.go:785-814 | the same for usage logs |
| `EagerEdges.MatchingInOrder` | backend/ent/account_query.go:772-782 | the rows of a node are those at all positions with its key, in increasing order |
| `EagerEdges.OneToManyErrors` | backend/ent/account_query.go:772-780 | an error is reached if and only if some row lacks a key or has one that no node has |
| `EagerEdges.OneToManyExact` | backend/ent/account_query.go:752-784 | with distinct IDs every parent holds exactly its children, in the order of the answer |
| `EagerEdges.LoadAll` | backend/ent/account_query.go:581-626 | loading all edges succeeds if and only if there are no nodes or every query asked answers only with rows that can be assigned; each edge then has its own result, and an edge not asked for is untouched in any case |
| `AccountFields.CheckExact` | backend/ent/account_create.go:588-662 | `check` passes if and only if every required field is set and every validated field that is set is valid |
| `AccountFields.CheckPasses` | backend/ent/account_create.go:588-662 | it passes if and only if the fourteen required fields are set and the six validated ones are valid where set |
| `AccountFields.CheckFirst` | backend/ent/account_create.go:588-662 | the error is that of the first failing field in the order of the code |
| `AccountFields.DefaultsExact` | backend/ent/account_create.go:527-585 | defaults succeed if and only if the functions needed are there; then every field holds what the caller set, the value of its function, its constant, or nothing |
| `AccountFields.DefaultsStop` | backend/ent/account_create.go:527-555 | a missing function stops the defaults at its field, with exactly those before it set |
| `AccountFields.FailedDefaultsFailCheck` | backend/ent/account_create.go:527-585 | defaults never replace a value, and when they fail `check` fails on the same account |
| `AccountFields.CheckAfterDefaults` | backend/ent/account_create.go:527-662 | after defaults that succeed only name, platform and type can be missing, and `check` passes if and only if they are set and all validators agree |
| `BulkCreate.Mutate` | backend/ent/account_create.go:2106-2139 | the mutator of one builder, or the insert after the last: error, batches sent, nodes made, rows' IDs and builders marked done |
| `BulkCreate.Proceed` | backend/ent/account_create.go:2116-2138 | the part of a mutator after its checks: node, call of the next mutator, ID and done mark on the way back |
| `BulkCreate.Save` | backend/ent/account_create.go:2095-2152 | a bulk save sets the defaults of every builder, sends at most one batch, returns all nodes or none, and returns for builder i the node with the ID of row i, with its mutation done and pointing at it; ready accounts, passing hooks and an answering database give no error and exactly one batch, with the caller's values and the defaults in each row |
| `BulkCreate.ErrorExact` | backend/ent/account_create.go:2111-2131 | the error is that of the first builder, in builder order, that stops the call; then that of the insert; then that of the last hook failing on the way back |
| `BulkCreate.SucceedsExactlyWhen` | backend/ent/account_create.go:2095-2152 | a save succeeds if and only if all hooks pass, all checks pass and the insert succeeds |
| `BulkCreate.StoppedMeansNothing` | backend/ent/account_create.go:2111-2113 | a failing check or refusing hook anywhere means no insert and no builder marked done |
| `BulkCreate.AllOrNothing` | backend/ent/account_create.go:2129-2137 | a failed save has inserted rows if and only if a hook failed after letting the call through; with pass-through hooks a save is all or nothing |
| `BulkCreate.FailedDefaultsStop` | backend/ent/account_create.go:2105-2113 | no insert follows a builder whose `defaults` failed, although that error is ignored |
| `AuditParser.ParseExceptions` | tools/check_pnpm_audit_exceptions.py:23-48 | the loop is the fold over the lines, with the ValueError of an item line without colon |
| `AuditParser.UnquoteExact` | tools/check_pnpm_audit_exceptions.py:15-19 | quotes of either kind are taken off in pairs, once; a value not between equal quotes stays |
| `AuditParser.SplitPair` | tools/check_pnpm_audit_exceptions.py:12-20 | a printed pair, quoted either way or not, is split back into key and value, whatever colons, quotes or spaces the value holds |
| `AuditParser.LinesOfText` | tools/check_pnpm_audit_exceptions.py:27-28 | lines ended by LF, CR or CRLF are found again |
| `AuditParser.IdleAnywhere` | tools/check_pnpm_audit_exceptions.py:29-45 | blank lines, comments, headers and lines that are neither items nor pairs change nothing anywhere |
| `AuditParser.PreambleIgnored` | tools/check_pnpm_audit_exceptions.py:24-45 | lines before the first item, pairs included, are ignored |
| `AuditParser.SplitSpaced` | tools/check_pnpm_audit_exceptions.py:12-20 | white space around key and value makes no difference |
| `AuditParser.FailsExactlyWhen` | tools/check_pnpm_audit_exceptions.py:12-42 | the ValueError is raised if and only if some item line has no colon |
| `AuditParser.StepLater` | tools/check_pnpm_audit_exceptions.py:30-45 | what a printed pair inside a record does: opens another record when its key starts with a dash and a space, nothing when its key is otherwise reserved, and else is stored |
| `AuditParser.ParsePrinted` | tools/check_pnpm_audit_exceptions.py:23-48 | printed records parse to one record each and one more for each dashed line, and without such lines to the stored part of each |
| `AuditParser.StoredExact` | tools/check_pnpm_audit_exceptions.py:36-45 | the stored part of a record is all of it if and only if every reserved key inside it does no more than repeat the first pair |
| `AuditParser.RoundTripExact` | tools/check_pnpm_audit_exceptions.py:23-48 | printed records, keys repeated or not, values quoted or not, with any line end, parse back to their dictionaries if and only if no key inside a record is dashed and every other reserved one repeats the first pair |
| `AuditParser.DistinctRoundTripExact` | tools/check_pnpm_audit_exceptions.py:23-48 | with distinct keys they do so if and only if no key after the first of its record is reserved |
| `AuditParser.RoundTrip` | tools/check_pnpm_audit_exceptions.py:23-48 | the text printed for any list of non-empty printable records without reserved keys inside parses back to the same records |
| `AuditGate.JudgeExact` | tools/check_pnpm_audit_exceptions.py:156-174 | an exception is accepted on its own if and only if all five fields are filled in, its date can be read and its package and advisory are not blank; and which error is reported otherwise |
| `AuditGate.CaseDoesNotMatter` | tools/check_pnpm_audit_exceptions.py:114-131 | advisories and severities that differ only in ASCII case are the same |
| `AuditGate.ReadExceptions` | tools/check_pnpm_audit_exceptions.py:153-185 | builds the index and the errors of the specification |
| `AuditGate.IndexErrors` | tools/check_pnpm_audit_exceptions.py:156-180 | no error if and only if every exception is acceptable and no two have the same normalized key |
| `AuditGate.CheckFindings` | tools/check_pnpm_audit_exceptions.py:187-219 | the loop with its `seen` set gives the specified report |
| `AuditGate.RunGate` | tools/check_pnpm_audit_exceptions.py:151-243 | the exit code is 0 if and only if all exceptions are acceptable, no two are for one package and advisory, and every high or critical finding is covered by one that has not expired, with its severity where it is the first for them |
| `AuditGate.GateDeclared` | tools/check_pnpm_audit_exceptions.py:81-243 | the same of the specification |
| `AuditGate.RunProgram` | tools/check_pnpm_audit_exceptions.py:133-243 | the same from the text of the exception list, whose parse error ends the program with 1 |
| `AuditGate.GateExact` | tools/check_pnpm_audit_exceptions.py:156-243 | exit code 0 if and only if the exceptions are well-formed and every named high or critical finding has an advisory and an unexpired exception whose severity, when it has one, is that of the first finding with the key |
| `AuditGate.SeenKeepsVerdicts` | tools/check_pnpm_audit_exceptions.py:191-219 | the keys reported missing or expired are the same with and without the `seen` set |
| `AuditGate.SeenChangesOnlySeverity` | tools/check_pnpm_audit_exceptions.py:191-215 | the `seen` set changes the exit code if and only if only a later finding's severity is wrong |
| `AuditGate.SomeOrderPasses` | tools/check_pnpm_audit_exceptions.py:156-243 | the gate passes for some order of the findings if and only if the exceptions are well-formed and every relevant finding has an advisory and shares its key with an excused one |
| `AuditGate.EveryOrderPasses` | tools/check_pnpm_audit_exceptions.py:187-243 | it passes for every order if and only if it would pass without the `seen` set |
| `AuditGate.OrderDecidesExactlyWhen` | tools/check_pnpm_audit_exceptions.py:187-243 | some other order has another exit code if and only if the exceptions are well-formed, every relevant finding has an advisory and shares its key with one excused with its severity, and some relevant finding is not so excused itself |
| `AuditGate.OrderDoesNotMatter` | tools/check_pnpm_audit_exceptions.py:191-219 | corollary: when no key has two severities the exit code depends neither on the order of the findings nor on the `seen` set |
| `AuditGate.OrderMatters` | tools/check_pnpm_audit_exceptions.py:204-215 | an instance: two findings and one exception for which swapping the findings changes the exit code |

## Left out

- AgreesWithStandard: streams with a bare carriage return are outside it, because harmless and harmful ones differ by where they stand; `CrInEventDisagrees` covers those that deliver one.
- LoadGroups: rows whose account is not among the nodes are excluded by the query's own filter; the source would dereference a nil account.
- TimeoutRace: looking at the flag and processing an event are single steps; the accumulator's lock, which the timer never takes, is not modelled.
- Studio: an interrupt arrives during a request, at the prompt or while saving, not between two arbitrary statements.
- Studio: the steps before the first request (arguments, connection, model list, the checks on the continued file) and the key redaction in the files.
- Generation: the clock, the lock, and usage entries that are not integers; the token estimate counts hundredths instead of floats.
- Generate: connecting, HTTP status and request headers; a failure there is an empty answer from a broken source.
- Lone surrogates in Python strings, which cannot be encoded as UTF-8.
- `choose_model`, `KeyReader`, `LiveProgress` and the terminal output: user interface.
- `normalize_base` and `file_stem`: address and file-name formatting.
- BulkCreate: hooks that swap the mutation or swallow the call, `OnConflict`, and the wrapping of constraint errors.
- AccountFields: optional fields that neither `defaults` nor `check` looks at, and edges.
- EagerLoad: nested eager loading inside neighbours, and `loadAccountGroups`, which is `loadUsageLogs` with another type.
- `sqlgraph`, interceptors other than a function on the groups found, and transactions are not part of this model.
- AuditGate: `iter_vulns` (which fields of the report make up a finding) and the wording of the messages.
- AuditGate: lower-casing outside ASCII.
