# cee-exporter: models and proofs

A Dafny 4.11 model of the parts of cee-exporter where a mistake would lose, duplicate or corrupt audit
records, with proofs over every input, every run and every interleaving. `dafny verify dfyconfig.toml`
verifies the whole project.

| component | files | what is proved |
|---|---|---|
| batching queue | `QueueModel`, `QueueSafety`, `QueueOutcomes`, `QueueProgress`, `QueueTheorems`, `QueueFlush`, `QueueClass` | a step system of any number of `Enqueue` calls, `Stop` calls and workers; one inductive invariant gives conservation, exactly-once hand-off, close safety, termination of the drain and the accuracy of the drain report; what the writer's answers do to the counters, that every call can return, and that no accepted event is ever stuck |
| label and peer tables | `Labels`, `Metrics`, `Peers`, `Store` | the two-lock concurrent path ends where counting the same events one at a time under the cap ends, and always can end |
| codecs | `Utf8`, `Utf16`, `ByteSlices`, `Trimming`, `Classify`, `Documents` | when text survives the wire and back, when decoding twice is safe, that the decode-once dispatch agrees with the four predicates, and which bytes it recognises |
| EVTX field budget | `MapSum`, `EvtxBudget`, `EvtxTotals`, `EvtxFields` | the halving loop ends for any map and any tie-breaking, inside the budget for at most 1015 entries and not always beyond, leaving each value whole or cut once between runes; how its total moves, with the exact entry counts |
| log redaction | `Redact`, `RedactBound` | the rendering depends only on a payload's shape; the exact result at the bound, and when it is text |
| registration reply | `Register`, `RegisterText`, `RegisterXml` | the printed document reads back as the configuration, and its tags nest |
| framing and delivery | `Framing`, `Delivery`, `Streams`, `Writers` | a collector reads back exactly the payloads, over one write and over a whole run; what a batch attempts and reports under every pattern of failures |
| request handling | `Ingress`, `ReplyXml`, `Slots` | what body is accepted under the cap, what every request is answered with and in which encoding, and the concurrency slots over all interleavings |

Conventions. A Go string or byte slice is a sequence of bytes; text is UTF-8 inside it. Integers are
unbounded except where the source's 64-bit arithmetic can wrap (`Ingress.Wrap64`). Concurrency is a
step system: a step is one goroutine's move between two points where another can interfere, and a
theorem about `Reachable` states or `CanRun` schedules is about every interleaving. The timer, the
writer's answer, the network's answers and the order in which a map is ranged over are left free. A
class shows the same operation as one goroutine runs it, in the source's own statements, and is tied
to the function the step system uses.

## Where the code and its comments differ

- `pkg/parser/utf16.go:33-35` says a decoded payload may always be decoded again untouched. That holds
  exactly when the first two decoded bytes are not one NUL and one other byte
  (`Utf16.DecodeTwiceIff`); the four bytes 3C 00 00 00 are a payload for which it fails
  (`Utf16.DecodeTwiceCounterexample`).
- `pkg/evtx/writer_evtx_notwindows.go:209-211` says that when the longest value resists halving no shorter
  one can shrink and nothing can be reclaimed. That is true exactly for maps of at most 1015 entries, on
  which the loop never stops over budget at all (`EvtxTotals.NothingLeftIff`). For every larger count there
  is a map on which it stops although halving a shorter value would take bytes away and lower the total
  (`EvtxTotals.StoppedTooEarly`).
- Section 3.4.1 of RFC 6587 gives a frame's length a first digit other than zero. `frameTCP` follows it
  exactly when the payload is not empty (`Framing.GrammarIff`).
- `pkg/server/redact.go:78-80` says a partial rune at the cut is backed off. The bytes of a tag are written
  one at a time, so a cut that splits a rune falls exactly on the bound, where nothing is dropped: a payload
  of valid UTF-8 is rendered as valid UTF-8 exactly when the bound does not fall inside a rune
  (`RedactBound.TextIff`), and a tag of 510 letters and an accented one is a payload for which it does
  (`RedactBound.SplitExample`). A rendering of exactly 512 bytes is marked truncated, though nothing is
  missing, when a blank text follows it (`RedactBound.RedactedExactly`).
- `pkg/server/server.go:682-684` says an oversized body is answered with status 400. The caller answers
  with the event acknowledgement and status 200 (lines 299-310), and so does the model.
- The body cap is `MaxBodyMB << 20` in 64 bits. It is the configured one exactly up to 2^43 megabytes and,
  beyond, where the shift leaves only the sign bit (`Ingress.CapExactIff`); one megabyte above 2^43 a body
  of 8194 bytes is refused (`Ingress.WrappedCapExample`).

## Model

| member | source | states |
|---|---|---|
| QueueSafety.InvKept | pkg/queue/queue.go:154-389 | every step of every Enqueue call, Stop call or worker keeps the one invariant: locking, closing, worker phases, accounting, answers, order, drain report |
| QueueSafety.OutstandingIs | pkg/queue/queue.go:244-266 | accepted events without an outcome are those in the channel plus those in workers' hands |
| QueueTheorems.Conservation | pkg/queue/queue.go:169-197 | in every reachable state attempts = accepted + refused + unanswered; each accepted event is in exactly one of channel, one worker's hands, written, failed; the counters are the sizes of those collections; `OutcomesCounted` says which batches are written and which failed |
| QueueOutcomes.OutcomesCounted | pkg/queue/queue.go:362-387 | for every schedule the written events are those of the batches WriteBatch accepted, in the order it returned, and the failed ones those of the batches it refused; the event counters are their numbers, the batch counters the calls begun and the calls refused |
| QueueOutcomes.CloseReported | pkg/queue/queue.go:287-296 | in every reachable state the writer has been closed, once, if and only if some Stop call returned having closed it |
| QueueOutcomes.RoomMeansAccepted | pkg/queue/queue.go:169-197 | while the queue is open and has had no more calls than its capacity, nothing has been refused |
| QueueProgress.CallsReturn | pkg/queue/queue.go:169-296 | from every reachable state all Enqueue and Stop calls can return by their own steps, without a worker moving |
| QueueTheorems.NeverPanics | pkg/queue/queue.go:169-215 | no interleaving sends on the closed channel or closes it twice |
| QueueTheorems.AfterStopRefused | pkg/queue/queue.go:173-181 | a call that begins after any Stop released the lock is never accepted and is counted refused exactly once |
| QueueTheorems.BatchesInOrder | pkg/queue/queue.go:320-344 | each WriteBatch call gets 1 to maxBatch events that form a subsequence of the accepted events in order |
| QueueTheorems.WriterClosedOnce | pkg/queue/queue.go:287-296 | the writer is closed only when never closed before and every worker has exited; on a started queue everything accepted has then been charged to written or failed |
| QueueTheorems.ClosedAtMostOnce | pkg/queue/queue.go:275-296 | in every reachable state the writer was closed at most once and, if so, no WriteBatch is running |
| QueueTheorems.CountersAtClose | pkg/queue/queue.go:287-296 | when the writer is about to be closed, written + errors + dropped equals the answered calls plus what a timed-out drain reported |
| QueueTheorems.NothingLeft | pkg/queue/queue.go:299-312 | once the workers of a started queue are gone the channel is empty and nobody holds an event |
| QueueTheorems.EverythingHandedOver | pkg/queue/queue.go:299-344 | then the batches of each worker, end to end, are exactly the accepted events it received: together a partition of the accepted events |
| QueueTheorems.OneWorkerKeepsOrder | pkg/queue/queue.go:299-344 | with one worker the batches end to end are a prefix of the accepted sequence at all times, and all of it at the end |
| QueueTheorems.WorkerStepCounts | pkg/queue/queue.go:299-389 | each worker step lowers a measure over channel, batches and phases |
| QueueTheorems.DrainBounded | pkg/queue/queue.go:207-221 | after the close no schedule has more worker steps than that measure, whatever callers do in between |
| QueueTheorems.DrainTerminates | pkg/queue/queue.go:204-221 | after the close at most 5 steps per queued event and 6 per worker remain in any schedule, and a worker that has not exited always has one it can take if its WriteBatch returns |
| QueueTheorems.DrainEnds | pkg/queue/queue.go:204-221 | from every reachable state after the close a schedule of worker steps, every WriteBatch returning without error, ends with all workers exited and no error more than before; on a started queue with the channel empty and every accepted event written that had not been an error before |
| QueueFlush.AlwaysDelivers | pkg/queue/queue.go:299-389 | from every reachable state of a started queue, open or closed, the workers alone can write every accepted event that had not been an error before, and empty the channel |
| QueueFlush.BatchOf | pkg/queue/queue.go:320-344 | an idle worker can hand over the first k waiting events as one batch for every k from 1 to the batch limit, in any state |
| QueueTheorems.ReportExactness | pkg/queue/queue.go:355-360 | inFlight is the size of the batches between charge and release; len(ch) + inFlight is the outstanding number exactly when events pulled but not begun equal events charged but not released, and never off by more than workers x maxBatch |
| QueueTheorems.ReportBrackets | pkg/queue/queue.go:244-273 | the number a timed-out Stop adds to the drop counter, read in two parts while workers move, is bracketed by what was outstanding before and after up to workers x maxBatch |
| QueueClass.Queue.constructor | pkg/queue/queue.go:131-143 | a new queue is open, empty and has settled defaults |
| QueueClass.Queue.Enqueue | pkg/queue/queue.go:169-197 | accepted exactly when open and not full; otherwise only the drop counter moves, by one |
| QueueClass.Queue.CloseInput | pkg/queue/queue.go:207-215 | only the first call closes the channel |
| QueueClass.Queue.NextBatch | pkg/queue/queue.go:320-344 | takes a front piece of the channel, as long as the channel, maxBatch and the moment the timer wins the select allow, exactly; more is false exactly when the closed channel ran empty before either of the others |
| QueueClass.Queue.WriteBatch | pkg/queue/queue.go:351-389 | a batch the writer takes moves EventsWrittenTotal by its size and nothing else, one it refuses the writer errors by its size and the batch errors by one; inFlight is left where it was |
| QueueClass.Queue.Work | pkg/queue/queue.go:299-312 | draining a closed queue alone ends, hands over the channel's content in order in legal batches, and charges each event once |
| Labels.TallyIs | pkg/metrics/metrics.go:175-186 | after any increments the table has exactly the first 128 distinct labels with every occurrence of each, and the drop count has all others |
| Metrics.RecordedCounts | pkg/metrics/metrics.go:114-166 | recording any events: both tables capped, counts exact, and all counts plus drops equal calls plus calls with a server |
| Metrics.ConcurrentIsSequential | pkg/metrics/metrics.go:114-166 | any interleaving of the read-locked looks, the atomics outside the lock and the single steps of the write-locked section ends with the tables and drops of the same events one at a time in lock order |
| Metrics.AlwaysCapped | pkg/metrics/metrics.go:81-88 | at every moment of every interleaving, inside the write-locked section too, both tables have at most 128 labels |
| Metrics.WriteLockIffNewLabel | pkg/metrics/metrics.go:114-146 | the write lock is avoided exactly when recording would create no label |
| Metrics.CallsReturn | pkg/metrics/metrics.go:114-166 | from every reachable state the calls' own steps finish them all: no call waits for a lock for ever |
| Metrics.RunsEnd | pkg/metrics/metrics.go:114-166 | without new calls no schedule has more than six steps a call |
| Peers.PeersAre | pkg/metrics/metrics.go:317-353 | the table has exactly the first 64 distinct requesting hosts; the drop counter counts the requests of all others and of no one else |
| Peers.PeerCounts | pkg/metrics/metrics.go:364-389 | a peer's registrations and heartbeats are exactly those after the request that created it |
| Peers.LastRequest | pkg/metrics/metrics.go:317-332 | a peer's time is that of its host's last request |
| Peers.ConcurrentIsSequential | pkg/metrics/metrics.go:323-389 | at every moment of every interleaving the table is that of the finished calls one at a time in the order of their effects |
| Peers.CallsReturn | pkg/metrics/metrics.go:323-389 | from every reachable state the calls' own steps finish them all |
| Peers.RunsEnd | pkg/metrics/metrics.go:323-389 | without new calls no schedule has more than two steps a call |
| Store.BumpLabel | pkg/metrics/metrics.go:175-186 | increments or creates under the cap, and reports a discarded increment |
| Store.MetricsStore.RecordEvent | pkg/metrics/metrics.go:105-112 | keeps the tables those of the whole history of calls, which grows by this one |
| Store.MetricsStore.CountEvent | pkg/metrics/metrics.go:114-166 | fast path and slow path both come to counting the event under the two caps |
| Store.MetricsStore.EventTypeSnapshot | pkg/metrics/metrics.go:188-197 | lists each of the first 128 labels ever recorded once, with the number of times it has been recorded |
| Store.MetricsStore.RecordPeerRequestAt | pkg/metrics/metrics.go:323-353 | keeps the peer table that of the whole history of calls, within 64 peers |
| Store.MetricsStore.RecordPeerRegistration | pkg/metrics/metrics.go:355-373 | keeps the peer table that of the history and creates no peer |
| Store.MetricsStore.RecordPeerHeartbeat | pkg/metrics/metrics.go:375-389 | keeps the peer table that of the history and creates no peer |
| Utf16.DecodeUTF16Pairs | pkg/parser/utf16.go:70-90 | the two loops compute the transcoding to which the theorems apply |
| Utf16.EncodeToUTF16LE | pkg/parser/utf16.go:133-140 | the loop computes the encoding to which the theorems apply |
| Utf16.DecodeFailsIff | pkg/parser/utf16.go:36-73 | decoding fails exactly on a UTF-16 body of odd length, and leaves every other body that is not UTF-16 alone |
| Utf16.TranscodedIsValid | pkg/parser/utf16.go:84-89 | transcoded output is valid UTF-8 of at most three bytes a unit, lone surrogates included |
| Utf16.ByteOrderIrrelevant | pkg/parser/utf16.go:41-46 | with a byte order mark both byte orders of any units decode alike |
| Utf16.BareOrderIrrelevant | pkg/parser/utf16.go:48-58 | without a mark both byte orders decode alike when the first unit is U+0001 to U+00FF |
| Utf16.KnownCharacters | pkg/parser/utf16.go:70-140 | the first and last characters of each length of UTF-8, the ends of the surrogate range and the example of RFC 2781, as the exact bytes and units |
| Utf16.RoundTripIff | pkg/parser/utf16.go:130-140 | any text encoded as UTF-16LE decodes to itself if and only if it is empty or its first character is U+0001 to U+00FF |
| Utf16.ReencodeIff | pkg/parser/utf16.go:53-58 | a BOM-less little-endian body of even length is given back by encoding its decoding if and only if no surrogate in it stands alone |
| Utf16.DecodeTwiceIff | pkg/parser/utf16.go:33-36 | decoding a second time changes nothing if and only if the first two decoded bytes are not one NUL and one other byte |
| Utf16.DecodeTwiceCounterexample | pkg/parser/utf16.go:33-36 | a payload that a second decoding changes |
| Classify.RootIsIff | pkg/parser/classify.go:74-106 | rootIs holds if and only if the root element's whole name is the given one and its start tag is closed; where the root element is, `Documents` says byte by byte |
| Classify.ClassifyIffRoot | pkg/parser/classify.go:50-63 | a dialect is returned if and only if the root's name is that dialect's |
| Classify.ClassifyAgrees | pkg/parser/classify.go:27-47 | decode-once agrees with the decode-each-time predicates on every raw body, fails exactly on undecodable ones, and no body satisfies two predicates |
| Classify.OrderIrrelevant | pkg/parser/classify.go:50-63 | trying the four dialects in any order gives the same answer |
| Classify.EncodingIrrelevant | pkg/parser/classify.go:41-47 | a document is classified alike in UTF-8 and in UTF-16 of either byte order, bare or behind a mark |
| Classify.TruncatedIsUnknown | pkg/parser/classify.go:94-101 | a payload cut before the root's start tag is closed is no dialect |
| Documents.DeclarationSkipped | pkg/parser/classify.go:76-81 | an XML declaration in front of any document, well formed or not, that has no second one changes neither its classification nor its root name |
| Documents.RootOfTag | pkg/parser/classify.go:74-106 | a document that is any spaces, '<', a name, one of the six ending bytes and anything with a '>' has that name for its root |
| Documents.Recognised | pkg/parser/classify.go:50-106 | so every dialect's document is recognised behind any spaces, with and without a declaration |
| Trimming.TrimSpaceIff | pkg/parser/classify.go:75-81 | trimming gives the one text that neither begins nor ends with a space and has only spaces around it in the input |
| Trimming.BlankIff | pkg/server/redact.go:50-59 | trimming leaves nothing if and only if the text is spaces and nothing else |
| EvtxBudget.BackOffLoop | pkg/evtx/writer_evtx_notwindows.go:161-164 | finds the nearest rune start at or before the cut |
| EvtxBudget.TruncateField | pkg/evtx/writer_evtx_notwindows.go:156-166 | the result has at most 8192 bytes, and is marked truncated exactly when it differs |
| EvtxBudget.CutsKeepMost | pkg/evtx/writer_evtx_notwindows.go:156-216 | on valid text a cut drops no more than the three bytes of a split rune beyond what the cap or the halving asks |
| EvtxBudget.ClipShape | pkg/evtx/writer_evtx_notwindows.go:156-166 | a capped value is the original or a proper prefix ending between runes and one marker |
| EvtxBudget.HalvedShape | pkg/evtx/writer_evtx_notwindows.go:198-216 | a second cut is again one prefix of the original and one marker: nothing of an earlier marker stays |
| EvtxBudget.ShapeKeepsValid | pkg/evtx/writer_evtx_notwindows.go:161-165 | no cut splits a rune of a valid value |
| EvtxBudget.TurnShortens | pkg/evtx/writer_evtx_notwindows.go:183-218 | each turn lowers the sum of byte lengths, whichever longest value it picks |
| EvtxBudget.RunsEnd | pkg/evtx/writer_evtx_notwindows.go:183-218 | so for every map no run has more turns than its bytes |
| EvtxTotals.HalvedCost | pkg/evtx/writer_evtx_notwindows.go:198-217 | for every value halving changes its encoded length by the marker's twelve units less the units it drops |
| EvtxTotals.TurnNeverRaises | pkg/evtx/writer_evtx_notwindows.go:183-218 | on a map of at most 448 entries no turn, whichever longest value it picks, raises the encoded total |
| EvtxTotals.TurnLowers | pkg/evtx/writer_evtx_notwindows.go:183-218 | on a map of at most 411 entries, so on a record's 19 fields, every turn lowers it |
| EvtxTotals.RunLowers | pkg/evtx/writer_evtx_notwindows.go:183-218 | over a whole run on such a map the total falls from turn to turn |
| EvtxTotals.TotalRisesIff | pkg/evtx/writer_evtx_notwindows.go:183-218 | both bounds are exact: a map of n entries with a turn that raises the total exists if and only if n > 448, one with a turn that does not lower it if and only if n > 411 |
| EvtxTotals.StoppedTooEarly | pkg/evtx/writer_evtx_notwindows.go:202-214 | for every count above 1015 a map on which the loop stops over budget while a shorter value could be halved to fewer bytes and a lower total |
| EvtxTotals.NothingLeftIff | pkg/evtx/writer_evtx_notwindows.go:202-214 | stopping over budget means nothing can be shortened if and only if there are at most 1015 entries |
| EvtxBudget.EndsInBudget | pkg/evtx/writer_evtx_notwindows.go:192-214 | wherever the loop may stop on a map of at most 1015 entries, the encoded total is at most 60900 |
| EvtxBudget.MoreEntriesMayNot | pkg/evtx/writer_evtx_notwindows.go:202-214 | for every larger count some map stops the loop over budget |
| EvtxBudget.SmallNotCut | pkg/evtx/writer_evtx_notwindows.go:168-171 | a value so small that one of its size for each entry fits is never the one halved |
| EvtxBudget.RunKeeps | pkg/evtx/writer_evtx_notwindows.go:174-220 | a whole run keeps the keys, leaves each value whole or cut once, spares the small ones, and changes the map if it takes a turn |
| EvtxFields.FieldMap.EncodedTotal | pkg/evtx/writer_evtx_notwindows.go:175-178 | the running total starts as the true encoded sum |
| EvtxFields.FieldMap.FindLongest | pkg/evtx/writer_evtx_notwindows.go:184-191 | finds a longest value in any order of iteration, none only if all are empty |
| EvtxFields.FieldMap.HalveLongest | pkg/evtx/writer_evtx_notwindows.go:183-218 | one turn in place: either stuck and unchanged, or a longest value is halved and the returned change is the exact change of the encoded sum, negative on at most 411 entries |
| EvtxFields.FieldMap.EnforceEncodedBudget | pkg/evtx/writer_evtx_notwindows.go:174-220 | ends in a map where it may stop, through turns only, and reports shortening exactly when it started over budget |
| EvtxFields.ChangedIff | pkg/evtx/writer_evtx_notwindows.go:292-299 | the two passes change something if and only if a value was over its cap or the clipped set over budget |
| EvtxFields.BothPasses | pkg/evtx/writer_evtx_notwindows.go:225-307 | after both passes each of the 19 values is whole or cut exactly once between runes, those of at most 1600 bytes are untouched, and the encoded total is at most 60900 |
| EvtxFields.RecordOfEvent | pkg/evtx/writer_evtx_notwindows.go:225-307 | the same for the fields of every event, each shown from the part of the event it is there for (`Says` names it for all 19), and when they differ from the event's own |
| EvtxFields.RecordBuilder.ClipFields | pkg/evtx/writer_evtx_notwindows.go:226-290 | clips exactly the thirteen free fields and flags exactly when one was over the cap |
| EvtxFields.RecordBuilder.WindowsEventToFields | pkg/evtx/writer_evtx_notwindows.go:225-307 | the record meets all of that: each of the 19 fields shows its own part of the event, whole up to 1600 bytes; the truncation counter moves by one exactly when a value changed |
| EvtxFields.ShownWhole | pkg/evtx/writer_evtx_notwindows.go:270-290 | so a user name, a domain, an object's name and a client's address of at most 1600 bytes appear as they are under their own keys |
| Redact.RedactPayload | pkg/server/redact.go:27-85 | the scanning loop ends and computes the rendering of the payload's tokens, cut and marked at the bound |
| Redact.SpellLex | pkg/server/redact.go:33-72 | every payload is spelled by a readable token list |
| Redact.LexSpell | pkg/server/redact.go:33-72 | and by no other: scanning a readable list's spelling gives the list back |
| Redact.ResultIsShape | pkg/server/redact.go:16-26 | payloads with the same tag bytes that differ only inside quoted values and non-blank text runs are rendered alike |
| Redact.RenderedAlikeIff | pkg/server/redact.go:16-77 | below the bound two payloads are rendered alike if and only if they have the same tags with values and non-blank texts in the same places |
| Redact.MarkupKept | pkg/server/redact.go:18-19 | element and attribute names are kept: short markup without values or text is rendered as it is |
| Redact.RedactTwice | pkg/server/redact.go:33-77 | a rendering short of the bound is a payload that renders as itself: nothing is left to remove |
| Redact.ResultBound | pkg/server/redact.go:74-84 | the result is at most 512 + 14 bytes |
| RedactBound.RedactedBeyond | pkg/server/redact.go:33-84 | for every payload that renders to more than 512 bytes: the first 512 rendered bytes and the mark, with ill-formed bytes dropped only when no token ends there |
| RedactBound.RedactedExactly | pkg/server/redact.go:33-77 | for every payload that renders to 512 bytes: all of them, and the mark if the payload ends in a blank text |
| RedactBound.TextAtBound | pkg/server/redact.go:74-84 | a payload of valid UTF-8 of any length is rendered as its first 512 rendered bytes, none dropped, and the mark exactly when it is over the bound or ends in a blank at it |
| RedactBound.TextIff | pkg/server/redact.go:78-83 | such a payload's result is valid UTF-8 if and only if the bound does not fall inside a rune of the rendering |
| RedactBound.SplitExample | pkg/server/redact.go:78-83 | a payload whose rendering is cut inside a rune, with the exact result |
| RedactBound.DropInvalidIs | pkg/server/redact.go:82-82 | dropping ill-formed bytes leaves valid UTF-8, and changes nothing if and only if the bytes were valid |
| RedactBound.TextAlone | pkg/server/redact.go:45-59 | a payload without '<' shows nothing if it is all spaces and three dots otherwise |
| RedactBound.ValueAlone | pkg/server/redact.go:63-72 | in a tag everything is kept but the quoted value, which becomes three dots in double quotes whatever it held |
| Register.UnescapeEscape | pkg/server/register.go:183-201 | undoing the five entities gives every value back |
| Register.EscapedSafe | pkg/server/register.go:191-201 | an escaped value has no quote, apostrophe or angle bracket to break the document |
| Register.RegistrationResponseXML | pkg/server/register.go:143-181 | the loop over the protocol list computes the document to which the reader applies |
| Register.ReadBack | pkg/server/register.go:143-181 | for every configuration a reader recovers guid, friendlyName, version and desc exactly, and one Filter per non-blank protocol, trimmed and in order |
| RegisterText.ResponseValidIff | pkg/server/register.go:143-201 | the rendered document is valid UTF-8 if and only if every configured string it shows is |
| RegisterText.ResponseValid | pkg/server/register.go:171-175 | splitting and trimming keep UTF-8 whole: a configuration of valid strings renders as a valid document |
| RegisterText.DefaultsValid | pkg/server/register.go:99-109 | filling in the defaults keeps a configuration of valid strings valid |
| RegisterText.DefaultDocument | pkg/server/register.go:74-109 | a handler without settings answers with the default identity and one Filter for each of the two default protocols |
| Register.RenderingTells | pkg/server/register.go:143-181 | configurations that render alike have the same identity and filters |
| RegisterXml.ResponseReads | pkg/server/register.go:143-181 | for every configuration a reader of tags and attributes that shares no text with the printer finds one RegisterResponse with the EndPoint, its four attributes, and the Filters with their EventTypeFilters, and nothing else |
| RegisterXml.ResponseNests | pkg/server/register.go:143-181 | every tag of the document is closed, innermost first |
| Framing.ReadBack | pkg/evtx/writer_syslog.go:93-101 | an RFC 6587 section 3.4.1 receiver reads from the frames exactly the payloads, whatever bytes they hold |
| Framing.ReadPrefix | pkg/evtx/writer_syslog.go:93-101 | from a stream cut anywhere it reads exactly the payloads whose frames are whole |
| Framing.GrammarIff | pkg/evtx/writer_syslog.go:97-101 | the frames follow the grammar's non-zero length if and only if no payload is empty |
| Framing.ReadNulIff | pkg/evtx/writer_gelf.go:194-202 | a receiver of NUL-terminated frames reads exactly the payloads if and only if none contains a NUL |
| Delivery.UnitIsTried | pkg/evtx/writer.go:140-155 | for every answer of the network one send is exactly one write, or two with a redial between and the second on the new connection; its error is that of the last step, and no replaced connection stays open |
| Delivery.DatagramsTried | pkg/evtx/writer_syslog.go:175-186 | over UDP every payload is tried once or twice, in order, however many before it failed, and the errors name exactly those that did not arrive |
| Delivery.BatchTried | pkg/evtx/writer_syslog.go:132-187 | for every pattern of build, send and redial failures: what is attempted, exactly which errors are reported, nil if and only if every event was built and every unit's last write succeeded, and no old connection left open |
| Delivery.BuildErrorsAre | pkg/evtx/writer_syslog.go:144-158 | each event is either built or reported under its own number, never both |
| Delivery.BuiltAppend | pkg/evtx/writer_syslog.go:140-154 | an event's payload and place do not depend on whether others could be built |
| Delivery.FrameAppend | pkg/evtx/writer_gelf.go:154-203 | a batch's frame is the events' own frames end to end |
| Delivery.SingleIs | pkg/evtx/writer_syslog.go:104-116 | a batch of one sends the bytes WriteEvent sends |
| Delivery.NilMeansDelivered | pkg/evtx/writer_syslog.go:163-173 | a nil answer on TCP means one successful write from which a receiver reads every event's payload, in order, and nothing else |
| Streams.StreamReadBack | pkg/evtx/writer_syslog.go:132-173 | over any run of batches and any answers of the network, the only connection written to without a failure is the current one, and a receiver reads from its stream the payloads of all events of some call and every later one, in order, and nothing else |
| Writers.SocketWriter.Connect | pkg/evtx/writer_syslog.go:62-73 | a failed dial keeps the old connection; a successful one replaces and closes it |
| Writers.SocketWriter.RetrySend | pkg/evtx/writer.go:143-155 | the send, reconnect, send sequence |
| Writers.SocketWriter.WriteEvent | pkg/evtx/writer_syslog.go:104-122 | an event that cannot be built changes nothing; one that can is sent as a batch of one |
| Writers.SocketWriter.BuildAll | pkg/evtx/writer_gelf.go:175-186 | the build loop collects all payloads and all errors |
| Writers.SocketWriter.FrameAll | pkg/evtx/writer_syslog.go:163-167 | the frame loop builds the stream the receivers read |
| Writers.SocketWriter.SendEach | pkg/evtx/writer_gelf.go:210-219 | the datagram loop tries every payload |
| Writers.SocketWriter.WriteBatch | pkg/evtx/writer_gelf.go:164-220 | the whole method, tied to the function BatchTried is about |
| Writers.SocketWriter.Close | pkg/evtx/writer_syslog.go:190-197 | afterwards no connection is open |
| Writers.SerialWriter.WriteBatch | pkg/evtx/writer.go:118-126 | every event is attempted exactly once and in order; the errors name exactly the refused ones; nil if and only if none was |
| Ingress.BodyReader.ReadProbe | pkg/server/server.go:656-665 | the extra byte tells exactly whether the body ended within the probe |
| Ingress.BodyReader.ReadBody | pkg/server/server.go:682-688 | fails exactly when more than the limit is left or a read fails |
| Ingress.BodyReader.ReceiveBody | pkg/server/server.go:339-378 | the two reads put together give the request's own bytes, whole, or say which of the two failed, exactly as the caps and the reader decide |
| Ingress.CapExactIff | pkg/server/server.go:158-168 | of the readable bodies a 64-bit program can hold exactly those up to the configured megabytes are accepted, if and only if these are at most 2^43 or 2^43 modulo 2^44 |
| Ingress.WrappedCapRefuses | pkg/server/server.go:168-168 | for every other setting: a length within the configured cap that is refused |
| Ingress.WrappedCapExample | pkg/server/server.go:168-168 | at 2^43 + 1 megabytes a body of 8194 bytes is refused |
| Ingress.MaxBodyMB | pkg/server/server.go:158-163 | the cap is at least one megabyte, and a positive setting is kept |
| Ingress.LiveByRoot | pkg/server/server.go:667-680 | a decodable payload is liveness traffic if and only if its root's whole name is RegisterRequest or HeartBeatRequest, or CheckFileRequest with the heartbeat action |
| Ingress.ReplyByRoot | pkg/server/server.go:406-550 | a request whose root element has a dialect's whole name is answered with that dialect's document and no other, in any encoding |
| Ingress.ReplyOtherwise | pkg/server/server.go:384-403 | any other root gets no document; a body that cannot be decoded gets the event acknowledgement |
| Ingress.UnreadableAnswered | pkg/server/server.go:299-310 | a body that breaks off or is over the cap, for every cap up to 2^43 megabytes, is answered with the event acknowledgement |
| Ingress.NoDocumentIff | pkg/server/server.go:299-560 | a request is left without a document if and only if it arrives whole, can be decoded, and its root has the name of no dialect |
| Ingress.AnsweredByName | pkg/server/server.go:406-560 | the whole table by the root's literal name: RegisterRequest, CheckFileRequest, HeartBeatRequest and CheckEventRequest get each their own document, any other name none |
| ReplyXml.RepliesTell | pkg/server/server.go:87-125 | the four replies by what publishers tell them by: root elements RegisterResponse, CheckFileResponse and CheckEventResponse, and hbStatus=0 with ntStatus=0 |
| ReplyXml.CheckEventReads | pkg/server/server.go:125-125 | the event acknowledgement reads as one empty element with status 0x0 |
| ReplyXml.CheckFileReads | pkg/server/server.go:87-97 | the answer to OneFS reads as a CheckFileResponse with status 0x0 and its version |
| Ingress.ProbeTells | pkg/server/server.go:299-310 | what is kept of a request tells its encoding as the whole body does, unless the probe itself broke off |
| Ingress.ReplyMirrors | pkg/server/server.go:260-281 | for every request: it gets no document exactly as `NoDocumentIff` says, or a reply that is in UTF-16 exactly when the request is and its probe could be read, verbatim otherwise, and that such a publisher decodes to the reply if and only if that is valid UTF-8 |
| Ingress.RepliesAreText | pkg/server/server.go:221-231 | with a configuration of valid strings, defaults filled in, all four replies begin as plain text and are valid UTF-8: so every publisher reads them as they are |
| Ingress.RegistrationReadBack | pkg/server/server.go:406-413 | for every configuration a registering publisher decodes the reply to the document that reads back as the configured identity and filters, if and only if it does not use UTF-16 or the strings shown are valid UTF-8 |
| Slots.SlotsBounded | pkg/server/server.go:248-258 | over all interleavings the slots taken are those of the requests holding one, at most the limit; no release waits; throttled is counted once per request that found the channel full |
| Slots.NewServer | pkg/server/server.go:158-166 | there is at least one slot, and a positive setting is kept |
| Slots.ThrottledIffFull | pkg/server/server.go:248-256 | a request is made to wait and counted as throttled if and only if the slots are all taken as it tries; otherwise it takes one uncounted |
| Slots.RoomForAll | pkg/server/server.go:248-256 | with no more requests than slots nobody waits and nothing is counted as throttled |
| Slots.ReleasedOnce | pkg/server/server.go:362-378 | a returned request never took a slot if it was a liveness payload whole in the probe or broke off within it; any other took exactly one and gave it back exactly once |
| Slots.LivenessNeverWaits | pkg/server/server.go:358-363 | a fully probed liveness request never waits, holds or is throttled, and can always move |
| Slots.RunsEnd | pkg/server/server.go:314-378 | without new arrivals every schedule ends after at most five moves a request |
| Slots.AllAnswered | pkg/server/server.go:234-258 | under every configured limit, from every reachable state all requests can be answered and all slots freed: none is stuck |

## Left out

- `Start` called twice, or only after `Stop`: a run has at most one `Start`, before any `Stop`; a queue that is never started is included.
- Goroutine fairness and wall-clock time: timers may fire at any moment, and termination is stated as a bound on steps plus a step always being possible.
- Metrics and logging inside the queue other than its own counters; drops counted elsewhere on the same counter.
- A waiting writer does not hold up new readers in the metrics store as Go's RWMutex does: more interleavings, not fewer.
- QueueClass, Store and Writers: each method is what one goroutine does between interferences; interleavings are the step systems' subject.
- QueueClass.Queue.NextBatch: called where the first receive does not block.
- `EventServerSnapshot`, `PeerSnapshot`, `Snapshot` and the Reset functions: easy members or test support.
- HTTP, TLS, sockets, dialling, flushing and the Beats client: sends, dials and reads answer by oracle.
- Bytes of a TCP frame that was only partly written: redialling may fail and keep the torn connection, so what a collector reads after a failed write is not decided by this code (`Streams.StreamReadBack` is about connections without one).
- Parsing of events (`encoding/xml`), the OneFS action attribute and the mapper: whether a decoded document carries the heartbeat action is a parameter.
- Counting of received and dropped events in `ServeHTTP`: two branches count nothing on purpose, so no conservation law holds there.
- RFC 5424 message building and GELF JSON: whether and to what an event builds is a parameter.
- go-evtx encoding, rotation and fsync, the Win32 writer, the Windows service and SIGHUP handling: libraries or operating system.
- Configuration loading, health, Prometheus registry and the Python tools.
