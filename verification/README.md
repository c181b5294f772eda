# enum-subdomain-go, the decision logic in Dafny

This project models the sequential decision logic of the subdomain enumerator
`enum-subdomain-go`. It has the same two trees as the program: the command
tree (`package main` at the root, which reads the global `appArgs`) and the
library tree (`pkg/`, which takes an `*AppArgs`). Each behaviour is modelled
once, with the configuration passed as an immutable value. Where the two trees
behave differently, both behaviours are modelled.

Each Go component has one module:

- `Alphabet`: the 37-symbol brute-force alphabet and the random probe labels
  (`BuildAlphaTable`, `buildAlphaTable`, `RandString`, `randStr`).
- `Odometer`: the odometer-style Cartesian `product`. Round `j` yields the
  tuple that the base-|a| numeral of `j` selects, so the carry loop is the
  successor on numerals. With k = 0 it never stops.
- `BruteLength`: `buildBruteLengthTask`. It covers the length setting, the
  labels of each length, the boundary-hyphen filter and the length loop. Its
  hyphen filter matches the label syntax of section 2.3.1 of RFC 1035, as
  relaxed by section 2.1 of RFC 1123 to allow a leading digit.
- `Dictionary`: `buildDictTask`, both the built-in list and the
  `ReadString('\n')` file loop. The file loop spins forever on a final line
  that is blank or a comment.
- `TaskBuilder`: the builder's `worker` over the technicals D, L and F. It
  covers the wildcard gate and the way a spinning generator stops the walk.
- `Dns`: A/CNAME extraction (record types of section 3.2.2 of RFC 1035),
  `DoDNSResolve`, the three-try reachability check, nameserver pruning, and
  the two wildcard verdicts.
- `Resolution`: one resolution worker. It is a two-flag state machine over the
  events its `select` delivers, with qualification of candidates, `resolve`
  with three attempts, and the emit rule.
- `ResultSink`: the result sink. It drops empty records, keeps the first
  record per domain, and projects each kept record to its 8-column row.
- `Collector`: the FOFA collector. It covers pagination up to page 30, scheme
  prefixing, first-seen deduplication, publication, and the request URL.
- `Base64Url`: the base64url encoding of section 5 of RFC 4648, with padding,
  over the UTF-8 bytes of a string, used for the collector's query.
- `Validation`: the checks made before the stages start. These are the
  technicals and brute-length flag actions, `checkArgs`, and `mainAction`.
- `Common`, `GoStrings` and `Records` hold shared datatypes and the Go
  standard-library string functions the code calls: `TrimSpace`, `Split`,
  `Join`, `ToUpper`, `ReplaceAll`, `ParseUint` and `Itoa`.

Network replies, reachability, the random nameserver choice, the random
letters, the URL parser and the HTTP title fetch are all function parameters
(oracles). Files are passed as their content, a string. Channels become input
and output sequences. A generator that spins forever returns `Hangs(sent)`,
where `sent` is what it sent before it started spinning.
Reachability is asked per pool entry: `reach(ns, i, k)` is whether the k-th
exchange of the check of entry i, server `ns`, succeeds. The pool may list a
server twice, and each entry is checked afresh, so the copies can differ.

## Model

| member | source | states |
|---|---|---|
| `Alphabet.BuildAlphaTable` | pkg/utils.go:15-25 | The table has 37 entries: entry i is 'a'+i below 26, '0'+(i-26) below 36, and "-" at 36. The three appending loops build the same table as the reference `Alpha()`. The command tree's `buildAlphaTable` (task_builder_engine.go:152-162) has the same loops. |
| `Alphabet.AlphaDistinct` | pkg/utils.go:15-25 | Every entry is a one-character string and no two entries are equal. |
| `Alphabet.LettersLiteral` | pkg/utils.go:5 | The probe-label character set is the constant "abcdefghijklmnopqrstuvwxyz0123456789": 36 letters and digits, no '-'. |
| `Alphabet.RandString` | pkg/utils.go:7-13 | The result has length n, and every character is in `LETTERS` and is not '-'. The same holds for `randStr` (main.go:262-268). |
| `Alphabet.RandStringCoversLetters` | pkg/utils.go:7-13 | The character set is exact: every string over `LETTERS` is what some sequence of random picks produces. |
| `Odometer.Product` | pkg/task_builder_engine.go:150-174 | For k >= 1 the loop stops exactly after |a|^k rounds, and round j yields the tuple its numeral selects. For k = 0 it never stops and every round yields the empty tuple. The same holds for task_builder_engine.go:164-188. |
| `Odometer.TupleAt` | pkg/task_builder_engine.go:155-158 | Every tuple has length k, and each of its elements is drawn from `a`. |
| `Odometer.ToDigitsZero` | pkg/task_builder_engine.go:151 | The zero vector `make([]int, k)` is the numeral of round 0. |
| `Odometer.AdvanceIsSuccessor` | pkg/task_builder_engine.go:160-170 | On k >= 1 positions, the carry loop turns the numeral of m into that of m + 1. It sets `indexes` to nil exactly after the last numeral, |a|^k - 1. |
| `Odometer.AdvanceEmptyNeverStops` | pkg/task_builder_engine.go:154-172 | With k = 0 the carry loop has nothing to touch and `indexes` never becomes nil: `product(a, 0)` does not terminate. |
| `Odometer.ToFromDigits` | pkg/task_builder_engine.go:154-172 | Every index vector with entries below |a| is the numeral of one round below |a|^k. |
| `Odometer.ProductVisitsEachVectorOnce` | pkg/task_builder_engine.go:154-172 | Each index vector is visited in exactly one round. |
| `Odometer.ToDigitsOrdered` | pkg/task_builder_engine.go:154-171 | Later rounds have lexicographically larger index vectors, with the last position turning fastest. |
| `Odometer.ProductRound` | pkg/task_builder_engine.go:154-172 | One round yields the tuple of its numeral. The carry step gives the next numeral, or nil exactly after the last one. With k = 0 it yields the empty tuple and never gives nil. |
| `Odometer.ProductFirstTuple` | pkg/task_builder_engine.go:151-158 | The first tuple is `a[0]` in every position. |
| `BruteLength.ParseLengthSpec` | pkg/task_builder_engine.go:120-130 | Without '-' in the setting, min and max are both the parsed setting. With '-', min is the parsed text before the first '-'. Both lengths are at most 2^32 - 1. |
| `BruteLength.ParseLengthSpecFields` | pkg/task_builder_engine.go:121-125 | For a setting "x-y" followed by further '-' fields, min is read from x and max from y. Later fields are ignored. |
| `GoStrings.ParseUint32SyntaxError` | pkg/task_builder_engine.go:124-127 | `strconv.ParseUint(_, 10, 32)` with its error discarded gives 0 when it reaches a non-digit while the digits before it still fit in 32 bits. |
| `GoStrings.ParseUint32RangeError` | pkg/task_builder_engine.go:124-127 | It gives 2^32 - 1 as soon as the digits read exceed 2^32 - 1, whatever follows them. |
| `GoStrings.ParseUint32Cases` | pkg/task_builder_engine.go:124-127 | Every non-empty field is a fitting number, a syntax error or a range error. With `ParseUint32OfDigits` and the two lemmas above, this fixes the value on every input. |
| `BruteLength.ParseLengthSpecErrors` | pkg/task_builder_engine.go:121-130 | A field whose parse stops at a non-digit reads as length 0. A field whose digits overflow reads as 2^32 - 1. This holds for the single setting and for each of min and max. |
| `BruteLength.ParseLengthSpecExamples` | pkg/task_builder_engine.go:121-130 | Settings the flag check accepts read as follows: "x1" gives the range 0..0, and "5-" gives 5..0. |
| `BruteLength.ParseLengthSpecOfNumbers` | task_builder_engine.go:122-132 | The settings "n" and "lo-hi" read back as the lengths they name. |
| `BruteLength.JoinedTupleIsLabel` | pkg/task_builder_engine.go:134-135 | Joining tuple j of `product(alphaTable, k)` with "" gives the k-character label that the numeral of j spells. |
| `BruteLength.KeepLabelEnds` | pkg/task_builder_engine.go:136 | The hyphen test on a non-empty label keeps it exactly when its first and last characters are not '-'. |
| `BruteLength.LabelOfEveryWord` | pkg/task_builder_engine.go:134-135 | Every word of length k over the alphabet is yielded by some round of the product. |
| `BruteLength.TuplesAreWords` | pkg/task_builder_engine.go:134-135 | Every label the product yields is a word of length k over the alphabet. |
| `BruteLength.TuplesDistinct` | pkg/task_builder_engine.go:134-135 | The product yields no label twice. |
| `BruteLength.LabelsOfLengthMembers` | pkg/task_builder_engine.go:134-138 | For k >= 1, a label is sent exactly when it is a length-k word over the alphabet with no '-' at either end. |
| `BruteLength.LabelsOfLengthDistinct` | pkg/task_builder_engine.go:134-138 | No label of one length is sent twice. |
| `BruteLength.LabelsBetweenMembers` | pkg/task_builder_engine.go:132-141 | For a range starting at 1 or more, a label is sent exactly when it is well formed and its length lies in the range. |
| `BruteLength.LabelsBetweenAscending` | task_builder_engine.go:134-143 | Labels are sent length by length, shortest first, and every length lies in the range. |
| `BruteLength.RangeOutcomeHangs` | pkg/task_builder_engine.go:132-134 | Exactly when min = 0 <= max, the first round calls `product(alphaTable, 0)`, which spins before anything is sent. When min > max, nothing is sent. |
| `BruteLength.RangeOutcomeSound` | pkg/task_builder_engine.go:132-141 | Only well-formed labels whose length lies between min and max are sent. |
| `BruteLength.RangeOutcomeComplete` | pkg/task_builder_engine.go:132-141 | If the range starts at 1 or more, every well-formed label whose length lies in it is sent. |
| `BruteLength.RangeOutcomeAscending` | pkg/task_builder_engine.go:132-141 | Whatever is sent comes shortest first. |
| `BruteLength.JoinedProduct` | pkg/task_builder_engine.go:134-135 | The loop joins every tuple of `product(alphaTable, k)`, in product order. |
| `BruteLength.SendLabelsOfLength` | pkg/task_builder_engine.go:134-139 | The inner loop sends exactly the joined tuples that pass the hyphen test, in product order. |
| `BruteLength.SendNextLength` | pkg/task_builder_engine.go:132-141 | One round of the length loop appends the labels of the next length after those already sent. |
| `BruteLength.SendLabelsBetween` | pkg/task_builder_engine.go:132-141 | The length loop sends the labels of each length from min up, each length in full before the next. |
| `BruteLength.SendRange` | pkg/task_builder_engine.go:132-141 | Once the lengths are read, the loop sends nothing, spins, or sends the labels of the range, as the range outcome says. |
| `BruteLength.BuildBruteLengthTask` | pkg/task_builder_engine.go:118-142 | The whole `buildBruteLengthTask` sends what its setting's range outcome says. |
| `Dictionary.DictFilter` | pkg/task_builder_engine.go:106-113 | Every word sent is trimmed, non-empty and not '#'-prefixed, and there are no more words than lines. |
| `Dictionary.DictFilterAppend` | pkg/task_builder_engine.go:106-113 | Lines are filtered one at a time, so words keep the order of their lines. |
| `Dictionary.DictFilterMembers` | pkg/task_builder_engine.go:90-95 | A word is sent exactly when it passes the test and is the trimmed form of some line. |
| `Dictionary.ReadChunk` | pkg/task_builder_engine.go:83-95 | The words of a text holding a '\n' are the trimmed chunk up to and including that '\n', if it passes the test, followed by the words of the rest. |
| `Dictionary.ReadLineWords` | pkg/task_builder_engine.go:83-95 | The words from a read position on are the word of the chunk up to the next '\n', if any, followed by the words after that chunk. |
| `Dictionary.ReadLine` | pkg/task_builder_engine.go:83-96 | One read that stops at '\n' moves just past it. The words sent so far, followed by the words still to read, stay the same, so no word of the file is lost or added. |
| `Dictionary.FinalChunk` | pkg/task_builder_engine.go:83 | The last read returns the text after the file's last '\n'. |
| `Dictionary.SingleLineWords` | pkg/task_builder_engine.go:90-95 | Text with no '\n' yields its trimmed text as its only word, if that passes the test. |
| `Dictionary.FinalRead` | pkg/task_builder_engine.go:83-100 | Once no '\n' is left, the last read returns the last line. The loop sends that line's word and stops, or spins if the line is no word. |
| `Dictionary.ReadDictFile` | pkg/task_builder_engine.go:82-101 | The file loop sends the words of all lines in order. It ends only when the last line is itself a word; otherwise it spins after sending them. |
| `Dictionary.DictFileHangsAfterNewline` | pkg/task_builder_engine.go:90-100 | An empty file, or a file that ends in '\n', makes the loop re-read EOF forever, because the EOF `break` is only reached after a word is sent. |
| `Dictionary.BuildDictTask` | pkg/task_builder_engine.go:71-115 | With no file named, the built-in list's words are sent. A file that cannot be opened sends nothing. A file's words are those of its lines. Every word sent is trimmed and passes the test. |
| `TaskBuilder.Step` | pkg/task_builder_engine.go:51-66 | Only F reaches the trigger channel, and it sends one "fofa" and never gets stuck. With a wildcard, nothing reaches the brute channel. Any technical other than D, L and F sends nothing. |
| `TaskBuilder.BuildTasksAppend` | pkg/task_builder_engine.go:49-67 | Technicals are handled one after another: the tasks of `a + b` are those of `a` followed by those of `b`, unless `a` got stuck. |
| `TaskBuilder.UnknownTechnicalSkipped` | pkg/task_builder_engine.go:64-66 | An unknown technical is skipped and does not affect the others. |
| `TaskBuilder.WildcardSendsNoBrute` | pkg/task_builder_engine.go:53-58 | With `HasWildcard` set, no brute-force task is sent and the walk never gets stuck. |
| `TaskBuilder.WildcardSendsOnlyTriggers` | pkg/task_builder_engine.go:49-67 | With `HasWildcard` set, the only tasks sent are one trigger per F. |
| `TaskBuilder.TriggerCount` | pkg/task_builder_engine.go:61-63 | When nothing gets stuck, the trigger channel gets exactly one "fofa" per F. |
| `TaskBuilder.BruteCount` | pkg/task_builder_engine.go:51-60 | Without a wildcard, and when nothing gets stuck, the brute channel gets the dictionary once per D and the labels once per L. |
| `TaskBuilder.StuckStepStopsWalk` | pkg/task_builder_engine.go:49-67 | A technical whose generator spins ends the walk: nothing after it is sent. |
| `TaskBuilder.RunTechnical` | pkg/task_builder_engine.go:51-66 | Running one technical sends what `Step` says, with the dictionary and labels the generators produce. |
| `TaskBuilder.WorkerStep` | pkg/task_builder_engine.go:49-67 | One round of the loop extends what the earlier technicals sent with what the next one sends. |
| `TaskBuilder.Worker` | pkg/task_builder_engine.go:45-68 | The builder sends what the technicals, walked in order, send. The same holds for task_builder_engine.go:47-70. |
| `Dns.Extract` | pkg/dns_utils.go:103-111 | The result carries the queried domain, and it has no more A and CNAME entries than the answer has records. |
| `Dns.ExtractAppend` | pkg/dns_utils.go:103-109 | Answers are read one record at a time, so the A and CNAME lists each keep answer order. |
| `Dns.ExtractMembers` | pkg/dns_utils.go:103-109 | An address is reported exactly when an A record carries it, and a target exactly when a CNAME record does. |
| `Dns.OtherRecordsIgnored` | dns_utils.go:38-44 | A record of any other type changes neither list. |
| `Dns.HasRecordOfAnswer` | pkg/dns_utils.go:103-109 | A reply yields a record exactly when its answer holds an A or a CNAME. |
| `Dns.DoDnsResolve` | pkg/dns_utils.go:87-112 | The nameserver is the one picked from the pool, by an index below its length. An exchange error gives no result. Otherwise the result carries the domain, plus exactly the A and CNAME data of the reply. The same holds for dns_utils.go:22-47. |
| `Dns.CheckNsConnection` | pkg/dns_utils.go:29-45 | At most three exchanges are made for the entry being checked, stopping at the first success. The result is true exactly when one of them succeeds. |
| `Dns.RemoveUnconnectedNs` | pkg/dns_utils.go:48-60 | The pool is split, in order, into the entries whose own check succeeds and those whose check fails. |
| `Dns.PruneKeepsEveryServer` | pkg/dns_utils.go:48-60 | Pruning loses and adds nothing: the two sides together are the pool. |
| `Dns.ConnectedMembers` | pkg/dns_utils.go:48-60 | A server is kept exactly when some pool entry holding it passes its check. |
| `Dns.UnconnectedMembers` | pkg/dns_utils.go:48-60 | A server is reported as removed exactly when some pool entry holding it fails its check. |
| `Dns.ConnectedEmpty` | pkg/dns_utils.go:48-60 | Nothing is kept exactly when no entry of the pool passes its check. |
| `Dns.RepeatedServerSplit` | pkg/dns_utils.go:48-60 | A server listed twice can have its first copy kept and its second reported removed, because each entry is checked again. |
| `Dns.PkgProbes` | pkg/dns_utils.go:62-67 | There are three probes: two fixed non-empty labels without a '.', and the random label. None of them is qualified with the target, because the loop variable shadows the parameter. |
| `Dns.VerdictsFalse` | pkg/dns_utils.go:66-74 | A "no wildcard" verdict is collected exactly when some probe got a reply without a record. |
| `Dns.PkgWildcard` | pkg/dns_utils.go:62-83 | The library tree reports a wildcard exactly when every probe that got a reply had a record. |
| `Dns.PkgWildcardAllFailed` | pkg/dns_utils.go:66-82 | When all three probes fail, the library tree reports a wildcard. |
| `Dns.RootProbes` | main.go:307 | The command tree has two probes: a fixed non-empty label without a '.', and the random label. Neither is qualified with the target. |
| `Dns.RootWildcard` | main.go:305-330 | The command tree reports a wildcard exactly when both probes got a reply with a record. A failed probe counts as "no wildcard". |
| `Resolution.Qualify` | pkg/brute_engine.go:61 | A brute-force candidate becomes `label + "." + target`, which is never the no-task value "". |
| `Resolution.NextSources` | pkg/brute_engine.go:54-69 | A close turns off only its own source's flag, and nothing turns a flag back on. |
| `Resolution.Candidate` | pkg/brute_engine.go:54-72 | A brute item on an open source yields its qualified label, and an external item its host verbatim. Closes, idle rounds and items on closed sources yield "". |
| `Resolution.FetchTaskFromChannel` | pkg/brute_engine.go:49-76 | One round of `fetchTaskFromChannel` updates the flags and returns the candidate. The same holds for brute_engine.go:48-75. |
| `Resolution.Resolve` | pkg/brute_engine.go:79-90 | At most three attempts are made, and the first that gets a reply wins. There is no result after three failures. The same holds for brute_engine.go:78-89. |
| `Resolution.AttemptIsDoDnsResolve` | pkg/brute_engine.go:80-87 | Each attempt is one `DoDNSResolve` call. A result from it is the result of `resolve`. On an error the next attempt decides. |
| `Resolution.ResolveNoneIff` | pkg/brute_engine.go:79-90 | `resolve` gives nothing exactly when all three attempts fail. |
| `Resolution.Handle` | pkg/brute_engine.go:109-140 | "" is skipped. A record is sent only if it resolved with an A or CNAME record, and it carries its domain. Its page data is fetched when `FetchTitle` is set, and is the zero value otherwise. |
| `Resolution.HandleRound` | pkg/brute_engine.go:109-140 | One round's body sends what `Handle` says for the round's domain: it resolves with `resolve` and attaches the page data. |
| `Resolution.Worker` | pkg/brute_engine.go:92-144 | The worker runs while a flag is on, and stops once both are off. What it sends is the records of the rounds it consumed, in order. The same holds for brute_engine.go:91-147. |
| `Resolution.SourcesNeverReopen` | pkg/brute_engine.go:54-66 | A flag that is off stays off. |
| `Resolution.SourceClosedIff` | pkg/brute_engine.go:54-66 | A flag is off exactly when its source's close has been received. |
| `Resolution.EmittedRecords` | pkg/brute_engine.go:115-140 | Everything sent has an A or CNAME record and a non-empty domain, which is the domain of one of the rounds. |
| `Resolution.EmittedAtMostOnePerRound` | pkg/brute_engine.go:102-141 | No more records are sent than there were rounds that carried a task, and those are at most the rounds consumed. |
| `ResultSink.GoInt` | pkg/result_engine.go:91 | `int(u)` on a 64-bit `uint` agrees with u modulo 2^64, within the signed 64-bit range. |
| `ResultSink.Row` | pkg/result_engine.go:87-96 | A row has the header's 8 columns. |
| `ResultSink.ListColumn` | pkg/result_engine.go:89-90 | A CNAME or A list joined with ',' splits back into the list, when it is non-empty and no entry holds a ','. |
| `ResultSink.NumberColumn` | pkg/result_engine.go:91-94 | `strconv.Itoa(int(u))` reads back as `u` when `u` is below 2^32. |
| `ResultSink.RowColumns` | pkg/result_engine.go:87-96 | Each column reads back as its field: the domain, the CNAME and A lists (when non-empty and free of ','), the status code and body length (when below 2^32), the title, the location and the error. |
| `ResultSink.Winners` | pkg/result_engine.go:73-84 | No more records are kept than received. |
| `ResultSink.Sink` | pkg/result_engine.go:59-103 | The kept records are the first-wins choice, in arrival order. The rows are the header followed by one row per kept record. The same holds for result_engine.go:51-88. |
| `ResultSink.WinnersDistinct` | pkg/result_engine.go:73-84 | Every kept record has a record, and no two kept records share a domain. |
| `ResultSink.WinnersFrom` | pkg/result_engine.go:73-103 | A record is kept exactly when it was received and is the first record with data for its domain. An earlier empty record does not block it. |
| `ResultSink.WinnersCoverDomains` | pkg/result_engine.go:78-84 | Every domain that arrives with a record is kept. |
| `Collector.Normalize` | fofa_engine.go:148-151 | A first field without "http://" or "https://" gets "https://" in front; a field with either prefix is unchanged. |
| `Collector.NormalizeIdempotent` | fofa_engine.go:149-151 | Prefixing is idempotent. |
| `Collector.PageHosts` | fofa_engine.go:147-160 | A page gives at most one host per row; rows whose URL does not parse are skipped. |
| `Collector.AddNewAppend` | fofa_engine.go:162-164 | Collecting page after page is collecting all at once. |
| `Collector.AddNewFacts` | fofa_engine.go:162-164 | Collected hosts keep their place and first-seen order, contain no duplicates, and are exactly the hosts seen. |
| `Collector.CollectPage` | fofa_engine.go:147-165 | One page's rows are added, each unless already collected. |
| `Collector.ReadPage` | fofa_engine.go:99-145 | An envelope with the error flag set, or with no results, ends the pagination. A page whose fetch or decoding fails is skipped, and otherwise its hosts are collected. |
| `Collector.Advance` | fofa_engine.go:73-166 | One round of the page loop keeps the pagination invariant. |
| `Collector.PaginateFrom` | fofa_engine.go:73-166 | The page loop from any first page adds the hosts of the pages it reads, new ones only. It appends the pages the reference definition requests. |
| `Collector.Paginate` | fofa_engine.go:73-166 | The page loop collects the hosts of the pages it reads, and requests the pages the reference definition requests. |
| `Collector.CollectedHosts` | fofa_engine.go:161-164 | A trigger's hosts contain no duplicates and are exactly the hosts of the pages read. |
| `Collector.RequestedPages` | fofa_engine.go:73 | At most 30 pages are requested per trigger, numbered 1, 2, 3, … in order. |
| `Collector.TemplateShape` | fofa_engine.go:53 | The URL template has a placeholder in place of each of the four parameter values. |
| `Collector.ShapeReplace` | fofa_engine.go:74-77 | A placeholder substitution acts on each parameter value separately. |
| `Collector.Query` | fofa_engine.go:72 | The encoded query holds no '$', so no later substitution touches it. |
| `Collector.PageUrlShape` | fofa_engine.go:72-77 | The page URL carries the email, the key, the encoded `domain=<target>` and the page number, as long as the email holds no '$'. |
| `Collector.TokenFields` | fofa_engine.go:54-56 | The email is the token before its first '\|', and the key is the text after it, up to the next '\|'. |
| `Collector.Urls` | fofa_engine.go:74-77 | One URL is built per requested page, from that page's number. |
| `Collector.FofaWorker` | fofa_engine.go:46-175 | An empty token means nothing is requested or published. Otherwise each trigger's hosts are collected afresh and published in collected order, after its pagination ends. |
| `Collector.CountCollected` | fofa_engine.go:162-172 | Each host a trigger's pages yield is published once for that trigger. |
| `Collector.PublishedCount` | fofa_engine.go:71 | The collected list starts afresh for every trigger, so a host is published once per trigger that yields it. |
| `Base64Url.SymbolValue` | fofa_engine.go:72 | Each symbol of the URL-safe alphabet has a value below 64 that maps back to it. |
| `Base64Url.Encode` | fofa_engine.go:72 | The encoding has 4 symbols per started group of 3 bytes. |
| `Base64Url.GroupRoundTrip` | fofa_engine.go:72 | A group of three bytes encodes to four alphabet symbols that decode back to it. |
| `Base64Url.Rfc4648Vectors` | fofa_engine.go:72 | The test vectors of section 10 of RFC 4648 hold: "f" gives "Zg==", "fo" gives "Zm8=", and "foobar" gives "Zm9vYmFy". |
| `Base64Url.DecodeEncode` | fofa_engine.go:72 | The encoding loses nothing: decoding it gives back the bytes, padding included. |
| `Base64Url.EncodeAlphabet` | fofa_engine.go:72 | Every character of the encoding is from the URL-safe alphabet or is '='. |
| `Base64Url.Utf8Ascii` | fofa_engine.go:72 | `[]byte(s)` of ASCII text is its character codes. |
| `Base64Url.Utf8Append` | fofa_engine.go:72 | `[]byte` of a concatenation is the concatenation of the bytes. |
| `Validation.TechParts` | main.go:44-49 | With a ',' the flag value is split at every ',', and the parts join back to the value. Without one it is split into one part per character. |
| `Validation.ParseTechnicals` | main.go:42-62 | The value is accepted exactly when every trimmed, upper-cased part is D, L or F. The accepted parts are appended in order, duplicates included. The same holds for pkg/args.go:71-91. |
| `Validation.TechCharAccepted` | main.go:52-55 | A one-character part is accepted exactly when it is d, l or f in either case. |
| `Validation.NoCommaTechnicals` | pkg/args.go:73-87 | Without a ',', a value is accepted exactly when every character is d, l or f in either case. |
| `Validation.SpacedTechnical` | pkg/args.go:82-87 | A part between commas is its character, whatever spaces surround it. |
| `Validation.BlankPartRefused` | pkg/args.go:82-87 | An empty or blank part, as in "D," or "D, ,L", is refused. |
| `Validation.CheckBruteLength` | main.go:83-91 | The unanchored pattern `(\d+\|\d+-\d+)` accepts a value exactly when it contains a decimal digit. |
| `Validation.BruteLengthUnanchored` | pkg/args.go:112-120 | "x1" and "1-3" are accepted, while "" and "-" are refused. |
| `Validation.CheckToken` | main.go:178-182 | The loop refuses exactly when F is among the technicals and the token is empty. |
| `Validation.CheckTechnicals` | pkg/app.go:29-41 | An error exactly when there is no technical, or F without a token, each with its own message. |
| `Validation.Pool` | pkg/app.go:45-53 | An empty nameserver list is replaced by the defaults, and any other list is kept. |
| `Validation.CheckNameserver` | pkg/app.go:43-76 | An error exactly when no entry of the pool passes its check. Otherwise the nameservers become the entries that pass, in order, and a server is among them exactly when one of its entries passed. |
| `Validation.PkgCheckWildcard` | pkg/app.go:78-91 | A wildcard without F is an error, leaving `HasWildcard` as it was. A wildcard with F sets `HasWildcard`. No wildcard changes nothing. |
| `Validation.CheckArgs` | pkg/app.go:43-116 | The checks pass exactly when all of them pass, stopping at the first error. The wildcard probes count only when `CheckWildcard` is set. On success the nameservers are the answering ones. The settings are also given as the checks leave them on an error. A technicals error leaves them unchanged. A connection error leaves the pool with the defaults filled in. A wildcard error leaves the answering servers, with `HasWildcard` unset. |
| `Validation.MainAction` | main.go:171-231 | An error when technicals is unset, or F is given without a token. The process exits when no nameserver answers, or on a wildcard without F. Otherwise it goes on, with the answering nameservers and `HasWildcard` set on a wildcard. |
| `Validation.TreesDiffer` | main.go:184-191 | The trees differ. A technicals flag of "" leaves no technical. All-failed probes are a wildcard for the library tree only. The command tree has 8 default nameservers, all among the library tree's 10. |

## Left out

- Goroutines, `WaitGroup`s, the engine wrapper, the cascade of channel closes and the 1-second idle sleep are left out. One resolution worker is modelled over the sequence of events its `select` delivers, and the random choice of `select` is that sequence. A source whose channel was set to nil can still appear in the sequence, where it is a no-op round.
- `channelStatus` and the channel fields are shared by all workers on one engine struct (brute_engine.go:19, 55-57). That is a data race, and no cross-worker interaction is modelled.
- `dns.Client.Exchange`, the HTTP client, the FOFA GET and `FetchIndexTitle` are oracles. `rand.Intn` is a parameter: the nameserver index in `Dns.DoDnsResolve`, and the picks in `Alphabet.RandString`.
- `net/url` `Parse`/`Hostname` are the oracle `hostOf`. The sonic JSON decoding is folded into `Collector.PageOutcome`. The CSV quoting of RFC 4180 is out, so the rows are the field lists handed to the writer. `net.ParseIP` in the nameserver flag action is out.
- The dictionary file is its content, a string, and the embedded default dictionary is a parameter. `os.Open` failing is `None`. Read errors other than EOF, `writer.Flush`, the output file, and the panic/recover/`Fatalf` paths are out.
- The urfave/cli construction (main.go:19-169 apart from the flag actions, pkg/args.go:42-190 apart from the actions), `cmd/main.go`, `args.go`, `PrettyString` and the logging are out. A flag action runs only when its flag is set, so the model's input is the flag value.
- `pkg/http_utils.go` is not part of this model; its result is the opaque `Records.HttpResult`.
- `GoStrings.ToUpper` upper-cases ASCII letters only. Only the characters D, L and F matter to the caller, but non-ASCII case mapping is not modelled.
- Odometer.Product: the loop is run for at most `fuel` rounds, because for k = 0 it never ends. The contract says whether it stopped within them. It does not state what happens past the fuel bound beyond that.
- Collector.FofaWorker: requires a token that is empty or contains '|'. A token without '|' makes `FofaEngine.worker` panic on `fofaParts[1]` (fofa_engine.go:55-56).
- Collector.TokenFields: requires a '|' in the token, for the same reason.
- Collector.PageUrlShape: requires an email without '$'. An email holding "${k}" would have it replaced by the key, which the lemma does not describe.
- The panic on the deferred `Body.Close` of a nil response (fofa_engine.go:87) is out; such a page is a `FetchError` and is skipped. The type assertions at fofa_engine.go:138, 142 and 148 are assumed to succeed on a decoded envelope.
- Dns.DoDnsResolve: requires a pick below the pool size. `rand.Intn` panics on an empty pool, so `DoDNSResolve` never resolves with one.
- ResultSink.RowColumns: reads back the numeric columns only below 2^32, because the decimal parser it uses is the 32-bit one.
- Validation.CheckArgs: takes the three probe replies as given, and Validation.MainAction takes the two. The random label in them is not modelled beyond `Alphabet.RandString`.
- `strconv.ParseUint` is modelled only for base 10 and bit size 32, the one form the code calls. Its error is dropped, as the code drops it.
