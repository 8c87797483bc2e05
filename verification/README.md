# foundry-zksync: verified models of its algorithmic core

A Dafny 4.11 project that models the self-contained algorithms inside the foundry toolchain
(`cast`, `chisel`, `anvil`, `forge doc`, `config`) and proves what they promise. `dafny verify
dfyconfig.toml` checks everything.

| file | what it models |
|---|---|
| `Bytes.dfy`, `Radix.dfy` | bytes and hex text; numerals in radix 2 to 16 |
| `Rlp.dfy`, `RlpText.dfy` | the RLP codec of nested items (Appendix B of the Ethereum Yellow Paper), its text form, `to_rlp` and `from_rlp` |
| `Numbers.dfy` | parsing and printing 256-bit numbers, fixed-point text |
| `SelectorSearch.dfy` | the parallel search for a selector with leading zero bytes |
| `GasSearch.dfy` | chisel's gas-limit search and the settings it must restore |
| `Instructions.dfy`, `Brackets.dfy` | the bytecode iterator and the final pc; the closed-snippet check |
| `NodeService.dfy` | anvil's block producer and the loop that drives it |
| `BlockLogs.dfy`, `LogStreams.dfy`, `FilterTable.dfy` | log filtering, pushed and polled delivery, the expiring filter table |
| `TomlMerge.dfy`, `ProfileFix.dfy` | merging TOML tables; moving implicit profiles under `[profile]` |

Code that works in place is a class or a method with loops, tied by its contract to a specification
function; the laws are lemmas about those functions. Futures, channels, storage, the clock, the EVM,
the hash and thread scheduling are parameters: every result holds for all of their answers.

Where the code falls short of what it says it does, the model follows the code and the exact condition
is proved:

* The gas reported by chisel is documented as usable as a gas limit. It is not when the least
  sufficient limit is one of a few coarse fractions of the measured gas: the search then forgets its
  only success (`ReportedGasSufficesIff`, `CoarsePointsAre`, `ReportedGasCanBeTooLow`).
* If the executor fails in the first call or during that search, the probe's gas limit and the disabled
  file-system commit can stay behind; exactly when is part of `Runner.Call`, and
  `FailureLeavesSettings` shows a case.
* With an even number of threads the selector search can never report "No selector found"
  (`GivesUpIff`): the nonces wrap around without meeting the maximum.
* Merging overrides is associative except where a list stands between two tables or a table between two
  lists and the outer override still adds something (`MergeAssociatesIff`).
* A negative number below -2^255 is displayed as a different number, also in fixed-point text, and a
  decimals count is taken modulo 2^64 (`DisplayRoundTripIff`, `FixedPointDenotesIff`).
* A log subscription reports "pending" with unread notifications when it meets a block the store does
  not know (`StallsIff`).
* The closed-snippet check accepts every nested snippet, but also snippets that close too early or
  close brackets crosswise (`NestedIff`, `AcceptedNeedNotMatch`, `AcceptedNeedNotNest`).

## Model

| member | source | states |
|---|---|---|
| Rlp.EncodingIff | cast/src/rlp_converter.rs:14-29 | bytes are the encoding of an item if and only if they are what Appendix B prescribes: a byte below 0x80 itself, up to 55 bytes behind 0x80 or 0xc0 plus the length, more behind 0xb7 or 0xf7 plus the width of the length, whose big-endian digits follow without a leading zero |
| Rlp.BodyConcatenates | cast/src/rlp_converter.rs:17-23 | the body of a list is the encodings of its items one after the other |
| Rlp.EncodeThenDecode | cast/src/rlp_converter.rs:14-38 | decoding an item's encoding, whatever bytes follow it, gives the item and exactly those bytes, at any nesting |
| Rlp.DecodeThenEncode | cast/src/rlp_converter.rs:14-38 | whatever is decoded re-encodes to the bytes it was read from |
| Rlp.DecodeIffEncoded | cast/src/rlp_converter.rs:14-38 | decoding returns an item if and only if the bytes are that item's encoding, so the codec is a bijection onto canonical bytes |
| Rlp.PrefixFree | cast/src/rlp_converter.rs:14-29 | no encoding is a proper prefix of another: equal bytes with any rests mean equal items and equal rests |
| Rlp.ListBodySplitsUniquely | cast/src/rlp_converter.rs:17-23 | two lists of items with the same body are the same list |
| Rlp.HeadIsHeader | cast/src/rlp_converter.rs:31-38 | a header that is accepted is the only header of its payload length |
| Rlp.RlpStream.AppendBytes | cast/src/rlp_converter.rs:24-26 | data is appended in its encoding |
| Rlp.RlpStream.Append | cast/src/rlp_converter.rs:15-28 | streaming an item appends exactly its encoding and leaves outer lists open as they were |
| Rlp.RlpStream.AppendAll | cast/src/rlp_converter.rs:19-21 | the loop over a list's items appends their encodings in order |
| RlpText.Formatter.Write | cast/src/rlp_converter.rs:68-88 | printing appends the item's text |
| RlpText.Formatter.WriteAll | cast/src/rlp_converter.rs:76-82 | the peeking loop writes the items with a comma between any two and none at the end |
| RlpText.ShownText | cast/src/rlp_converter.rs:68-88 | data is printed as quoted hex with a prefix, a list as its printed items joined by commas in brackets |
| RlpText.ShownIsRead | cast/src/rlp_converter.rs:68-88 | reading a printed item stops exactly behind it, whatever follows |
| RlpText.ItemOfItsJson | cast/src/rlp_converter.rs:41-58 | converting an item's JSON gives the item back |
| RlpText.ConvertsIff | cast/src/rlp_converter.rs:41-58 | a JSON document converts if and only if it holds no boolean and no object at any depth and every string and number is bytes in hex |
| RlpText.ListConvertsIff | cast/src/rlp_converter.rs:53 | a list converts to an array if and only if each element converts to the item at its place |
| RlpText.PrintThenRead | cast/src/rlp_converter.rs:41-88 | for every item, reading its printed text as JSON and converting it gives that item |
| RlpText.ParseJsonReadsPrinted | cast/src/rlp_converter.rs:68-88 | a JSON parser for the printed fragment reads every printed item as its JSON, so the assumption on the parser can be met |
| RlpText.FromRlpAcceptsIff | cast/src/lib.rs:1211-1216 | with the canonical decoder of the standard, from_rlp accepts exactly the hex texts of encoded items and prints the encoded item |
| RlpText.ToRlpThenFromRlp | cast/src/lib.rs:1211-1238 | for every JSON parser that reads printed items, every text that printing can produce survives to_rlp followed by from_rlp |
| RlpText.FromRlpThenToRlp | cast/src/lib.rs:1211-1238 | for every such parser and the canonical decoder of the standard, what from_rlp prints, to_rlp turns into the same bytes |
| RlpText.ToRlpIsStable | cast/src/lib.rs:1211-1238 | for every such parser, any text to_rlp accepts, JSON or not, is normalised by one round trip |
| RlpText.ToRlpOfScalar | cast/src/lib.rs:1233-1238 | a string, a number, or text that is no JSON gives the prefixed hex of the encoding of the bytes it spells in hex, and panics if and only if it spells none |
| RlpText.ToRlpOfOther | cast/src/rlp_converter.rs:43-56 | null gives 0x80; booleans and objects are refused with their own errors |
| Bytes.HexRoundTrip | cast/src/rlp_converter.rs:51 | decoding hex text undoes encoding bytes as hex |
| Bytes.HexTextOf | cast/src/rlp_converter.rs:72 | byte i is written as the digits of its upper and its lower four bits, in lower case |
| Bytes.HexDecodeIff | cast/src/rlp_converter.rs:51 | text decodes to bytes if and only if it is two hex digits, of either case, for each of them |
| GasSearch.SafeForEveryExecutorIff | chisel/src/runner.rs:154-173 | no u64 operation overflows, whatever the executor answers, if and only if ten times the measured gas fits |
| GasSearch.EstimateWasProbed | chisel/src/runner.rs:157-183 | an estimate lies strictly between the bounds and is itself a probe that succeeded |
| GasSearch.EstimateIsAccurate | chisel/src/runner.rs:157-183 | for a monotone executor an estimate exceeds the larger of least sufficient limit and measured gas by less than a ninth of itself |
| GasSearch.FineSearch | chisel/src/runner.rs:157-183 | once steps are fine, the measured gas is kept exactly when nothing below the high limit suffices |
| GasSearch.KeptIffCoarse | chisel/src/runner.rs:144-186 | for every measured gas that does not suffice and cannot overflow, it is kept if and only if the least sufficient limit is at least three times the gas or a coarse point: a probe whose success is too far from the high limit to end the search |
| GasSearch.KeptIff | chisel/src/runner.rs:144-186 | from 28 gas on, the measured gas is kept if and only if the least sufficient limit is at least three times the gas or one of seven listed fractions of it |
| GasSearch.CoarsePointsAre | chisel/src/runner.rs:154-182 | from 28 gas on, the coarse points are exactly the listed fractions |
| GasSearch.ReportedGasSufficesIff | chisel/src/runner.rs:123-124 | for every measured gas that cannot overflow, the reported gas is a sufficient limit if and only if the measured gas already was, or the least sufficient limit is below three times the gas and not a coarse point |
| GasSearch.ReportedGas | chisel/src/runner.rs:144-186 | the reported gas is the measured one, or a probed limit below three times it that sufficed; for a monotone executor it exceeds the larger of least sufficient limit and measured gas by less than a ninth of itself |
| GasSearch.ReportedGasCanBeTooLow | chisel/src/runner.rs:123-124 | a call that used 21000 gas and needs 42000 is reported as 21000, which fails |
| GasSearch.Runner.FindGas | chisel/src/runner.rs:147-185 | the loop computes the bisection, restores the gas limit when it ends, and leaves the probe's limit when a call fails |
| GasSearch.Runner.Call | chisel/src/runner.rs:127-222 | the gas reported is the first run's, or a limit strictly between it and three times it at which the repeated call did not end in Revert, OutOfGas or OutOfFund, less than a ninth of itself above the least sufficient one, and sufficient exactly when the search can find a sufficient one; the call fails if and only if one of the runs it makes fails, overflows exactly when the search does, and leaves the settings as they were if and only if nothing changed was left by a failing probe; a result comes from a run under the original settings |
| GasSearch.FailureLeavesSettings | chisel/src/runner.rs:157-185 | with an executor that fails at a probed limit, the call fails and the probe's gas limit and the disabled commit stay behind |
| NodeService.PollNextIsFifo | anvil/src/service.rs:133-158 | a poll mines the oldest waiting set, under the number the future answers, if and only if the future is ready and something waits; otherwise the backlog is untouched; the backend handle is kept |
| NodeService.AdvancesCompose | anvil/src/service.rs:133-158 | conservation of transaction sets composes over consecutive activity |
| NodeService.RunConserves | anvil/src/service.rs:113-158 | in every run exactly one of backend and future is present, and the sets fed in are those mined, the one in flight and the queue, in order |
| NodeService.DrainDrives | anvil/src/service.rs:75-79 | draining the producer ends with an empty backlog or a future that was polled last and was pending; the blocks carry the numbers the polls answered, in order |
| NodeService.PollNodeDrives | anvil/src/service.rs:69-88 | whenever the node's poll returns, the backlog is empty or a mining future is in flight that was polled in this call and was pending; everything reported by the miner is accounted for, and the blocks carry the numbers the polls answered, in order |
| NodeService.NodeRunConserves | anvil/src/service.rs:69-104 | over any polls of a new node, the sets of the blocks reported followed by the backlog are everything the miner reported, in order |
| NodeService.BlockProducer.Poll | anvil/src/service.rs:133-158 | taking and putting back backend and future in place is one step of the producer |
| NodeService.Node.DrainProducer | anvil/src/service.rs:75-79 | the inner loop tells the pool of each mined block once, in order |
| NodeService.Node.Poll | anvil/src/service.rs:69-88 | the nested loops do what one node poll is specified to do, with all its guarantees |
| BlockLogs.FilterLogs | anvil/src/pubsub.rs:152-216 | the nested loops collect the matching logs of the block |
| BlockLogs.FilterLogsIsExact | anvil/src/pubsub.rs:152-216 | a log is returned if and only if there is no filter or it passes the four tests, in block order; each carries the block's hash and number, the hash of its receipt's transaction, its two indices, and as log index its position among all logs of the block |
| BlockLogs.IndexIsPosition | anvil/src/pubsub.rs:187-213 | logs in earlier receipts plus the index in its receipt is a log's position in the block |
| LogStreams.Lookup | anvil/src/pubsub.rs:47-50 | a notified block contributes its matching logs if block and receipts are both stored, and nothing otherwise |
| LogStreams.PollPaysInOrder | anvil/src/pubsub.rs:36-67 | a poll emits the front of what the subscription owes and owes the rest |
| LogStreams.ReadyIff | anvil/src/pubsub.rs:36-67 | a poll is ready if and only if a log is queued or is found behind blocks without matching logs; it ends if and only if only such blocks are left on a closed channel |
| LogStreams.StallsIff | anvil/src/pubsub.rs:46-65 | a poll reports pending with notifications unread if and only if it meets an unknown block that is not the last, behind blocks without matching logs |
| LogStreams.PendingIsDrained | anvil/src/pubsub.rs:46-65 | if the store knows every notified block, pending means the channel is empty |
| LogStreams.SubscriptionRun | anvil/src/pubsub.rs:36-67 | in every schedule, logs emitted followed by the queue are the matching logs of the consumed notifications |
| LogStreams.FilterRuns | anvil/src/filter.rs:175-185 | in every schedule, poll results concatenate to the historic logs followed by the matching logs of the consumed notifications |
| LogStreams.PushAndPollAgree | anvil/src/pubsub.rs:36-67 | a subscription and a filter sent the same notifications deliver the same logs once both have caught up, however they were scheduled |
| LogStreams.LogsSubscription.PollOnce | anvil/src/pubsub.rs:36-67 | the loop over queue and channel is one poll of the subscription |
| LogStreams.LogsFilter.PollAll | anvil/src/filter.rs:175-185 | the loop returns historic and new logs and empties the channel |
| FilterTable.PresentIff | anvil/src/filter.rs:43-104 | in every run a filter is in the table if and only if it was installed and no later operation uninstalled it or evicted it past its deadline |
| FilterTable.StoredFilter | anvil/src/filter.rs:51-65 | a filter in the table is the installed one advanced once for each poll since |
| FilterTable.PolledFilterSurvives | anvil/src/filter.rs:51-104 | a filter used at gaps no longer than the keepalive is in the table after every operation, even if evictions run with a clock read earlier |
| FilterTable.EvictionIff | anvil/src/filter.rs:93-104 | an eviction removes a filter if and only if it is later than the last use plus the keepalive |
| FilterTable.Filters.GetFilterChanges | anvil/src/filter.rs:51-65 | returns the filter's response and renews its deadline; an unknown id changes nothing |
| TomlMerge.UnionExtends | doc/src/helpers.rs:13-22 | an extended list is the list followed by the elements it lacks, each once, in the order of their first occurrence |
| TomlMerge.UnionAssociates | doc/src/helpers.rs:13-22 | extending lists without repeating elements is associative |
| TomlMerge.MergeAtPath | doc/src/helpers.rs:4-28 | along every path of keys: where both hold something, tables share their keys, lists are extended, tables and lists refuse anything else and scalars are replaced; where one holds something that is kept, except an override below a list |
| TomlMerge.MergeIsNoOpIff | doc/src/helpers.rs:4-28 | merging changes nothing if and only if everything in the override is already there or discarded |
| TomlMerge.MergeKeeps | doc/src/helpers.rs:4-28 | merging keeps every table, key and list element of the original; only scalars are replaced |
| TomlMerge.MergeAbsorbs | doc/src/helpers.rs:4-28 | after merging, the table holds everything the override contributes |
| TomlMerge.MergeIsIdempotent | doc/src/helpers.rs:4-28 | applying the same override twice is applying it once |
| TomlMerge.MergeAssociatesIff | doc/src/helpers.rs:4-28 | merging is associative if and only if no list stands between two tables, nor a table between two lists, with an outer override that adds something |
| TomlMerge.MergeAssociates | doc/src/helpers.rs:4-28 | merging is associative when original and first override agree on what is a table and what is a list |
| TomlMerge.MergeNeedNotAssociate | doc/src/helpers.rs:7-22 | a concrete triple for which it is not associative |
| TomlMerge.TomlTable.MergeTomlTable | doc/src/helpers.rs:4-28 | updating the table entry by entry, in any order, gives the merged table |
| TomlMerge.Extend | doc/src/helpers.rs:16-20 | the inner loop appends the missing elements, each once, in the order of their first occurrence |
| ProfileFix.FixLosesNothing | config/src/fix.rs:131-157 | each implicit profile is under [profile] with its value or where it was; standalone sections are untouched; only an empty existing profile can be replaced; nothing is invented |
| ProfileFix.RefusalsPersist | config/src/fix.rs:68-126 | a profile left in place is refused again for the same reason |
| ProfileFix.SecondFixIsIdle | config/src/fix.rs:131-157 | a second run changes nothing and reports only errors |
| ProfileFix.TomlFile.InsertProfile | config/src/fix.rs:68-126 | inserts under [profile], created if missing; each of the four conflicts, and success, is reported if and only if the document and value call for it; on a conflict the document is unchanged |
| ProfileFix.TomlFile.FixProfiles | config/src/fix.rs:131-157 | in whatever order the keys come the document becomes the fixed one, and the report holds each profile's verdict on the original |
| ProfileFix.VerdictsAreComplete | config/src/fix.rs:137-155 | the report names exactly the implicit profiles, in the document's order, each with the reason why it is refused, if it is |
| ProfileFix.TomlFile.FixOne | config/src/fix.rs:147-155 | removing one profile and inserting it, or putting it back, deals with that profile alone |
| Numbers.FormatRadix | cast/src/base.rs:424-443 | filling the 256-cell buffer from the back never runs off it and yields the canonical digits |
| Numbers.FormatDenotesWord | cast/src/base.rs:404-419 | in every base but signed decimal the printed digits are the one canonical numeral of the word |
| Numbers.AlternateForm | cast/src/base.rs:248-262 | in hexadecimal, octal and binary the alternate form is 0x, 0o or 0b and the canonical numeral of the word, zero included |
| Radix.CanonicalIsUnique | cast/src/base.rs:424-443 | no two numerals without leading zeros have the same value |
| Numbers.ParsedWord | cast/src/base.rs:445-455 | the stored word of a parsed integer is the integer modulo 2^256 |
| Numbers.SignIsRead | cast/src/base.rs:445-455 | in front of any unsigned text a plus sign changes nothing, and a minus sign gives the negative modulo 2^256 |
| Numbers.HexTextIff | cast/src/base.rs:154-162 | prefixed hex text parses to the value of its digits if and only if it has at most 64, all hex, with an error for each failure |
| Numbers.BareHexText | cast/src/base.rs:164-183 | hex text that is not decimal needs no prefix unless it starts like a binary number |
| Numbers.PrefixedAcceptedIff | cast/src/base.rs:140-153 | binary or octal digits pass detection if and only if all are digits, or those before the first that is not exceed 128 bits |
| Numbers.PrefixedTextIsRefused | cast/src/base.rs:457-463 | binary and octal text never parses, and fails as unsupported if and only if its digits pass detection |
| Numbers.DisplayRoundTripIff | cast/src/base.rs:248-262 | for every integer: its text parses iff its magnitude is below 2^256, and displaying returns the text iff it is from -2^255 below 2^256 |
| Numbers.FullHexRoundTrip | cast/src/lib.rs:1109-1112 | the 64-digit hex text of any word parses to that word |
| Numbers.FixedPointAcceptsIff | cast/src/lib.rs:993-1014 | for every integer and decimals count, the command succeeds if and only if both fit a word |
| Numbers.FixedPointDenotesIff | cast/src/lib.rs:993-1014 | the text has the sign; the rest has exactly d digits behind the point, at least one before it and denotes the magnitude over 10^d, if and only if the integer is not below -2^255 and d fits 64 bits |
| SelectorSearch.RunKeepsInv | cast/src/lib.rs:1804-1826 | in every interleaving, the flag is set exactly when some worker has hit, and a worker that quits unprompted has swept its residue class |
| SelectorSearch.ReportedPairIsSound | cast/src/lib.rs:1812-1831 | a returned pair is a signature with a nonce inserted and the first four bytes of its hash, with exactly the wanted number of leading zero bytes |
| SelectorSearch.InputInsertsNonce | cast/src/lib.rs:1800-1814 | a signature is searched for if and only if it has a parenthesis, with the zeroes, threads and hash given; the signature tried is the given one with the nonce's digits before its first parenthesis |
| SelectorSearch.NotFoundIsComplete | cast/src/lib.rs:1808-1831 | "No selector found" means that for no nonce below the 32-bit maximum the hash of the signature with that nonce starts with the wanted number of zero bytes |
| SelectorSearch.EvenThreadsNeverGiveUp | cast/src/lib.rs:1809-1824 | with an even number of threads a finished run always has a hit |
| SelectorSearch.GivesUpIff | cast/src/lib.rs:1804-1831 | some interleaving reports "No selector found" if and only if there is no such nonce and the number of threads is odd |
| Instructions.ListsIff | chisel/src/executor.rs:1194-1211 | the iterator runs through and yields a list if and only if the list partitions the code: pcs from 0 in steps of 1 plus data length, one to 32 bytes of data behind opcodes 0x60 to 0x7f and none behind others, bytes concatenating to the code |
| Instructions.InstructionIter.Advance | chisel/src/executor.rs:1196-1210 | one call yields the instruction at the offset and moves behind its data |
| Instructions.ZipIff | chisel/src/executor.rs:92-101 | pairing panics if and only if the iterator does and there are more spans than it yields instructions; otherwise spans and instructions are paired one to one up to the shorter |
| Instructions.FinalPcIsLastMatch | chisel/src/executor.rs:92-105 | for all code the final pc is that of the last instruction yielded with the statement's span, or 0; it panics if and only if a PUSH is cut off within reach of the spans |
| Brackets.DepthIsMaxSuffixExcess | chisel/src/solidity_helper.rs:151-180 | the saturating counter is the largest excess of openers over closers in any suffix |
| Brackets.ValidateClosed | chisel/src/solidity_helper.rs:151-186 | a snippet is valid if and only if, for each kind of bracket, every suffix has at least as many closers as openers |
| Brackets.MatchedIff | chisel/src/solidity_helper.rs:150-186 | brackets of one kind, taken alone, match if and only if the check passes for it and no prefix closes too early |
| Brackets.NestedIff | chisel/src/solidity_helper.rs:150-186 | a snippet is properly nested if and only if a stack scan meets no wrong closer and the check passes; so every nested snippet is accepted |
| Brackets.NestedIsGrammar | chisel/src/solidity_helper.rs:150-186 | the stack scan accepts exactly the token lists generated by the bracket grammar |
| Brackets.AcceptedNeedNotMatch | chisel/src/solidity_helper.rs:150-186 | a lone closing parenthesis is accepted although nothing matches it |
| Brackets.AcceptedNeedNotNest | chisel/src/solidity_helper.rs:150-186 | `([)]` is accepted, and each kind of bracket matches in it, although it does not nest |

## Left out

- Rlp.Decode: follows the standard and accepts canonical bytes only; how leniently the `rlp` crate treats trailing or non-canonical bytes is not modelled, because that crate is not part of the repository.
- RlpText.ParseJson: an instance of the parser parameter of `ToRlp`; it reads null, booleans, strings without escapes and arrays, without whitespace. The parser the program uses is not part of the repository; of it only `ReadsPrinted` is assumed, which leaves out its nesting limit.
- GasSearch.KeptIff: the closed form starts at 28 measured gas; below that the bisection runs out of integers first, and `KeptIffCoarse` gives the condition.
- GasSearch.Runner.Call: logs, traces and labels of the result are not modelled; u64 overflow is an outcome of its own, which is a panic in debug builds.
- NodeService: block numbers are what the mining future answers and are not promised to be consecutive, because the backend is shared and other callers mine on it (anvil/src/eth/api.rs:2223-2229); included and invalid transactions, the fee history, the eviction timer and wakers are not modelled; during one poll the miner reports finitely many sets.
- BlockLogs: receipts are their logs, and addresses, topics and hashes are numbers; the four filter tests are parameters.
- LogStreams: the header and pending-transaction subscriptions and the block and pending-transaction filters are not modelled: each forwards one item per notification, with no queue or lookup behind it.
- FilterTable: `get_log_filter` only reads; ids come from the caller.
- TomlMerge: scalars are one type with reflexive equality; an inner table is merged in a table object of its own and written back.
- ProfileFix: positions, comments and formatting of the document are not modelled; opening and saving files and the warnings are not modelled.
- Numbers: `from_fixed_point`, unit conversion, upper-case hex and parsing with an explicit base are not modelled; decimal and hexadecimal parsing follow the documented behaviour of the 256-bit integer type.
- SelectorSearch: the branches for no optimisation and for more than four zeroes are not modelled; the hash is a parameter; an arithmetic overflow wraps, as in release builds, where debug builds panic.
- Instructions: source maps come from the compiler as a list of spans.
- Brackets: the lexer is not modelled, tokens are the input; highlighting is not modelled.
- RPC clients, CLI, terminal and file handling, fork setup, chisel's type inference and session commands, hard-fork tables and configuration defaults.
