# WRTM tester — a Dafny model

The WRTM tester drives a router under test ("RUT") through a test plan.
Each test line names a test type, an interface, a duration, an address and a
mask. For each test the tester does the following:

- pings the router;
- sends a 160-byte start packet over UDP;
- waits up to ten seconds for a 10-byte acknowledgement;
- optionally starts load streams on an N2X traffic generator;
- pings the router once a second for the duration of the test;
- sends the stop packet;
- records a result line;
- waits for the router's readiness beacon before the next test.

This project models that core as pure functions over scripted environments
and proves properties of it. It follows `src/wrtmtester/WrtmTester.py`,
the plan parser `src/wrtmmasher/TestPlanParser.py`, the N2X command helpers
`src/wrtmtester/N2xInterface.py` and the load-stream guard
`src/wrtmtester/WrtmN2xWrapper.py`.

Modules, one per file:

- `Text` (text.dfy): the Python string operations the core relies on. These are `str.split` with one separator and `' '.join`, `find`/`rfind` with their `-1`, slicing with negative and clamped indices, and `int()` on base-10 text. `int()` skips Unicode whitespace around the number, takes an optional sign, and accepts digits grouped by single underscores.
- `Bytes` (bytes.dfy): little-endian 32-bit words, unsigned (`I`, `L`) and signed (`i`), as `struct` packs and unpacks them.
- `Utf8` (utf8.dfy): UTF-8 encoding of the interface name and its decoding.
- `Plan` (plan.dfy): the test-plan generator (`getTestGenerator`, `parseTestLine`) and the test-type catalogue (`loadTestTypes`).
- `Protocol` (protocol.dfy): the start/stop packet (`_prepareTestPacket`), the acknowledgement (`<2xiL`) and its classification, and the readiness beacon.
- `Instrument` (instrument.dfy): the N2X proxy line protocol (`invoke`, `smInvoke`, `_readWrapper`), the brace-list replies (`listFromReponse`, `addStreamGroupToProfile`), the `[list …]` arguments, and the four stream-control commands.
- `Wrapper` (wrapper.dfy): the `inited`/`running` guard of `WrtmN2xWrapper`.
- `Engine` (engine.dfy): `executePlan` with its helpers `_sendTest` and `_formResultString`. This covers the start retries, the load-delay ordering, the ping monitor, the stop exchange, the readiness wait with its three rounds, and the halts.

The environment is an input. `Engine.Env` holds three scripts:

- the outcomes of successive pings;
- the acknowledgement datagrams, each with the whole seconds that pass between the previous read and its arrival, or silence for the rest of the window;
- the datagrams on the init port, one per one-second `select`, or silence.

An exhausted script means nothing more arrives. Every operation returns, in order:

- the actions it took: pings, sends, sleeps and instrument commands;
- the result lines it recorded;
- the way it ended. `Completed` means the suite finished. `Fatal` covers the paths that print and return through `WrtmTestError`. `Crash` covers an exception the source does not catch, such as `struct.error` on a short datagram, a non-integer `loadDelay`, or an error raised from the plan generator.

### Where the code departs from its description

The model follows the code in each of these places:

- After the third start timeout, the code records a result line with code 4 and moves on to the next test. It does not abort the suite (WrtmTester.py:221-223, 310-321).
- Nothing waits for readiness between start retries: the retry loop goes straight back to the ping (192-224).
- Each loop of the plan numbers its lines from 1 again (TestPlanParser.py:67), so sequence numbers are not increasing across loops.
- The packet format `<IIILII128sII` is 160 bytes long. Its fourth word is the constant 136 (WrtmTester.py:339-348).
- The ten-second window is not reset by a busy reply. A busy reply that arrives when the whole window is used up leaves the `while` loop without raising, so it counts as an acknowledgement (357-376; `Engine.BusyAtDeadline`, `Engine.WindowNotReset`).
- The test id is packed unsigned but read back signed. A router that echoes an id of 2^31 or more can therefore never be accepted (`Protocol.EchoAccepted`, `Engine.HighIdNeverConfirmed`).
- A timeout on the stop acknowledgement records a code-4 line. It issues neither `_stopLoadStreams` nor the readiness wait (244-248, 310-321; `Engine.StopAckLostSkipsStop`).
- The skip check at WrtmTester.py:187 never fires, because `retCount` was set to 0 on the line before. The model leaves it out.

## Model

| member | source | states |
|---|---|---|
| Text.Split | src/wrtmmasher/TestPlanParser.py:54 | `str.split` with one separator gives at least one piece, no piece holds the separator, and joining the pieces gives the text back |
| Text.SplitJoin | src/wrtmmasher/TestPlanParser.py:37-40 | splitting a join of separator-free pieces gives the pieces back |
| Text.Find | src/wrtmtester/N2xInterface.py:222-225 | `find` from a start index returns the first occurrence at or after the clamped start, or -1 when there is none |
| Text.RFind | src/wrtmtester/N2xInterface.py:5 | `rfind` returns the last occurrence, and -1 exactly when the character is absent |
| Text.Slice | src/wrtmtester/N2xInterface.py:227-228 | Python slicing with clamped and negative bounds; an empty slice when the bounds cross |
| Text.ParseIntToString | src/wrtmmasher/TestPlanParser.py:38 | `int()` reads back every rendered integer |
| Text.ParseSigned | src/wrtmmasher/TestPlanParser.py:60-61 | `int()` accepts a leading `+` or `-` |
| Text.ParseIntPadded | src/wrtmmasher/TestPlanParser.py:74-78 | `int()` gives the same result with whitespace before and after the text: tab to carriage return, space, and the non-ASCII characters `str.isspace` accepts |
| Text.ParseIntBlank | src/wrtmmasher/TestPlanParser.py:74-78 | empty or all-whitespace text raises `ValueError` |
| Text.ParseIntUnderscore | src/wrtmmasher/TestPlanParser.py:74-78 | one underscore between two runs of digits leaves the value unchanged |
| Text.ParseIntStray | src/wrtmmasher/TestPlanParser.py:74-78 | text holding any character other than a digit, a sign, an underscore or whitespace raises `ValueError`, wherever that character stands |
| Bytes.LE32RoundTrip | src/wrtmtester/WrtmTester.py:339-348 | an unsigned word packed little-endian unpacks to itself |
| Bytes.FromLE32RoundTrip | src/wrtmtester/WrtmTester.py:339-348 | every four bytes are the packing of the word they unpack to |
| Bytes.FromLE32Signed | src/wrtmtester/WrtmTester.py:367 | the signed reading lies in the 32-bit signed range and is negative exactly when the top byte's high bit is set |
| Bytes.LE32SignedRoundTrip | src/wrtmtester/WrtmTester.py:367 | a signed word packed and read signed gives itself back |
| Utf8.DecodeEncode | src/wrtmtester/WrtmTester.py:346 | decoding the UTF-8 encoding of a name gives the name back |
| Utf8.EncodeNoNul | src/wrtmtester/WrtmTester.py:346 | a name without NUL encodes to bytes without a zero byte |
| Plan.LoopCount | src/wrtmmasher/TestPlanParser.py:49-52 | a missing `loop` option means one loop; a present one succeeds exactly when it reads as an integer |
| Plan.PlanLines | src/wrtmmasher/TestPlanParser.py:54 | the plan lines are all the newline-separated pieces except the first, and none holds a newline |
| Plan.ResolveAddress | src/wrtmmasher/TestPlanParser.py:60-65 | the address field resolves exactly when it reads as an integer |
| Plan.AddressRule | src/wrtmmasher/TestPlanParser.py:14-15 | a signed field moves the running offset by its value; an unsigned one replaces it |
| Plan.ParseTestLine | src/wrtmmasher/TestPlanParser.py:71-78 | a line parses exactly when it has five fields and fields 0, 2 and 4 read as integers. The record then holds the sequence number, those three values, the second field as the interface and the resolved address. Fields are read left to right, so `IndexError` for a missing fifth field arises exactly when fields 0 and 2 read. Every other failure is `ValueError` |
| Plan.CompileLine | src/wrtmmasher/TestPlanParser.py:59-78 | fewer than four fields or an empty address field raise `IndexError`. An address field that does not read raises `ValueError`. A line compiles exactly when it has five fields and fields 0, 2, 3 and 4 read. The record's fields are then the values read, and its address is the new running offset: the offset plus the field when the field is signed, the field otherwise |
| Plan.RunPass | src/wrtmmasher/TestPlanParser.py:58-67 | a pass with no error yields one record per line; a pass that stops on an error yields fewer |
| Plan.RenderedReadsAsEntries | src/wrtmmasher/TestPlanParser.py:59-78 | the corrected line step reads every rendered line as its entry, for any sequence number and offset |
| Plan.RecordCount | src/wrtmmasher/TestPlanParser.py:57-58 | without errors, the loops yield exactly loops × lines records |
| Plan.CompilePlan | src/wrtmmasher/TestPlanParser.py:48-67 | an unreadable `loop` option yields no record and reports that error |
| Plan.CompileRenderedLine | src/wrtmmasher/TestPlanParser.py:59-78 | a rendered plan line compiles back to the entry it was rendered from, with its sequence number and resolved address |
| Plan.LoopsOverEntries | src/wrtmmasher/TestPlanParser.py:57-67 | over lines the step reads as entries, the loops yield the reference sequence `Expected`: every entry, loop after loop, numbered from 1 in each loop, with the offset carried across loops |
| Plan.CompileRenderedPlan | src/wrtmmasher/TestPlanParser.py:48-78 | a plan section rendered from well-formed entries and a loop count compiles without error to exactly the reference sequence |
| Plan.ReplayLength | src/wrtmmasher/TestPlanParser.py:57-58 | replaying the lines `loops` times gives loops × lines entries |
| Plan.ResolveAddressAsWritten | src/wrtmmasher/TestPlanParser.py:60-63 | as written, only the first character of the field is read: a signed field fails and any value lies below 10 |
| Plan.AddressFirstCharOnly | src/wrtmmasher/TestPlanParser.py:60-63 | as written, `+5` and `-5` fail and `42` resolves to 4; the corrected rule gives offset+5 and 42 |
| Plan.CompileLineAsWritten | src/wrtmmasher/TestPlanParser.py:67-72 | as written, every line fails, because a list is handed to `parseTestLine`, which calls `.split` on it |
| Plan.AsWrittenYieldsNothing | src/wrtmmasher/TestPlanParser.py:48-72 | as written, no plan yields a single test, and one that reports no error had no loop or no line |
| Plan.AsWrittenLoops | src/wrtmmasher/TestPlanParser.py:57-72 | as written, no loop count yields a record, and a run that reports no error had no loop or no line |
| Plan.LoadTestTypes | src/wrtmmasher/TestPlanParser.py:34-41 | loading never loses a test type that was already known |
| Plan.ParseTestType | src/wrtmmasher/TestPlanParser.py:37-40 | a catalog line parses exactly when it has at least two space-separated fields and the first two read as integers; the id and the continuity flag are those values, and the description is all the text after the second space, or empty. `IndexError` arises exactly when the id reads and the line has no second field, because the id is converted first. Every other failure is `ValueError` |
| Plan.ShortTypeLines | src/wrtmmasher/TestPlanParser.py:37-39 | a blank line raises `ValueError`, and a line holding only an id and its newline raises `IndexError` |
| Plan.LoadStopsAt | src/wrtmmasher/TestPlanParser.py:36-41 | the first line that does not parse stops the load: the catalog keeps the lines before it, overlaid in file order, and the error is that line's |
| Plan.ParseRenderedTestType | src/wrtmmasher/TestPlanParser.py:37-40 | a rendered `id continuous description` line parses back to its three parts |
| Plan.LoadParsed | src/wrtmmasher/TestPlanParser.py:36-41 | loading lines that all parse overlays the parsed pairs on the known types, in file order |
| Plan.OverlayKeys | src/wrtmmasher/TestPlanParser.py:41 | an id is known after loading exactly when it was known before or some line defines it |
| Plan.OverlayLastWins | src/wrtmmasher/TestPlanParser.py:41 | the last line that defines an id decides its entry |
| Plan.OverlayUntouched | src/wrtmmasher/TestPlanParser.py:41 | an id no line defines keeps its earlier entry |
| Protocol.Fixed128 | src/wrtmtester/WrtmTester.py:339-348 | a `128s` field is exactly 128 bytes: the bytes given, cut or padded with zeros |
| Protocol.NameFieldBytes | src/wrtmtester/WrtmTester.py:346 | the name field holds the name's UTF-8 bytes followed by zeros |
| Protocol.NameFieldRoundTrip | src/wrtmtester/WrtmTester.py:346 | a name of at most 128 encoded bytes without NUL is recovered from its field by reading up to the first zero and decoding |
| Protocol.EncodeTest | src/wrtmtester/WrtmTester.py:334-349 | packing succeeds exactly when every integer field fits 32 unsigned bits, and then gives 160 bytes |
| Protocol.PacketLayout | src/wrtmtester/WrtmTester.py:339-348 | each field sits at its offset: the sequence number twice, then the test id, 136, the duration, the stop word, the 128-byte name, the address and the mask |
| Protocol.DecodeTest | src/wrtmtester/WrtmTester.py:339-348 | a datagram reads as a packet exactly when it is 160 bytes long |
| Protocol.DecodeEncodeTest | src/wrtmtester/WrtmTester.py:334-349 | reading a packed packet gives back every field of the invocation |
| Protocol.StartStopDiffer | src/wrtmtester/WrtmTester.py:335-338 | the start and the stop packet differ only in the stop word, which is 0 in one and 1 in the other |
| Protocol.DecodeAck | src/wrtmtester/WrtmTester.py:365-367 | an acknowledgement unpacks exactly when at least 10 bytes arrive, to a signed id and an unsigned status |
| Protocol.DecodeEncodeAck | src/wrtmtester/WrtmTester.py:367 | unpacking an encoded acknowledgement gives it back, whatever the two padding bytes and any trailer |
| Protocol.Classify | src/wrtmtester/WrtmTester.py:370-380 | status 0 with the expected id is accepted and with another id is a wrong test; 2 is busy, 1 is an unknown type, anything else is a NACK; each if and only if |
| Protocol.EchoAccepted | src/wrtmtester/WrtmTester.py:339-371 | echoing the packet's id word with status 0 is accepted exactly when the id is below 2^31 |
| Protocol.HighIdNeverAccepted | src/wrtmtester/WrtmTester.py:367-371 | no acknowledgement accepts a test id of 2^31 or more |
| Protocol.ClassifyBeacon | src/wrtmtester/WrtmTester.py:266-272 | a datagram from another host is foreign; from the router, under 10 bytes is malformed; it is a readiness announcement exactly when its words at 2 and 6 are the magic and 0xFFFFFFFF |
| Protocol.AnnouncementReady | src/wrtmtester/WrtmTester.py:270-272 | the announcement datagram from the router is classified ready |
| Instrument.FindCrlf | src/wrtmtester/N2xInterface.py:103 | the first CRLF at or after a position, or -1 when there is none |
| Instrument.ReadFrame | src/wrtmtester/N2xInterface.py:101-107 | reading stops at the first CRLF; the line has none, and nothing is read exactly when no CRLF ever arrives |
| Instrument.CrlfGrows | src/wrtmtester/N2xInterface.py:103-104 | appending received text never loses a CRLF already buffered |
| Instrument.FrameRoundTrip | src/wrtmtester/N2xInterface.py:103-107 | a CRLF-terminated line is read back exactly, and the rest stays buffered |
| Instrument.ReadFrameAsWritten | src/wrtmtester/N2xInterface.py:101-107 | as written, the buffer grows by `str(bytes)`, whose repr escapes CR and LF, so a buffer without a CRLF never yields a line, whatever the instrument sends; a buffer that already holds one splits at its first CRLF |
| Instrument.BytesRepr | src/wrtmtester/N2xInterface.py:104 | `str(bytes)` is `b`, a quote, the escaped bytes and the same quote. It holds no CR or LF. The quote is `"` exactly when the bytes contain `'` and no `"`, as CPython chooses it |
| Instrument.ByteRepr | src/wrtmtester/N2xInterface.py:104 | a byte stands for itself in the repr exactly when it is printable ASCII other than the backslash and the chosen quote |
| Instrument.ReplyNeverFramedAsWritten | src/wrtmtester/N2xInterface.py:101-110 | the proxy reply `0 ok\r\n` frames with the corrected read and does not frame as written |
| Instrument.Partition | src/wrtmtester/N2xInterface.py:106-110 | `str.partition`: the head has no separator, and head, separator and tail rebuild the text |
| Instrument.PartitionAt | src/wrtmtester/N2xInterface.py:106 | partition splits at the first separator |
| Instrument.ParseResponse | src/wrtmtester/N2xInterface.py:109-110 | a reply parses exactly when its first word is an integer; the output is the rest after the first space |
| Instrument.ParseResponseRoundTrip | src/wrtmtester/N2xInterface.py:109-110 | `status message` parses back to its status and message |
| Instrument.CommandText | src/wrtmtester/N2xInterface.py:83 | the command is `invoke`, interface, method and arguments, separated by single spaces |
| Instrument.CommandWords | src/wrtmtester/N2xInterface.py:83 | splitting the command on spaces recovers `invoke`, the interface, the method and the argument words |
| Instrument.Invoke | src/wrtmtester/N2xInterface.py:82-91 | the command line is sent. There is no reply exactly when no complete line arrives, and then the connection is unchanged. Otherwise the connection keeps what follows the line. The call returns exactly when the line's status reads as 0, and it returns the line's message. A status that is not a number raises exactly then. Any other status raises with `Error: "<message>" while executing command: <command>` |
| Instrument.InvokeAnswered | src/wrtmtester/N2xInterface.py:82-91 | a status-0 reply returns its message; any other status raises with that message; the rest stays buffered |
| Instrument.SmInvoke | src/wrtmtester/N2xInterface.py:79-80 | a session-manager call is an ordinary call on `sm <interface>` |
| Instrument.InvokeAsWritten | src/wrtmtester/N2xInterface.py:85 | as written, nothing is sent and the connection is unchanged |
| Instrument.InvokeAsWrittenNeverSends | src/wrtmtester/N2xInterface.py:85-86 | as written, every call raises on the misspelt `proxySsocket` attribute; the corrected call sends its command |
| Instrument.CommandCall | src/wrtmtester/N2xInterface.py:303-319 | exactly the capture and test start and stop commands have a call. Each call is the interface/method pair that the reference table `CommandOf` maps back to the same command. The interface is `AgtCaptureControl` exactly for the capture commands |
| Instrument.CommandCallInverse | src/wrtmtester/N2xInterface.py:303-319 | the call table and `CommandOf` are inverse: a command has a given pair exactly when that pair maps back to the command |
| Instrument.ListFromResponse | src/wrtmtester/N2xInterface.py:4-5 | the words between the first `{` and the last `}`, always at least one |
| Instrument.BraceContentsOf | src/wrtmtester/N2xInterface.py:5 | when the text before the first `{` holds no `{` and the text after the last `}` holds no `}`, the slice between them is exactly the braced body |
| Instrument.BraceBody | src/wrtmtester/N2xInterface.py:5 | a reply with one braced body lists the body's space-separated words |
| Instrument.ListFromResponseRoundTrip | src/wrtmtester/N2xInterface.py:4-5 | a reply bracing a space-joined list of words lists exactly those words |
| Instrument.ListFromResponseAsWrittenFails | src/wrtmtester/N2xInterface.py:4-5 | the port reply `{101/1 101/2}` fails as written and lists the two ports when corrected |
| Instrument.AddStreamGroupToProfile | src/wrtmtester/N2xInterface.py:219-228 | the command names the profile; on a return the first and second braced groups are appended as stream group and PDU; otherwise nothing is appended |
| Instrument.BraceGroupsOf | src/wrtmtester/N2xInterface.py:222-228 | for a reply with two braced groups, the first is the stream group and the second is the PDU |
| Instrument.RenderArg | src/wrtmtester/N2xInterface.py:176-177 | a text argument is passed unchanged. A list argument is rendered so that the reference reader `ParseListArg` recovers the split of the items joined by spaces |
| Instrument.RenderListRoundTrip | src/wrtmtester/N2xInterface.py:176-177 | under the reference reader `ParseListArg`, a rendered `[list …]` argument of space-free words reads back as exactly those words |
| Wrapper.StartLoadStreams | src/wrtmtester/WrtmN2xWrapper.py:98-102 | an initialised wrapper starts capture then test and marks the streams running; otherwise nothing happens |
| Wrapper.StopLoadStreams | src/wrtmtester/WrtmN2xWrapper.py:104-108 | an initialised wrapper marks the streams stopped and stops test then capture; otherwise nothing happens |
| Wrapper.Shutdown | src/wrtmtester/WrtmN2xWrapper.py:113-118 | an initialised wrapper ends with streams stopped and the last two commands closing the session and the proxy; otherwise nothing happens |
| Wrapper.InitN2XAsWritten | src/wrtmtester/WrtmN2xWrapper.py:96 | as written, initialisation sets the interface's flag and leaves the wrapper's own flags alone |
| Wrapper.InitN2X | src/wrtmtester/WrtmN2xWrapper.py:96 | corrected, initialisation sets the flag the wrapper's guards read |
| Wrapper.OperationsKeepConsistent | src/wrtmtester/WrtmN2xWrapper.py:98-118 | no operation lets streams run on an uninitialised instrument |
| Wrapper.StartStopCycle | src/wrtmtester/WrtmN2xWrapper.py:98-108 | starting then stopping issues the four commands in nesting order and restores the state with the streams stopped |
| Wrapper.ShutdownStopsFirst | src/wrtmtester/WrtmN2xWrapper.py:113-118 | shutting down running streams first issues exactly what stopping them would |
| Wrapper.UninitialisedIsInert | src/wrtmtester/WrtmN2xWrapper.py:98-118 | without initialisation no operation issues a command or changes the state |
| Wrapper.StreamCalls | src/wrtmtester/WrtmN2xWrapper.py:98-118 | through the call table of N2xInterface.py:303-319, starting the streams invokes `AgtCaptureControl.StartCapture` then `AgtTestController.StartTest`. Stopping them, directly or on shutdown of running streams, invokes `StopTest` then `StopCapture` |
| Wrapper.InitAsWrittenNeverStarts | src/wrtmtester/WrtmN2xWrapper.py:96-102 | as written, starting after initialisation issues nothing; corrected, it starts capture and test |
| Engine.Exchange | src/wrtmtester/WrtmTester.py:351-380 | the wait never exceeds the 10-second window; a timeout uses the whole window; a refusal is a wrong test, an unknown type or a NACK |
| Engine.ExchangeConfirmed | src/wrtmtester/WrtmTester.py:357-373 | the start is confirmed exactly when some datagram is an accepting acknowledgement that arrives within the window, and every earlier one is busy and arrives before the window ends |
| Engine.BusyAtDeadline | src/wrtmtester/WrtmTester.py:357-376 | a busy reply that arrives as the window closes ends the wait as an unconfirmed acknowledgement |
| Engine.WindowNotReset | src/wrtmtester/WrtmTester.py:357-364 | a busy reply does not reset the window: busy at 4 s and then accept 7 s later times out |
| Engine.HighIdNeverConfirmed | src/wrtmtester/WrtmTester.py:367-373 | no datagram script confirms a test id of 2^31 or more |
| Engine.WaitRound | src/wrtmtester/WrtmTester.py:264-277 | a round never exceeds 120 one-second selects, and expires exactly when all 120 are used |
| Engine.RoundAnnounced | src/wrtmtester/WrtmTester.py:264-277 | a round sees the announcement exactly when some datagram announces readiness within 120 seconds and everything before it is silence, foreign or stale |
| Engine.SilentRound | src/wrtmtester/WrtmTester.py:264-282 | with nothing arriving, a round expires after 120 seconds |
| Engine.ForeignIsFree | src/wrtmtester/WrtmTester.py:268-269 | a datagram from another host costs no time and changes nothing |
| Engine.AwaitReady | src/wrtmtester/WrtmTester.py:259-297 | the router is declared ready within the three rounds or not at all |
| Engine.AwaitReadyRounds | src/wrtmtester/WrtmTester.py:259-297 | for every beacon script, the wait holds three conditions. It gives up exactly when all remaining rounds expire. It is ready after `k` reboots exactly when the rounds before expired and round `k` heard the announcement. It crashes exactly when some remaining round meets a short beacon from the router after only expired rounds |
| Engine.ReadyWhenAnnounced | src/wrtmtester/WrtmTester.py:259-297 | from a fresh start, the wait is ready after `k` reboots exactly when `k` is below 3, the first `k` rounds expired and round `k` sees an announcement within its 120 seconds after nothing but passable events |
| Engine.SilentNeverReady | src/wrtmtester/WrtmTester.py:259-297 | a silent router is never ready after three rounds |
| Engine.Monitor | src/wrtmtester/WrtmTester.py:231-238 | the monitor sends at most the test's duration in pings, all of them when the router stays alive, and at least one when it stops |
| Engine.MonitorSurvives | src/wrtmtester/WrtmTester.py:231-238 | the router survives exactly when all of the first `duration` pings answer, and a lost ping is the last one sent |
| Engine.PingTrace | src/wrtmtester/WrtmTester.py:231-234 | a surviving monitor alternates a one-second sleep and a ping, `duration` times |
| Engine.Line | src/wrtmtester/WrtmTester.py:382-391 | a result line describes its test: sequence number, test id, interface, address and mask |
| Engine.StartAttempt | src/wrtmtester/WrtmTester.py:194-217 | an attempt starts with a ping, never completes the suite, issues no stop command and leaves the beacon script alone |
| Engine.AttemptShape | src/wrtmtester/WrtmTester.py:194-217 | an attempt that sends is the ping, the load-first actions, the one send, and on confirmation the load-after actions; one that does not send halts without sending |
| Engine.AttemptSends | src/wrtmtester/WrtmTester.py:196-212 | an attempt sends once when it reaches the send and never otherwise; an unanswered attempt did send |
| Engine.Retry | src/wrtmtester/WrtmTester.py:192-224 | a confirmed start reports a retry count below 3 and no lower than the count it began with |
| Engine.RetryKeeps | src/wrtmtester/WrtmTester.py:192-224 | the retry loop keeps every attempt's guarantees: a ping first, no completion, no stop command, beacons untouched |
| Engine.StartPhase | src/wrtmtester/WrtmTester.py:192-224 | the start phase begins with a ping, reports fewer than 3 retries on success, never completes the suite and issues no stop command |
| Engine.StartAttempts | src/wrtmtester/WrtmTester.py:192-224 | the start phase sends at most three start packets, and exactly three when it gives up |
| Engine.RetrySends | src/wrtmtester/WrtmTester.py:219-223 | with at most one send per attempt, and one per unanswered attempt, the loop sends at most its remaining retries, and exactly that many when exhausted |
| Engine.LoadBeforeEachSend | src/wrtmtester/WrtmTester.py:205-209 | with a negative delay, every start packet is preceded by the load start and a sleep of the delay's magnitude |
| Engine.LoadAfterAck | src/wrtmtester/WrtmTester.py:211-215 | with a non-negative delay, load starts only once the start is confirmed, and then right after the send and a sleep of the delay |
| Engine.RunInvocation | src/wrtmtester/WrtmTester.py:184-321 | every test pings first; a line is recorded unless the suite halts; a line describes its test, has code 0 or 4, code 0 exactly without a timeout reason, 3 retries exactly for the start-retry timeout, and a code-4 line never halts |
| Engine.InitialPingLostIsFatal | src/wrtmtester/WrtmTester.py:196-201 | a lost first ping shuts the instrument down and aborts the suite without a line |
| Engine.StopAckLostSkipsStop | src/wrtmtester/WrtmTester.py:243-248 | a lost stop acknowledgement records its timeout without stopping the load or waiting for readiness, and the suite goes on |
| Engine.StopAckedStopsLoad | src/wrtmtester/WrtmTester.py:244-248 | a code-0 line with load enabled has stopped the test and the capture |
| Engine.SilentRouterIsFatal | src/wrtmtester/WrtmTester.py:259-297 | after a code-0 line, a router that never announces itself aborts the suite |
| Engine.CooperativeRouter | src/wrtmtester/WrtmTester.py:192-302 | a router that answers every ping, accepts both packets and announces itself gives a code-0 line with no retries, and the suite goes on |
| Engine.RunAll | src/wrtmtester/WrtmTester.py:184-321 | at most one line per test, one per test when the suite completes, and the i-th line describes the i-th test |
| Engine.StepsInOrder | src/wrtmtester/WrtmTester.py:184-321 | for any step that records a line unless it halts, the loop's lines describe the tests in order |
| Engine.HaltIgnoresLater | src/wrtmtester/WrtmTester.py:304-308 | once the suite halts, later tests change nothing |
| Engine.RunAllAppend | src/wrtmtester/WrtmTester.py:184-321 | running two plans one after the other is running their concatenation |
| Engine.ExecutePlan | src/wrtmtester/WrtmTester.py:184-332 | a completed suite had an error-free plan and ran every record; a plan error after the records ran ends in that error |
| Engine.RunsRenderedPlan | src/wrtmtester/WrtmTester.py:184-321 | a rendered plan runs its reference sequence: each line describes the matching expected test, and it completes exactly when running that sequence completes |

## Left out

- The N2X configuration sequence in `initN2X` (WrtmTester.py:58-145, WrtmN2xWrapper.py:9-95) is not modelled. Only its effect is kept: the `inited` flag that gates the load streams, which `Engine.Config.loadEnabled` stands for. As written, `initN2X` never finishes, so a run without `--noload` stops before `executePlan`. The first failure is its first call, `reverseProxy` (WrtmTester.py:60, N2xInterface.py:31-33): `socket.socket()` is looked up on the class imported at N2xInterface.py:1, an `AttributeError`, and `self.smPort` is never assigned. Past that point, later failures wait in turn:
  - every `invoke` reads the unassigned `self.proxySsocket` (N2xInterface.py:85);
  - `addPortsToSession` calls the undefined `listFromResponse` (N2xInterface.py:178);
  - the profile loop reads the undefined `profile` (WrtmTester.py:80);
  - the undefined `setCapturePorts` is called at WrtmTester.py:104.

  `loadEnabled = true` therefore models only the corrected program.
- Sockets, `select`, `ping_one` and `time.sleep` become scripts and actions. A sleep is an action with whole seconds. The model has no clock, and an acknowledgement's arrival time is a whole number of seconds.
- Engine.Line: the start time, the test time and the `strftime` stamps of the result line are not modelled, because they are floating-point clock readings. The line keeps every field of the test, the code, the retry count and the timeout reason.
- The results file is the list of result lines a run returns. The console output is not modelled.
- The flush of the init socket (WrtmTester.py:299-302) is not modelled. The beacon script lists only what later waits observe.
- `getNumberOfTestCases` is called at WrtmTester.py:273 but defined in none of the source files modelled here. Its value is the parameter `Config.caseCount`. `src/wrtmtester/TestPlanParser.py` is not part of this model.
- The power cycle between readiness rounds is only a comment in the source. A new round follows.
- `testRunning` and `testTime` (WrtmTester.py:210-213, 312-315) only feed the left-out test time.
- `_writeWrapper` (N2xInterface.py:93-99) takes its arguments in the opposite order from its caller. This is unreachable behind the misspelt socket at line 85, and the corrected `Instrument.Invoke` simply sends the command.
- `SerialReader.py`, the older drafts under `src/` and `src/wrtmmasher/WrtmTester.py`, the command line, `configparser` and `TestPlanParser.load` are not modelled. The plan section is given as its optional `loop` text and its `plan` text.
- The N2X wrappers that only issue a command and ignore the reply, such as `setPduHeaders` and `setPayloadFill`, are not modelled one by one. `Instrument.CommandText`, `Instrument.Invoke` and the `[list …]` lemmas describe what each of them sends.
- Engine.ExecutePlan: the plan is compiled before the run. A plan error surfaces after the records compiled before it have run, which is what the generator does. The contract states only the completed-suite cases.

- Text.ParseInt: non-ASCII decimal digits (Arabic-Indic, full-width and so on), which Python's `int()` also accepts, are not modelled; only `0`-`9` are digits here.

## Findings

| source | as written | input that shows it | evidently intended | confidence | as-written member | corrected member |
|---|---|---|---|---|---|---|
| src/wrtmmasher/TestPlanParser.py:60-63 | `testTuple[3][0]` reads only the first character of the address field, and `int('+')` raises | the field `+5` raises; the field `42` gives 4 | the whole field: a signed field moves the offset, and an unsigned one replaces it | high, not executed | Plan.AddressFirstCharOnly | Plan.AddressRule |
| src/wrtmmasher/TestPlanParser.py:67-72 | the token list is handed to `parseTestLine`, which calls `.split(' ')` on it | any plan with one line and one loop | parse the tokens already split | high, not executed | Plan.AsWrittenYieldsNothing | Plan.CompileRenderedPlan |
| src/wrtmtester/N2xInterface.py:4-5 | `listFromReponse` reads the undefined name `output`, and its caller at line 178 spells it `listFromResponse` | `{101/1 101/2}` | the words between the braces of the reply | high, not executed | Instrument.ListFromResponseAsWrittenFails | Instrument.ListFromResponseRoundTrip |
| src/wrtmtester/N2xInterface.py:85 | `self.proxySsocket` is not an attribute, so every `invoke` raises before sending | any command, such as `invoke AgtTestController StartTest ` | send the command on the proxy socket | high, not executed | Instrument.InvokeAsWrittenNeverSends | Instrument.InvokeAnswered |
| src/wrtmtester/N2xInterface.py:104 | `str(socket.recv(4096))` appends the `b'…'` repr, whose CR and LF are escaped, so no CRLF ever arrives | the reply bytes `0 ok\r\n` | decode the received bytes | high, not executed | Instrument.ReplyNeverFramedAsWritten | Instrument.FrameRoundTrip |
| src/wrtmtester/WrtmN2xWrapper.py:96 | `initN2X` sets `self.n2x.inited`, but the guards read `self.inited` | a fresh wrapper after `initN2X`, then `_startLoadStreams` | set the wrapper's own flag | medium, not executed | Wrapper.InitAsWrittenNeverStarts | Wrapper.StartStopCycle |
