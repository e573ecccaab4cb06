# InvirtIO in Dafny

InvirtIO runs a device driver in a User Mode Linux guest and gives the device back to the host as
a virtio device. This project models the parts of its launcher (C) and its command (Go) whose
guarantees are about whole runs although the code works byte by byte or event by event, and proves
them with Dafny 4.11.

`dafny verify dfyconfig.toml` checks everything. Code that changes state is a class or a method
with loops, proved against functions of the inputs or the old state, and the lemmas are about
these functions. Protocols between processes are transition systems in which the guest, the clients
and the kernel can do anything that the source does not rule out.

- `Utf8`, `Sequences`, `Words`, `Wrappers`: Go's `utf8.FullRune` and `utf8.DecodeRune` from section
  4 of RFC 3629, lists, 32-bit words in bytes, and optional values.
- `ConsoleFilter`, `FilterReading`, `Terminal`: the filter between a guest and the user's terminal, a
  one-pass reference for it, what must pass said of the whole output with no state, and the terminal
  after sections 5.4 and 5.6 of ECMA-48.
- `LineLogger`, `LogReading`: the journal lines of a console, against a reference that decodes first
  and breaks lines second, and the text that must stay said of the whole output.
- `ConsoleServer`: the server that sends a console to its clients, with receivers that take from
  their queues at any time and a buffer that the caller uses again.
- `Supervisor`, `SupervisorOrder`: the goroutines of a device's run, and the order of what they do.
- `SyscallFilter`: a classic BPF interpreter, the launcher's program as a function of its list of
  denied calls, and the policy.
- `Relay`, `Mconsole`: the relay of the management console with its poll loop, and its client.
- `Broker`: VDUSE requests and in-flight logs over any number of runs.
- `Descriptors`: the launcher's descriptor table over whole runs.
- `DeviceArgs`: the check of the guest's arguments, the arguments that the guest gets, and the words
  that the guest's kernel takes them apart into.
- `CpuMask`, `ShellQuote`: printers with their readers.
- `Plans`: enable, disable and uninstall on an abstract host, cut off anywhere.

Some claims hold only under a condition, which the lemma named here states exactly:

- The comment at tools/cmd/invirtio/console.go:256-257 says that nothing in a control string reaches
  the terminal. The filter ends a string at every byte 9C, which is also part of characters such as
  U+00DC, so the rest of a title with one passes (`Terminal.TitleIsShown`), although nothing that
  passes is a control string (`Terminal.TerminalIsSafe`). `ConsoleFilter.TextStringErasedExactly`
  tells which strings of text go without a trace.
- No packet that the guest of a management console sent before a request is read as part of the
  reply to it, if at most 64 wait when the request is taken, and some are left exactly if more wait
  (`Relay.RepliesAreFresh`, `Relay.DrainExactly`).
- A reply of the management console that is split into chunks arrives as it was exactly if no
  chunk's text ends in a NUL (`Mconsole.RepliesJoin`).
- Logs stay within the largest size exactly if each log can be truncated, or the guest left it
  small enough (`Broker.RunEndsFitExactly`).
- The comment at tools/cmd/invirtio/devices.go:106-107 says that a device whose guest never started
  keeps its host driver at the next boot. That holds of the device that is enabled
  (`Plans.EnableStartsFirst`), but both an enable and a disable write a rule for every device that
  stays recorded, so a device whose enable was interrupted gets one from either command of another
  device (`Plans.InterruptedEnableGetsRule`, `Plans.DisableGivesRule`). Once such a command has
  written the rules, wherever it is cut off, every device with a rule starts at boot exactly if all
  the other recorded devices do (`Plans.EnableRulesExactly`, `Plans.DisableRulesExactly`).

## Model

| member | source | states |
|---|---|---|
| Utf8.PartialExactly | tools/cmd/invirtio/console.go:324-328 | what FullRune waits for is exactly a non-empty proper prefix of a well-formed sequence |
| Utf8.EncodingExactly | tools/cmd/invirtio/console.go:323-351 | each character has exactly one sequence that decodes to it, so what the two filters let pass by its value is fixed byte for byte |
| Utf8.DecodePrefix | tools/cmd/invirtio/console.go:327-351 | decoding looks no further than the shortest prefix that is full |
| Utf8.DecodeGrown | tools/cmd/invirtio/console.go:323-351 | a sequence that was partial until its last byte decodes whole or as one bad byte |
| Words.LittleEndian | launcher/invirtio-launch.c:1425-1431 | a word of a message is its four bytes, the lowest first |
| ConsoleFilter.EscapeFilter.Write | tools/cmd/invirtio/console.go:241-250 | a write moves the filter and writes as the specification does, also when the writer fails |
| ConsoleFilter.EscapeFilter.FeedByte | tools/cmd/invirtio/console.go:252-314 | one byte in each of the five states, as the specification has it |
| ConsoleFilter.EscapeFilter.FeedTextByte | tools/cmd/invirtio/console.go:316-351 | one byte of text, with the bytes after a bad first byte fed again |
| ConsoleFilter.EscapeFilter.FeedBytes | tools/cmd/invirtio/console.go:243-245 | the loop over bytes, which ends because what is held back gets shorter |
| ConsoleFilter.ChunksDoNotMatter | tools/cmd/invirtio/console.go:241-250 | how a run's input is cut into writes makes no difference |
| ConsoleFilter.FeedAllIsScan | tools/cmd/invirtio/console.go:241-351 | from any state, streaming is the one-pass reference on what is held back and the rest |
| ConsoleFilter.StreamingIsOnePass | tools/cmd/invirtio/console.go:241-351 | for every input and every cut, the writes give what decoding the whole input at once gives |
| FilterReading.FilterIsReading | tools/cmd/invirtio/console.go:241-351 | whatever the guest writes, in whatever pieces, what passes is the reading of all of it: printable text and characters from U+00A0 on, C0 controls, and escapes that open no string and have no other intermediate byte |
| FilterReading.InvalidByteIsDropped | tools/cmd/invirtio/console.go:333-340 | a byte that is no part of a character and is no C1 control that opens a string leaves no trace, whatever comes before and after it |
| FilterReading.ByteAfterEscape | tools/cmd/invirtio/console.go:266-295 | what each byte after an ESC does to the rest: C0 controls, DEL, CAN, SUB, ESC, bytes from 80 on, openers, intermediate bytes and all others |
| FilterReading.ByteAfterIntermediate | tools/cmd/invirtio/console.go:296-311 | what each byte after a dropped intermediate byte does to the rest |
| ConsoleFilter.PendingIsPartial | tools/cmd/invirtio/console.go:217-218 | what is held back is at most 3 bytes, a proper prefix of a character, and only in text |
| ConsoleFilter.CopyOutput | tools/cmd/invirtio/console.go:413-415 | a copy through the filter writes the reference's output of the chunks up to the first failed write |
| ConsoleFilter.WriteClean | tools/cmd/invirtio/console.go:252-350 | each write gives whole units: ASCII but ESC, ESC and an allowed byte, or a character from U+00A0 on |
| ConsoleFilter.UnitsPass | tools/cmd/invirtio/console.go:252-350 | each sequence of units passes unchanged from the first state |
| ConsoleFilter.OutputsAreFixedPoints | tools/cmd/invirtio/console.go:207-213 | the outputs of the filter are exactly the inputs that it leaves as they are |
| ConsoleFilter.FilteringTwice | tools/cmd/invirtio/console.go:207-213 | filtering the output of a run again changes nothing |
| ConsoleFilter.StringErased | tools/cmd/invirtio/console.go:207-213 | a control string in any of its forms goes without a trace if no byte of its content is BEL or 9C, also none within a character |
| ConsoleFilter.StringEndsAtST | tools/cmd/invirtio/console.go:255-266 | a string ends at its first byte 9C, wherever it is, and the rest is read as text |
| ConsoleFilter.TextStringErasedExactly | tools/cmd/invirtio/console.go:255-266 | a string of UTF-8 text goes without a trace exactly if in each character every byte 9C has a byte after it that opens a string again, where the last character does not count if the C1 control C2 9C ends the string |
| ConsoleFilter.TextStringGives | tools/cmd/invirtio/console.go:255-266 | otherwise just the text after the first character that is not so passes, and the terminator |
| Terminal.TitleIsShown | tools/cmd/invirtio/console.go:255-257 | a title with U+00DC, which the terminal reads as one string up to its BEL, lets the rest of the title and the BEL pass the filter |
| ConsoleFilter.UnterminatedStringSwallows | tools/cmd/invirtio/console.go:255-266 | a string that does not end lets nothing of the rest pass |
| ConsoleFilter.OtherIntermediatesErased | tools/cmd/invirtio/console.go:226-228 | an escape with an intermediate that designates no character set goes up to its final byte |
| Terminal.TerminalIsSafe | tools/cmd/invirtio/console.go:207-213 | no terminal that starts in ground reads a C1 control or enters a control string at any point of any run's output |
| Terminal.UnfilteredIsNotSafe | tools/cmd/invirtio/console.go:231-239 | each introducer that the filter takes out puts an unfiltered terminal in a control string |
| Terminal.RunExists | tools/cmd/invirtio/console.go:207-213 | the terminal has a run on every input |
| Terminal.WritesAreUtf8 | tools/cmd/invirtio/console.go:210-213 | each single write is well-formed UTF-8 on its own |
| LineLogger.LineLogger.Write | tools/cmd/invirtio/run.go:504-508 | a write moves the logger and writes the records that the specification gives |
| LineLogger.LineLogger.FeedByte | tools/cmd/invirtio/run.go:517-555 | one byte, with the bytes after a bad first byte fed again |
| LineLogger.LineLogger.Flush | tools/cmd/invirtio/run.go:557-570 | one write has the level, the prefix, the line and a newline, and the line is empty after it |
| LineLogger.LineLogger.Close | tools/cmd/invirtio/run.go:510-515 | the end writes a line that has no newline, and only if it is not empty |
| LineLogger.ChunksDoNotMatter | tools/cmd/invirtio/run.go:504-508 | how the output is cut into writes makes no difference |
| LineLogger.FeedAllIsReference | tools/cmd/invirtio/run.go:517-555 | from any valid state, streaming is decoding everything and then breaking it into lines |
| LineLogger.RunIsReference | tools/cmd/invirtio/run.go:504-555 | after any writes the state is valid, so what comes next gives what the reference gives for the held back part and the rest |
| LineLogger.LogOutput | tools/cmd/invirtio/run.go:199-215 | from the start to the close, what is written to the journal is the records of the log that the lemmas are about |
| LineLogger.LogIsClean | tools/cmd/invirtio/run.go:485-488 | each line of any run has at most 1024 bytes of whole characters without a control but the tab |
| LineLogger.LogRejoins | tools/cmd/invirtio/run.go:517-555 | the lines without forced breaks are the guest's text without what is dropped |
| LogReading.LogIsKept | tools/cmd/invirtio/run.go:517-555 | the lines without forced breaks are what stays of the whole output: newlines, tabs, printable ASCII and characters from U+00A0 on, without ESC [ up to its final byte and ESC with any other byte |
| LineLogger.LogBreaksAreNeeded | tools/cmd/invirtio/run.go:526-529 | a break is forced only where the next character does not fit in 1024 bytes |
| LineLogger.LoggingTwice | tools/cmd/invirtio/run.go:485-498 | logging the lines of a log again gives the same lines |
| LineLogger.RecordIsOneLine | tools/cmd/invirtio/run.go:557-570 | what the guest writes cannot end a record or start another |
| ConsoleServer.Channel.TrySend | tools/cmd/invirtio/console.go:84-86 | a send on an open channel takes the chunk exactly if there is room |
| ConsoleServer.Channel.Receive | tools/cmd/invirtio/console.go:120-126 | a turn of a client's goroutine moves the first chunk to the client and changes nothing that was sent |
| ConsoleServer.Server.Output | tools/cmd/invirtio/console.go:76-92 | output keeps the guarantee, appends the read part of the buffer to the output, and drops no client that has room |
| ConsoleServer.Server.Offer | tools/cmd/invirtio/console.go:83-90 | a client gets a copy that nobody else has, or is dropped and closed exactly if its queue is full |
| ConsoleServer.Server.Keep | tools/cmd/invirtio/console.go:79-82 | the scrollback is the last 65536 bytes of the whole output |
| ConsoleServer.Server.Attach | tools/cmd/invirtio/console.go:114-118 | a new client starts with the scrollback, which fits in its queue |
| ConsoleServer.Server.Detach | tools/cmd/invirtio/console.go:129-134 | a client that leaves is closed, unless it was dropped before |
| ConsoleServer.Server.Close | tools/cmd/invirtio/console.go:153-161 | the end closes each attached client's channel once |
| ConsoleServer.LastAppend | tools/cmd/invirtio/console.go:79-82 | what stays of what stayed and more is what stays of all of it |
| ConsoleServer.Run | tools/cmd/invirtio/run.go:200-215 | in every run with one reused buffer there is one channel for each client that attached, which starts at the scrollback of the output at that time; a client is attached exactly if it has not left, the server was not closed, and no output came while its queue was full; what it took and has waiting is one slice of the output from its start, up to the end while attached, and channels are open exactly if attached |
| ConsoleServer.Act | tools/cmd/invirtio/console.go:76-161 | whatever happens next, no channel is lost, no client comes back, what each client was sent and took only grows, a client that attaches starts at the scrollback, and only its leaving, the close or output while its queue has 256 chunks takes a client out |
| Supervisor.NoAddAfterStop | tools/cmd/invirtio/run.go:362-382 | in every interleaving, no add of the device starts or is in progress once stopped is set |
| Supervisor.TerminatesLast | tools/cmd/invirtio/run.go:242-252 | SIGTERM goes out only after the attacher has ended and the device was removed, in this order |
| Supervisor.KeptExactlyIf | tools/cmd/invirtio/run.go:279-285 | the device skips cleanup exactly if it is net, is attached, no stop was seen, and the attacher bound it and then read that the launcher ran |
| Supervisor.SignalMeansCleanup | tools/cmd/invirtio/run.go:232-262 | a signal that came before the last look for one always leads to cleanup |
| Supervisor.StopIsBounded | tools/cmd/invirtio/run.go:400-406 | a stop waits for at most five steps of the attacher, which no other step adds to |
| Supervisor.NoDeadlock | tools/cmd/invirtio/run.go:217-282 | until the end some goroutine can go on, or the launcher has not exited |
| Supervisor.RunIsConsistent | tools/cmd/invirtio/run.go:342-398 | what the lock protects: past its check the attacher holds the lock and is not stopped |
| SupervisorOrder.AttacherInOrder | tools/cmd/invirtio/run.go:357-391 | in every run, each act of the attacher comes right after the acts that the code has before it, back to the last turn of its loop |
| SupervisorOrder.AddsExactly | tools/cmd/invirtio/run.go:367-383 | an add comes exactly after a look that finds the device existing, which comes exactly after one that does not find it on the bus, where a bind comes exactly if it is |
| SupervisorOrder.ChecksExactly | tools/cmd/invirtio/run.go:362-366 | after its check the attacher looks for the device, or was told to stop before and gives up |
| SupervisorOrder.MainInOrder | tools/cmd/invirtio/run.go:217-276 | the first stop signal stops the attacher, removes the device and ends the launcher, each later one only ends the launcher, and an exit leads to the drain, a stop of the attacher, the look at live and the decision |
| SupervisorOrder.FindingsAreTrue | tools/cmd/invirtio/run.go:210-262 | the launcher's exit is taken only once it was sent, a signal's look for it finds none only before, and the attacher reads that the launcher is gone exactly after that was stored |
| SupervisorOrder.SignalsWaitExactly | tools/cmd/invirtio/run.go:97 | two signals can wait, and each that is taken or drained is one less |
| SyscallFilter.DenyCorrect | launcher/invirtio-launch.c:994-996 | for any list and any program after it, DENY refuses exactly the list and otherwise goes on with the accumulator as it was |
| SyscallFilter.FilterIsPolicy | launcher/invirtio-launch.c:1010-1096 | for every call and every list, running the program gives the policy's decision |
| SyscallFilter.FilterOutcomes | launcher/invirtio-launch.c:1010-1096 | each of the three outcomes has exactly its reasons |
| SyscallFilter.FilterReadsLowWords | launcher/invirtio-launch.c:1010-1096 | calls whose arguments differ in the high 32 bits only get one decision |
| SyscallFilter.FilterChecked | launcher/invirtio-launch.c:1010-1096 | every jump is forward and in range, and the program ends in a return |
| SyscallFilter.CheckedReturns | launcher/invirtio-launch.c:1103-1143 | a program that passes the kernel's check returns from each of its instructions |
| SyscallFilter.LauncherFilterIsPolicy | launcher/invirtio-launch.c:1010-1096 | with the launcher's own list the program is checked and is the policy |
| SyscallFilter.LauncherDecides | launcher/invirtio-launch.c:1010-1096 | in numbers, for arguments given in two words: which calls get EPERM by the low words of their arguments, that clone3 gets ENOSYS, and that all others pass |
| SyscallFilter.DeniedNumbers | launcher/invirtio-launch.c:1018-1058 | the numbers of the denied calls |
| Relay.Supervise | launcher/invirtio-launch.c:1777-1804 | the loop with the relay's own operations keeps all of RelayIsSound, and a waiting relay has the client of the last request |
| Relay.RelayIsSound | launcher/invirtio-launch.c:1777-1804 | from its start, whatever the guest and the clients do, at most one request is in flight, a waiting relay has a guest, what is sent is for each request in turn the packets of its own reply that were read by its deadline, no reply gives more than 65536, and a disabled relay takes and sends no more |
| Relay.RequestExactly | launcher/invirtio-launch.c:1378-1439 | a datagram is passed on exactly if it is at most ten seconds old, is a whole version 2 request and the guest takes it; otherwise it is dropped if it is older, and gets its error if not |
| Relay.ReplyExactly | launcher/invirtio-launch.c:1441-1470 | a packet ends the reply exactly if its second word is zero or missing, disables the guest exactly if it is the end or one too many, and goes to the client exactly by the deadline |
| Relay.DrainExactly | launcher/invirtio-launch.c:1390-1408 | a turn without a request in flight takes the next datagram and drops up to 64 packets that wait, so that none is left exactly if no more wait |
| Relay.RepliesAreFresh | launcher/invirtio-launch.c:1390-1408 | also with a guest that sends unasked, what is read are its packets in order, each sent after the request that it is read for was taken, if at most 64 wait whenever a datagram is taken |
| Relay.WaitingKeepsClient | launcher/invirtio-launch.c:1777-1804 | no event changes the client or the deadline while a request is in flight |
| Relay.NextDisabled | launcher/invirtio-launch.c:1797-1802 | a guest's socket that is disabled stays so, and nothing is accepted or sent after it |
| Relay.EachClientGetsItsReply | launcher/invirtio-launch.c:1441-1470 | with a guest that answers each request once, what is sent is for each client in turn what was read in time of the guest's answer to it, which is all of the answer for each request but the last and a prefix for one that was broken off |
| Relay.DeadlineFromArrival | launcher/invirtio-launch.c:1398-1438 | the deadline is ten seconds after the request arrived |
| Mconsole.Request | tools/internal/mconsole/mconsole.go:24-80 | one packet goes out, and the replies give the reply that the specification collects |
| Mconsole.RelayTakesRequests | launcher/invirtio-launch.c:1425-1433 | the relay passes on whole each packet that the client builds |
| Mconsole.RepliesJoin | tools/internal/mconsole/mconsole.go:50-79 | a reply within the limit gives its text however it is split, exactly if no chunk ends in a NUL |
| Mconsole.LongReplyFails | tools/internal/mconsole/mconsole.go:69-71 | a reply is too long exactly if its text without the NULs at its chunks' ends is over the limit, and that is the whole text exactly if no chunk ends in a NUL |
| Mconsole.ChunkExactly | tools/internal/mconsole/mconsole.go:65-68 | the text of a packet is its data, as far as its length says, it goes and 524 bytes hold, without the NULs at the end |
| Mconsole.BrokenReplyFails | tools/internal/mconsole/mconsole.go:54-71 | a reply that breaks off fails as the read does, and one with a packet that has no header is short |
| Mconsole.FirstErrorDecides | tools/internal/mconsole/mconsole.go:62-78 | the first packet alone says whether the reply is an error |
| Mconsole.SpaceIsTrimmed | tools/internal/mconsole/mconsole.go:77 | white space around an error's message is no part of it |
| Mconsole.SplitDoesNotMatter | tools/internal/mconsole/mconsole.go:50-79 | two ways to split one text give the client the same |
| Mconsole.RelayErrorsReachCaller | launcher/invirtio-launch.c:1366-1376 | the relay's own errors are errors with the relay's message |
| Broker.ActsExactly | launcher/invirtio-launch.c:1592-1638 | whatever the message, the launcher creates, destroys, opens or resizes for the guest exactly if the message asks for that and an export allows it |
| Broker.AnswersExactly | launcher/invirtio-launch.c:1592-1638 | what is done is answered with the kernel's result and what is not with an error and no effect; a descriptor goes out exactly for an open that succeeds, and a log changes exactly by a resize that does |
| Broker.ServesExactly | launcher/invirtio-launch.c:1642-1689 | a request within the budget counts, is carried out unless it is too long, and is answered, and serving goes on exactly if the answer is taken |
| Broker.ServingEndsExactly | launcher/invirtio-launch.c:1660-1670 | serving ends at an error, the end or one request too many, and goes on if nothing has come |
| Broker.RunAnswers | launcher/invirtio-launch.c:1642-1689 | as long as they arrive, the first 16 requests for each export are answered, and no more |
| Broker.Broker.ServeRun | launcher/invirtio-launch.c:1642-1729 | a run with the broker's own operations is the specified one, so it acts as allowed, answers at most 16 requests for each export and leaves each log that can be truncated at its end size |
| Broker.Broker.ServeRuns | launcher/invirtio-launch.c:2203-2211 | over any number of runs in which logs can be truncated, logs that fit stay so, and answers and actions stay within the budget of each run |
| Broker.Broker.DestroyExports | launcher/invirtio-launch.c:1701-1729 | each device is tried up to 100 times while it is busy and off the bus, and each log is cut to its end size |
| Broker.LogEndsExactly | launcher/invirtio-launch.c:1701-1729 | a log that can be truncated ends empty exactly if one of the first 100 tries to destroy its device gives 0 or EINVAL after tries that found it busy and off the bus, and else at its recorded size |
| Broker.SizeIsOpened | launcher/invirtio-launch.c:1634-1636 | the recorded size is that with which the log was opened, unless the run had a resize of it |
| Broker.RunKeeps | launcher/invirtio-launch.c:1592-1729 | a run acts, resizes included, only on exported names with the declared type and a config of at most 4096 bytes; it answers at most 16 requests for each export, refused ones included, does at most one thing for each and reads at most one request more; and logs end empty or at their recorded size, as Broker.LogEndsExactly says |
| Broker.LogsFit | launcher/invirtio-launch.c:1691-1729 | over any number of runs, logs that fit stay so if they can be truncated |
| Broker.RunEndsFitExactly | launcher/invirtio-launch.c:1723-1726 | the logs of a run fit exactly if each is truncated or was left small enough |
| Broker.LargestLogFits | tools/cmd/invirtio/config.go:31-35 | the largest log is within one MiB of the tmpfs, and below it |
| Descriptors.Launcher.OpenDevice | launcher/invirtio-launch.c:775-804 | a device opens its ROM and either a new group descriptor or the one of an earlier device of its group |
| Descriptors.Launcher.FindGroup | launcher/invirtio-launch.c:780-790 | the search finds a descriptor exactly if an earlier device has the group |
| Descriptors.Launcher.CloseDevices | launcher/invirtio-launch.c:848-857 | each ROM and each group is closed once, although the search is by descriptor |
| Descriptors.Launcher.OpenGuestFds | launcher/invirtio-launch.c:767-840 | what is open after it is what was open, the guest's side and the launcher's side |
| Descriptors.Launcher.CloseGuestFds | launcher/invirtio-launch.c:842-865 | exactly the guest's side is closed |
| Descriptors.Launcher.RunGuest | launcher/invirtio-launch.c:2013-2071 | a run returns unless a call fails, and then leaves the descriptor table as it was, with each descriptor closed once |
| Descriptors.Launcher.RunGuests | launcher/invirtio-launch.c:2203-2211 | so do any number of runs |
| Descriptors.GroupIsListed | launcher/invirtio-launch.c:780-790 | the descriptor of each device's group is open, by its first device |
| DeviceArgs.Launcher.ParseExport | launcher/invirtio-launch.c:487-525 | -e is taken exactly if it describes an export with a known type, a valid new name and a log, and there is room |
| DeviceArgs.TestParam | launcher/invirtio-launch.c:534-543 | an argument sets a parameter exactly if it has its name up to - and _, and then = |
| DeviceArgs.ParamExactly | launcher/invirtio-launch.c:534-543 | with dashes as underscores, an argument sets a parameter exactly if it starts with its name and = |
| DeviceArgs.TestSplits | launcher/invirtio-launch.c:576-585 | an argument has a byte that could split it exactly if the search finds one |
| DeviceArgs.Launcher.ArgExport | launcher/invirtio-launch.c:549-569 | the search finds the one export that the value gives, or there is none |
| DeviceArgs.Launcher.GivenOnce | launcher/invirtio-launch.c:549-569 | no argument gives two exports |
| DeviceArgs.Launcher.CheckDeviceArgs | launcher/invirtio-launch.c:594-624 | the check passes exactly if each argument can be taken, no export is given twice and each is given |
| DeviceArgs.Launcher.Bijection | launcher/invirtio-launch.c:587-593 | if it passes, the device arguments before "--" and the exports are in bijection |
| DeviceArgs.Launcher.GuestArgv | launcher/invirtio-launch.c:883-926 | the array has the program, what the launcher passes, and the caller's arguments in order with each device's own log and no other change, and a NULL within it |
| DeviceArgs.OwnExactly | launcher/invirtio-launch.c:891-915 | what the launcher passes, word for word, with each descriptor in its place |
| DeviceArgs.DecimalIsNumber | launcher/invirtio-launch.c:897 | a number is printed in decimal, without zeros in front |
| DeviceArgs.LogIsOnlyOne | launcher/invirtio-launch.c:616-617 | the log that is added is the only one in its argument, also across the old end |
| DeviceArgs.WordsAreArguments | launcher/invirtio-launch.c:571-585 | whichever of the bytes that the check looks for the kernel counts as space, checked arguments are words of the command line, and what follows them is taken apart on its own |
| DeviceArgs.Launcher.KernelSees | launcher/invirtio-launch.c:571-624 | with an export and a passed check, the kernel's words up to the first "--" are the launcher's own arguments and the caller's up to theirs; among them are exactly one device parameter for each export, with its own log, and the launcher's broker parameter as the only one |
| CpuMask.SetBit | tools/internal/harness/cpu.go:175-182 | the mask gets one CPU and keeps the others, and no zero word is left at its end |
| CpuMask.ParseMask | tools/internal/harness/cpu.go:140-158 | parsing fails exactly if a group is no number of 32 bits, and else gives the CPUs of the groups |
| CpuMask.GroupExactly | tools/internal/harness/cpu.go:147 | a group is a number below 2 to the 32 in hexadecimal digits of either case |
| CpuMask.DigitsAreHex | tools/internal/harness/cpu.go:147 | each digit counts sixteen times what comes after it |
| CpuMask.SpaceIsTrimmed | tools/internal/harness/cpu.go:143 | white space around a mask's text is no part of it |
| CpuMask.FormatMask | tools/internal/harness/cpu.go:160-173 | the loops give the text that the specification has |
| CpuMask.FormatParses | tools/internal/harness/cpu.go:140-173 | what is parsed of a printed mask has exactly the mask's CPUs |
| CpuMask.SameTextExactly | tools/internal/harness/cpu.go:160-173 | two masks print the same exactly if they have the same CPUs |
| CpuMask.ParseCPUList | tools/internal/harness/cpu.go:118-138 | a list gives the union of its ranges, or fails exactly if a part is no range |
| CpuMask.ListParsesBack | tools/internal/harness/cpu.go:118-138 | a list as the kernel prints it is read as exactly the CPUs of its ranges |
| CpuMask.RangeIsNatural | tools/internal/harness/cpu.go:121-136 | no range starts below zero, so SetBit gets no negative CPU |
| CpuMask.Intersects | tools/internal/harness/cpu.go:184-192 | masks intersect exactly if they share a CPU |
| CpuMask.PlaceIRQs | tools/internal/harness/cpu.go:68-89 | what is written parses to the given CPU, or to a queue's own CPUs if one is online, or to the online ones; every queue is written up to the first text that does not parse and the first write that fails |
| CpuMask.PlacedIsOnline | tools/internal/harness/cpu.go:64-67 | if a CPU is online, each queue gets one that is |
| ShellQuote.ShowCmd | tools/cmd/invirtio/plan.go:91-97 | reading the shown command with the shell's rules gives the name and the arguments |
| ShellQuote.ShownAsIsExactly | tools/cmd/invirtio/plan.go:83-89 | an argument is shown as it is exactly if it is not empty and has only the characters of the list |
| ShellQuote.QuotedPasses | tools/cmd/invirtio/plan.go:83-89 | a quoted argument is one word of the shell, which is the argument |
| ShellQuote.ShownReadsBack | tools/cmd/invirtio/plan.go:83-97 | so do all words, whatever is in them |
| ShellQuote.ShownIsInjective | tools/cmd/invirtio/plan.go:16-21 | commands that are shown the same are the same |
| Plans.Lookup | tools/cmd/invirtio/config.go:192-203 | the search over the map finds a device that has the key as its name or address, or there is none |
| Plans.LookupIsUnique | tools/cmd/invirtio/config.go:192-203 | with one-to-one records a key has one answer, whatever the map's order |
| Plans.NameIsNoAddress | tools/cmd/invirtio/config.go:116-127 | no name is an address |
| Plans.RecordsAgree | tools/cmd/invirtio/devices.go:70-121 | after any commands, each cut off anywhere, each rule is for a recorded device and names and addresses are one-to-one |
| Plans.MadeIsSafe | tools/cmd/invirtio/devices.go:106-120 | each plan keeps that at each of its cuts, by the order of its stages |
| Plans.GroupsStayApart | tools/cmd/invirtio/devices.go:67-74 | after any commands, each cut off anywhere, no two recorded devices are in one IOMMU group |
| Plans.EnableGivesAsked | tools/cmd/invirtio/devices.go:75-95 | an enable records the device as it was asked for and changes no other record, so one that asks for something else of a recorded device is refused |
| Plans.EnableIsMade | tools/cmd/invirtio/devices.go:75-95 | an enable of a device that is not recorded has a plan if its group and its valid name are free |
| Plans.EnableIsMadeAgain | tools/cmd/invirtio/devices.go:75-80 | an enable of a recorded device has a plan if it asks for what is recorded, or for nothing |
| Plans.EnableGives | tools/cmd/invirtio/devices.go:106-120 | an enable ends with the device recorded, its guest enabled and running and a rule for each recorded device, and with nothing else changed |
| Plans.DisableGives | tools/cmd/invirtio/devices.go:180-289 | a disable ends with nothing left of the device, which has its native driver and no override unless another driver than vfio-pci had it, and with nothing else changed |
| Plans.UninstallGives | tools/cmd/invirtio/devices.go:291-339 | an uninstall ends with nothing left of any recorded device, in the same way, and without configuration, rules, user and unit |
| Plans.DisableFreesTheDevice | tools/cmd/invirtio/devices.go:176-191 | wherever a disable stops once it has begun, its device has no rule |
| Plans.EnableStartsFirst | tools/cmd/invirtio/devices.go:106-120 | wherever an enable stops, it has not changed the rules before the start of the guest |
| Plans.EnableRulesExactly | tools/cmd/invirtio/devices.go:353-378 | wherever an enable stops once it has written the rules, the devices with a rule have guests that start at boot exactly if all the other recorded devices do |
| Plans.DisableRulesExactly | tools/cmd/invirtio/devices.go:176-191 | wherever a disable stops once it has begun, the devices with a rule have guests that start at boot exactly if all the other recorded devices do |
| Plans.InterruptedEnableGetsRule | tools/cmd/invirtio/devices.go:106-107 | an enable of another device writes a rule for one whose enable was interrupted |
| Plans.DisableGivesRule | tools/cmd/invirtio/devices.go:176-191 | so does the first action of a disable of another device |
| Plans.DisableAgain | tools/cmd/invirtio/devices.go:176-289 | an interrupted disable that is run again reaches what it would have reached |
| Plans.EnableAgain | tools/cmd/invirtio/devices.go:75-120 | so does an interrupted enable with the same arguments, which then has a plan |
| Plans.UninstallAgain | tools/cmd/invirtio/devices.go:291-339 | so does an interrupted uninstall, wherever it was cut and in whatever order it goes |
| Plans.DefaultNameIsName | tools/cmd/invirtio/config.go:129-135 | a default name is a valid name |
| Plans.DefaultNameExactly | tools/cmd/invirtio/config.go:129-135 | a default name is the type and the address, without a domain of zero, with dashes |
| Plans.DefaultNamesDiffer | tools/cmd/invirtio/config.go:129-135 | devices of one type with different addresses get different default names |

## Left out

- System calls, sysfs, systemd, Landlock, namespaces, cgroups and ptys: only their effect on the modelled state is there, and a failure is a result that can come at any time.
- What VDUSE, vDPA and the guest do inside: they are steps of the environment.
- A writer that takes part of a write: the filter and the logger write once and look at the error only.
- The value of clocks, but for the relay's deadline, which is a real number that does not go back.
- Console modes, terminalReset, the header with the terminal's size, and a client's input to the guest.
- ConsoleServer.Server.Offer: the connection that is closed with the channel has no state in the model.
- Supervisor.KeptExactlyIf: what sysfs answers is free at each step, so nothing is said of where the device is at the end; a signal before the launcher starts is not modelled.
- Descriptors.Launcher.RunGuest: a descriptor that a system call opens and closes within one function, such as a file that is read, is not in the table, and a launcher that dies leaves all to the kernel.
- Relay.RepliesAreFresh: of more than 64 packets that the guest sends unasked, the rest is read as part of the next reply, as in the source.
- Broker.ActsExactly: the request's words are little-endian, and the kernel's result is a parameter.
- DeviceArgs.Launcher.CheckDeviceArgs: which message is printed when several reasons apply.
- DeviceArgs.Launcher.KernelSees: without an export the launcher lets spaces and quotes pass, so nothing is said of the words then; what the kernel does with a parameter's value is not modelled.
- CpuMask.SetBit: slices are values, so that a mask shared by two names is not modelled; PlaceIRQs only reads the shared one.
- CpuMask.ParseMask: of the bytes that strings.TrimSpace removes, only the ASCII ones.
- CpuMask.ParseCPUList: the counter of a range does not wrap around at the largest integer.
- Mconsole.Request: of the bytes that bytes.TrimSpace removes, only the ASCII ones.
- ShellQuote.ShowCmd: reserved words, assignments in front of a command, and the here-documents and redirections that some actions show.
- Plans.RecordsAgree: one command runs at a time, a file is replaced at once, and a command that is cut while it removes a directory is not modelled.
- Plans.DisableAgain: nothing else changes the host between the actions, and an action that fails has no effect.
- The test suites of `invirtio-test`, benchmarks, list and status printing, flags, sizes, module aliases and shell scripts are not modelled.
