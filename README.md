# PressOKButton, modelled in Dafny

PressOKButton watches the top-level windows of one process. When one of them
shows a given message text, it presses Enter on the window's "OK" button. The
program runs as a single instance, and a second instance started with
`--SHUTDOWN` stops the first one over a named pipe.

This project models the core of the program:

- **Windows** (`Windows.dfy`): the `Window` record and the list lookups the
  program uses: `List.Find`, `Where` and `RemoveAll`.
- **Diff** (`Diff.dfy`): what one watchdog tick means on lists of windows.
  The windows new since the last tick are enriched with their children
  (`Window.GetChildWindows`). The retained windows no longer in the snapshot
  are the closed ones.
- **Watchdog** (`Watchdog.dfy`): the class `WindowWatchdog`. Its fields are
  the retained list (`m_openWindows`), the `m_continue` flag and the log of
  raised `WindowOpened` / `WindowClosed` events. `CheckNewWindows` and
  `CheckClosedWindows` are proved against the functions in Diff. The
  `WatchExe` loop is proved against `Run`, the fold of `Tick` over the
  snapshots, whose properties are lemmas in the same module. `Stop` states
  that it clears the flag.
- **Utf16** (`Utf16.dfy`): `UnicodeEncoding`, the UTF-16 little-endian text
  encoding of the shutdown channel. It follows sections 2.1 and 2.2 of
  RFC 2781 and proves the round trip in both directions.
- **Frame** (`Frame.dfy`): the channel's framing. A two-byte big-endian length
  is capped at 65535 and followed by the payload. The framing is written and
  read on an in-memory `ByteStream` class.
- **PressOKButton** (`Program.dfy`): the rest of `Program`:
  - the argument scan of `Main`;
  - the startup decision between usage, refusing, sending the shutdown
    request and starting a watchdog;
  - the listener thread;
  - `ShutdownOtherInstance`;
  - the `Wd_WindowOpened` handler that presses OK.

Behaviour of the code that the model keeps as written:

- The value after `--PROC` or `--MESSAGE` is scanned as a flag too, so
  `--proc --shutdown` names the process "--shutdown" and also requests
  shutdown.
- A final `--PROC` or `--MESSAGE` without a value faults (`ArgumentFault`).
- The listener zero-fills a payload shorter than its announced length. As a
  result, the shutdown frame is still honoured with its last byte missing.
- The length is negative, and the buffer allocation faults, only when the
  stream is empty or holds a single zero byte. The fault is on the listener
  thread and ends the process. `Listen` reports it as `faulted`. A single
  non-zero byte `b` announces `256 * b - 1` bytes, which are read as zeros
  (`ReadFrameFaults`).
- `--SHUTDOWN` with no instance running and no `--PROC` leaves the process
  name empty. `new FileInfo("")` then faults before any watchdog is made
  (`EmptyPathFault`).
- When the matching window has no child titled "OK", the handler faults
  (`NoOkButton`).

The usage text (Program.cs:136-137) describes `--SHUTDOWN` as shutting down
a running instance. The code takes that path only when another instance
holds the mutex (Program.cs:87-101). Without one, a `--SHUTDOWN` launch
passes the argument check and goes on to watch the process given with
`--PROC`, even when `--MESSAGE` is missing. In that case the message is
empty and no dialog is ever dismissed (`DecideSpec`, `DecideExamples`,
`OnWindowOpened`).

The environment becomes parameters:

- the process's window list at each tick is the `snapshots` sequence;
- the OS child-window tree is a function `childTree` from a handle to its
  children;
- the mutex is the boolean `instanceAlive`;
- each end of the pipe is a `ByteStream`;
- the moments `Stop` is called are the `stopDuring` schedule;
- `PostMessage` calls are returned as `Post` values.

## Model

| member | source | states |
|---|---|---|
| Windows.Find | PressOKButton/WindowWatchdog.cs:125 | `List.Find`: no element matches iff the result is none; otherwise the result is the first matching element |
| Windows.FindByHandle | PressOKButton/WindowWatchdog.cs:125 | the lookup by handle misses exactly when no retained window carries that handle |
| Windows.Filter | PressOKButton/WindowWatchdog.cs:146-149 | `Where(...).ToList()` and the survivors of `RemoveAll`: the elements that pass the test, in their original order (properties in `Diff.PartitionSpec`) |
| Diff.Enrich | PressOKButton/Window.cs:43-52 | `GetChildWindows` keeps handle and text and only appends the OS child tree to the children |
| Diff.EnrichAll | PressOKButton/WindowWatchdog.cs:128 | `GetChildWindows` on each added window; keeps length and handles position by position |
| Diff.FirstSeen | PressOKButton/WindowWatchdog.cs:122-131 | the windows the loop appends, before enrichment (properties in the `FirstSeen*` lemmas) |
| Diff.Retained | PressOKButton/WindowWatchdog.cs:149 | the windows still in the snapshot (properties in `Diff.PartitionSpec`, `Diff.PartitionHandles`) |
| Diff.Departed | PressOKButton/WindowWatchdog.cs:146 | `closedWindows`, the windows no longer in the snapshot (properties in `Diff.PartitionSpec`, `Diff.PartitionHandles`) |
| Diff.RemoveClosed | PressOKButton/WindowWatchdog.cs:149 | `RemoveAll` by the handles of `closedWindows` (equal to `Retained` by `Diff.RemoveClosedIsRetained`) |
| Diff.EnrichAllHandles | PressOKButton/Window.cs:43-52 | enriching a list of windows leaves its set of handles unchanged |
| Diff.FirstSeenHandles | PressOKButton/WindowWatchdog.cs:116-134 | the windows reported new carry exactly the snapshot's handles that the retained list lacks |
| Diff.FirstSeenDistinct | PressOKButton/WindowWatchdog.cs:122-129 | a handle repeated in the snapshot is added once, so the retained list keeps distinct handles |
| Diff.FirstSeenOrder | PressOKButton/WindowWatchdog.cs:122-131 | new windows are added in snapshot order, and each is the first window of the snapshot with its handle |
| Diff.FirstSeenEmpty | PressOKButton/WindowWatchdog.cs:122-131 | nothing is added iff every handle of the snapshot is already retained |
| Diff.PartitionSpec | PressOKButton/WindowWatchdog.cs:146-149 | `closedWindows` is exactly the retained windows absent from the snapshot, and the survivors are exactly the others, both in order |
| Diff.PartitionCounts | PressOKButton/WindowWatchdog.cs:146-149 | every retained window is either closed or kept, never both |
| Diff.PartitionHandles | PressOKButton/WindowWatchdog.cs:146-149 | handles kept = retained ∩ snapshot; handles closed = retained − snapshot |
| Diff.RetainedDistinct | PressOKButton/WindowWatchdog.cs:149 | removing windows keeps the handles distinct |
| Diff.RemoveClosedIsRetained | PressOKButton/WindowWatchdog.cs:146-149 | removing every window that shares a handle with a closed window leaves exactly the windows still in the snapshot |
| Diff.SnapshotOrderIrrelevant | PressOKButton/WindowWatchdog.cs:116-155 | the order of the snapshot, and repetitions in it, change neither the new handles nor which windows close or stay |
| Watchdog.Tick | PressOKButton/WindowWatchdog.cs:85-87 | one pass of the loop body on the list and the event log (properties in the `Tick*` lemmas) |
| Watchdog.Run | PressOKButton/WindowWatchdog.cs:83-89 | successive ticks over the snapshots (properties in `Watchdog.RunState`) |
| Watchdog.StopTick | PressOKButton/WindowWatchdog.cs:83 | the loop stops after the first tick during which `Stop` was called |
| Watchdog.EventHandles | PressOKButton/WindowWatchdog.cs:130 | the opened events carry the added windows' handles; the closed events carry the departed windows' handles |
| Watchdog.LogHandlesEmpty | PressOKButton/WindowWatchdog.cs:130 | an event log is empty iff it names no handle |
| Watchdog.DistinctEnriched | PressOKButton/WindowWatchdog.cs:128-129 | enriching the added windows keeps the retained list's handles distinct |
| Watchdog.TickState | PressOKButton/WindowWatchdog.cs:83-89 | after one tick the retained list holds exactly the snapshot's handles, with no duplicates, in order, and the event log only grows |
| Watchdog.TickEvents | PressOKButton/WindowWatchdog.cs:85-87 | one tick reports as opened exactly the new handles and as closed exactly the vanished ones, and no handle is both |
| Watchdog.TickEventOrder | PressOKButton/WindowWatchdog.cs:85-87 | within a tick every opened event precedes every closed one, and a closed window was retained before the tick |
| Watchdog.TickQuiet | PressOKButton/WindowWatchdog.cs:85-87 | a tick raises no event iff the snapshot's handles equal the retained ones |
| Watchdog.RunState | PressOKButton/WindowWatchdog.cs:81-90 | over any run of ticks the handles stay distinct, the retained handles are the last snapshot's, and the log only grows |
| Watchdog.WindowWatchdog.constructor | PressOKButton/WindowWatchdog.cs:40-58 | a new watchdog has the given name, an empty list, no events and `m_continue` set |
| Watchdog.WindowWatchdog.CheckNewWindows | PressOKButton/WindowWatchdog.cs:116-134 | appends the enriched first-seen windows and raises one opened event for each, in order, keeping the handles distinct |
| Watchdog.WindowWatchdog.CheckClosedWindows | PressOKButton/WindowWatchdog.cs:140-155 | the list becomes the windows still present, and one closed event is raised per departed window, in list order |
| Watchdog.WindowWatchdog.Stop | PressOKButton/WindowWatchdog.cs:168-171 | clears `m_continue` |
| Watchdog.WindowWatchdog.WatchExe | PressOKButton/WindowWatchdog.cs:81-90 | the list and log equal `Run` over the ticks up to stopping; the loop runs the ticks up to and including the one during which `Stop` lands, and then exits; it does nothing when already stopped |
| Utf16.CharUnits | PressOKButton/Program.cs:184 | a character below U+10000 is one non-surrogate unit, any other is a high surrogate followed by a low surrogate |
| Utf16.Encode | PressOKButton/Program.cs:184 | `GetBytes`: the code units of the text, each low byte first (round trips in `Utf16.DecodeEncode`, `Utf16.EncodeDecode`) |
| Utf16.Decode | PressOKButton/Program.cs:161 | `GetString` on well-formed input; none on malformed input (round trips in `Utf16.DecodeEncode`, `Utf16.EncodeDecode`) |
| Utf16.UnitsRoundTrip | PressOKButton/Program.cs:184 | decoding the code units of a text gives the text back |
| Utf16.UnitsCanonical | PressOKButton/Program.cs:161 | code units that decode to a text are exactly that text's units |
| Utf16.BytesRoundTrip | PressOKButton/Program.cs:184 | little-endian bytes of code units read back as those units |
| Utf16.BytesCanonical | PressOKButton/Program.cs:161 | bytes that read as code units are exactly those units' bytes |
| Utf16.DecodeEncode | PressOKButton/Program.cs:161 | `GetString(GetBytes(s)) == s` |
| Utf16.EncodeDecode | PressOKButton/Program.cs:161 | bytes that decode to `s` are exactly `GetBytes(s)` |
| Utf16.EncodeLength | PressOKButton/Program.cs:184-185 | text below U+10000 takes two bytes per character |
| Utf16.ShutdownEncoding | PressOKButton/Program.cs:184 | "SHUTDOWN" encodes to its 16 little-endian bytes |
| Frame.FrameLength | PressOKButton/Program.cs:185-189 | the announced length is the payload length, capped at 65535 |
| Frame.EncodeFrame | PressOKButton/Program.cs:185-194 | the bytes written: capped length, high byte then low byte, then that many payload bytes (properties in `Frame.FrameLayout`, `Frame.FrameRoundTrip`) |
| Frame.ReadFrame | PressOKButton/Program.cs:155-158 | the payload read has the length given by the first two bytes |
| Frame.ReadFrameFaults | PressOKButton/Program.cs:155-157 | the length is negative, so the allocation faults, exactly when the stream is empty or a single zero byte; a single non-zero byte b gives 256·b − 1 zero bytes |
| Frame.FrameLayout | PressOKButton/Program.cs:185-194 | the header carries the capped length big-endian, followed by exactly that many leading payload bytes; a payload over 65535 bytes gets header FF FF |
| Frame.FrameRoundTrip | PressOKButton/Program.cs:155-158 | the listener recovers the sender's (capped) payload, whatever follows on the stream |
| Frame.ShortFrameZeroFilled | PressOKButton/Program.cs:157-158 | a stream with fewer bytes than announced reads as if padded with zeros |
| Frame.ByteStream.WriteByte | PressOKButton/Program.cs:192-193 | appends one byte |
| Frame.ByteStream.Write | PressOKButton/Program.cs:194 | appends `count` bytes from `offset` |
| Frame.ByteStream.ReadByte | PressOKButton/Program.cs:155-156 | returns the next byte and advances, or -1 at the end |
| Frame.ByteStream.Read | PressOKButton/Program.cs:158 | copies as many of the requested bytes as remain into the buffer at `offset`, leaving the rest of the buffer alone |
| Frame.SendFrame | PressOKButton/Program.cs:185-194 | writes exactly the frame of the buffer |
| Frame.ReceiveFrame | PressOKButton/Program.cs:154-158 | reads exactly the frame `ReadFrame` describes |
| PressOKButton.UpperMatchesFlag | PressOKButton/Program.cs:64-69 | an argument upper-cases to a flag iff it spells the flag letter by letter, each ASCII letter in either case |
| PressOKButton.ScanStep | PressOKButton/Program.cs:64-72 | one pass of the scan loop: a flag at the last position faults; otherwise `--PROC`/`--MESSAGE` take the next argument and `--SHUTDOWN` sets the flag |
| PressOKButton.ScanPrefix | PressOKButton/Program.cs:62-73 | the scan after its first `i` passes, stopping at a fault |
| PressOKButton.ScanArgs | PressOKButton/Program.cs:62-73 | the whole scan (properties in `PressOKButton.ScanFault`, `PressOKButton.ScanResult`) |
| PressOKButton.ScanPrefixSpec | PressOKButton/Program.cs:62-73 | after each pass: the scan faults only at a final `--PROC`/`--MESSAGE`; the shutdown flag is set iff `--SHUTDOWN` occurred; the name and message follow the last occurrence of their flag, or are empty |
| PressOKButton.ValueStep | PressOKButton/Program.cs:65-68 | one pass sets a value exactly when its flag is at that position |
| PressOKButton.ScanFault | PressOKButton/Program.cs:62-68 | `args[i + 1]` faults iff the last argument is `--PROC` or `--MESSAGE`, at that index |
| PressOKButton.ScanResult | PressOKButton/Program.cs:62-73 | flags match in any case; the last `--PROC`/`--MESSAGE` wins; the shutdown flag is set iff some argument is `--SHUTDOWN` |
| PressOKButton.ValueScannedAsFlag | PressOKButton/Program.cs:62-73 | the value after `--PROC` is examined as a flag as well |
| PressOKButton.Decide | PressOKButton/Program.cs:50-112 | usage iff there are no arguments; watching only with a non-empty name and no other instance; shutdown sent only when another instance is alive |
| PressOKButton.DecideSpec | PressOKButton/Program.cs:76-109 | shutdown is sent iff an instance is alive and `--SHUTDOWN` was given with no fault; refusal iff alive, accepted and no `--SHUTDOWN`; watching iff no instance is alive, the arguments are accepted and the name is non-empty, with the scanned name and message; the `FileInfo` fault iff no instance is alive, `--SHUTDOWN` was given and the name is empty |
| PressOKButton.DecideRejects | PressOKButton/Program.cs:50-83 | no arguments gives usage; missing name or message without `--SHUTDOWN` is rejected whatever the mutex says |
| PressOKButton.DecideExamples | PressOKButton/Program.cs:50-112 | worked launches: flags in any case; a lone `--SHUTDOWN` with no instance faults at `new FileInfo("")`; `--SHUTDOWN --PROC app` watches with an empty message |
| PressOKButton.ShutdownFrameBytes | PressOKButton/Program.cs:184-194 | the shutdown frame is `00 10` and the 16 bytes of "SHUTDOWN" |
| PressOKButton.ShutdownRequested | PressOKButton/Program.cs:155-162 | the listener's test: the frame read decodes to "SHUTDOWN" (characterised in `PressOKButton.ShutdownRequestedIff`) |
| PressOKButton.ShutdownRequestedIff | PressOKButton/Program.cs:155-165 | the listener stops the watchdog iff the payload read is byte for byte the encoding of "SHUTDOWN" |
| PressOKButton.ShutdownFrameHonoured | PressOKButton/Program.cs:155-165 | the frame `ShutdownOtherInstance` writes is honoured; a frame with any other payload is not |
| PressOKButton.TruncatedShutdownHonoured | PressOKButton/Program.cs:155-162 | the shutdown frame missing its last byte is still honoured, because of the zero-filled buffer |
| PressOKButton.OnWindowOpened | PressOKButton/Program.cs:222-225 | an empty message never matches; a press is key down then key up on one window (full contract in `PressOKButton.DismissSpec`) |
| PressOKButton.DismissSpec | PressOKButton/Program.cs:222-225 | the handler acts iff some child shows the non-empty message; then it presses Enter (key down, then key up, lParam 1) on the first child titled "OK", and faults when there is none |
| PressOKButton.DialogScenario | PressOKButton/Program.cs:213-228 | a dialog with children "oops" and "OK" appears: one tick raises a single opened event carrying both children, and the handler presses Enter on the OK child |
| PressOKButton.Program.constructor | PressOKButton/Program.cs:32-36 | name and message start empty, with no watchdog |
| PressOKButton.Program.ReadArguments | PressOKButton/Program.cs:61-73 | the scan loop's result and the fields it sets are those of the scan specification |
| PressOKButton.Program.ShutdownOtherInstance | PressOKButton/Program.cs:176-195 | writes exactly the shutdown frame on the client stream |
| PressOKButton.Program.Startup | PressOKButton/Program.cs:46-115 | follows the startup decision; writes the shutdown frame only on the shutdown path; creates a fresh, running, empty watchdog only on the watching path, never for an empty name |
| PressOKButton.Program.Listen | PressOKButton/Program.cs:149-167 | reads one frame and clears the watchdog's flag iff the frame requests shutdown; reports the allocation fault iff the header gives a negative length |

## Left out

- Threads, `Thread.Sleep(100)`, `lock`, `volatile`, the mutex object and
  `WaitForExit`. Ticks are sequential, a `Stop` call takes effect between
  ticks, and the listener is a method called on its own.
- `GetCurrentWindows`, `EnumerateProcessWindowHandles`, `Process` lookups,
  `EnumChildWindows`, `GetWindowText` with its 256-character cap, and
  `PostMessage` are OS calls. They become the `snapshots` and `childTree`
  parameters and the returned `Post` values. UnsafeNativeMethods.cs is not
  part of this model.
- The pipe transport (`NamedPipeServerStream` / `NamedPipeClientStream`,
  connecting, waiting) is left out. Each end is an in-memory `ByteStream`.
- Console output, `DisplayArguments` and `Console.ReadKey` are left out.
- PressOKButton.Program.Startup: removing the file extension from the process
  name is left out, because it depends on `FileInfo.Extension`'s path rules.
  Of the `FileInfo` constructor's faults only the empty name is modelled.
  Invalid path characters are not. Note that `Replace` there
  removes every occurrence of the extension text, not only the final one.
  `Startup` passes the scanned name through unchanged.
- `Wd_WindowClosed` only writes to the console.
- PressOKButton.UpperChar: `ToUpper` is modelled on ASCII letters only. The
  culture-sensitive mappings (for example U+017F to 'S') are not modelled.
- Utf16.Decode: malformed UTF-16 (an odd byte count or an unpaired surrogate)
  is `None`. .NET substitutes U+FFFD instead. The comparison with "SHUTDOWN"
  fails either way.
- Frame.ByteStream.Read: a pipe may return fewer bytes than are available.
  The model copies everything that remains.
- Watchdog.WindowWatchdog.WatchExe: the source loops until stopped. The model
  takes the schedule of `Stop` calls and requires one to arrive, so the loop
  ends.
- PressOKButton.Program.Listen: the allocation fault is returned as
  `faulted`, but the end of the process that follows it is not modelled.
  It also requires that the watchdog exists. In the
  source the listener thread starts before `m_watchDog` is assigned, and a
  request arriving in between would dereference null.
- A `NoOkButton`, `ArgumentFault` or `EmptyPathFault` outcome stands for the exception the
  source throws. What the runtime does after that is left out.
