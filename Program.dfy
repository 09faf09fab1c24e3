/** The program around the watchdog: the command-line scan, the startup
    decision between refusing, asking a running instance to shut down and
    watching; the shutdown request sent and heard over the channel; and the
    reaction to an opened window, which presses the dialog's OK button. The
    machine-wide mutex is reduced to whether another instance holds it, the
    named pipe to a `ByteStream`, and `PostMessage` to the messages it would
    post. */
module PressOKButton {
  import opened Wrappers
  import opened Windows
  import opened Diff
  import opened Watchdog
  import opened Utf16
  import opened Frame

  const WM_KEYDOWN: int := 0x0100
  const WM_KEYUP: int := 0x0101
  const VK_RETURN: int := 0x0D

  const ShutdownMessage: string := "SHUTDOWN"

  // ---------------------------------------------------------------------
  // Command line

  /** `string.ToUpper` restricted to the ASCII letters. */
  function UpperChar(c: char): char
  {
    if 'a' <= c <= 'z' then (c as int - 32) as char else c
  }

  function Upper(s: string): string
  {
    seq(|s|, i requires 0 <= i < |s| => UpperChar(s[i]))
  }

  /** `c` is `f`, or the lower-case form of the ASCII capital `f`. */
  predicate SameIgnoringCase(c: char, f: char)
  {
    c == f || ('A' <= f <= 'Z' && c as int == f as int + 32)
  }

  /** Flags match in any letter case: an argument upper-cases to a flag
      written without lower-case letters exactly when it spells that flag
      letter by letter, each ASCII letter in either case. */
  lemma UpperMatchesFlag(s: string, flag: string)
    requires forall i | 0 <= i < |flag| :: !('a' <= flag[i] <= 'z')
    ensures Upper(s) == flag <==> |s| == |flag| && forall i | 0 <= i < |s| :: SameIgnoringCase(s[i], flag[i])
  {
    if |s| == |flag| && forall i | 0 <= i < |s| :: SameIgnoringCase(s[i], flag[i]) {
      forall i | 0 <= i < |s| ensures Upper(s)[i] == flag[i] {
        assert SameIgnoringCase(s[i], flag[i]);
      }
    }
    if Upper(s) == flag {
      forall i | 0 <= i < |s| ensures SameIgnoringCase(s[i], flag[i]) {
        assert UpperChar(s[i]) == flag[i];
      }
    }
  }

  /** The flags that read the argument after them. */
  predicate TakesValue(arg: string)
  {
    Upper(arg) == "--PROC" || Upper(arg) == "--MESSAGE"
  }

  datatype Arguments = Arguments(processName: string, messageText: string, shutdown: bool)

  /** The scan either completes or faults reading `args[index + 1]`. */
  datatype Scan = Scanned(arguments: Arguments) | MissingValue(index: nat)

  /** One pass of the scan loop at position `i`. The value after a flag is
      not skipped: it is examined as a flag itself at `i + 1`. */
  function ScanStep(a: Arguments, args: seq<string>, i: nat): Scan
    requires i < |args|
  {
    var upper := Upper(args[i]);
    if TakesValue(args[i]) && i + 1 == |args| then MissingValue(i)
    else
      var a1 := if upper == "--PROC" then a.(processName := args[i + 1]) else a;
      var a2 := if upper == "--MESSAGE" then a1.(messageText := args[i + 1]) else a1;
      Scanned(if upper == "--SHUTDOWN" then a2.(shutdown := true) else a2)
  }

  /** The scan after its first `i` passes, from empty name and message and
      no shutdown flag. */
  function ScanPrefix(args: seq<string>, i: nat): Scan
    requires i <= |args|
  {
    if i == 0 then Scanned(Arguments("", "", false))
    else
      match ScanPrefix(args, i - 1)
      case MissingValue(k) => MissingValue(k)
      case Scanned(a) => ScanStep(a, args, i - 1)
  }

  function ScanArgs(args: seq<string>): Scan
  {
    ScanPrefix(args, |args|)
  }

  /** Some argument before position `i` is `flag`, in any letter case. */
  predicate FlagSeen(args: seq<string>, i: nat, flag: string)
    requires i <= |args|
  {
    exists j | 0 <= j < i :: Upper(args[j]) == flag
  }

  /** Position `j` holds the last `flag` before `i`, and a value follows it. */
  predicate LastFlagAt(args: seq<string>, i: nat, flag: string, j: nat)
    requires i <= |args|
  {
    j < i && j + 1 < |args| && Upper(args[j]) == flag && forall k | j < k < i :: Upper(args[k]) != flag
  }

  /** `v` is what `flag` sets after `i` passes: empty when the flag has not
      occurred, else the argument after its last occurrence. */
  predicate ValueOf(args: seq<string>, i: nat, flag: string, v: string)
    requires i <= |args|
  {
    (!FlagSeen(args, i, flag) ==> v == "") &&
    forall j: nat | j < i && LastFlagAt(args, i, flag, j) :: v == args[j + 1]
  }

  /** `a` is what the arguments before `i` ask for. */
  predicate Describes(args: seq<string>, i: nat, a: Arguments)
    requires i <= |args|
  {
    && (a.shutdown <==> FlagSeen(args, i, "--SHUTDOWN"))
    && ValueOf(args, i, "--PROC", a.processName)
    && ValueOf(args, i, "--MESSAGE", a.messageText)
  }

  /** What the scan knows after `i` passes: it faults only at the last
      argument, when that one is `--PROC` or `--MESSAGE`; otherwise the
      shutdown flag is set exactly when some argument so far is
      `--SHUTDOWN`, and name and message are the arguments after the last
      `--PROC` and `--MESSAGE` so far, or empty when there is none. */
  lemma {:induction false} ScanPrefixSpec(args: seq<string>, i: nat)
    requires i <= |args|
    ensures ScanPrefix(args, i).MissingValue? <==> i == |args| > 0 && TakesValue(args[i - 1])
    ensures ScanPrefix(args, i).MissingValue? ==> ScanPrefix(args, i).index == |args| - 1
    ensures ScanPrefix(args, i).Scanned? ==> Describes(args, i, ScanPrefix(args, i).arguments)
  {
    if i > 0 {
      ScanPrefixSpec(args, i - 1);
      var r := ScanPrefix(args, i);
      if r.Scanned? {
        var a := r.arguments;
        var u := Upper(args[i - 1]);
        assert FlagSeen(args, i, "--SHUTDOWN") <==> FlagSeen(args, i - 1, "--SHUTDOWN") || u == "--SHUTDOWN";
        ValueStep(args, i, "--PROC", ScanPrefix(args, i - 1).arguments.processName, a.processName);
        ValueStep(args, i, "--MESSAGE", ScanPrefix(args, i - 1).arguments.messageText, a.messageText);
      }
    }
  }

  /** One pass keeps `ValueOf`: the flag at `i - 1` sets the value to the
      next argument; any other argument leaves it. */
  lemma ValueStep(args: seq<string>, i: nat, flag: string, before: string, after: string)
    requires 0 < i <= |args|
    requires ValueOf(args, i - 1, flag, before)
    requires Upper(args[i - 1]) == flag ==> i < |args| && after == args[i]
    requires Upper(args[i - 1]) != flag ==> after == before
    ensures ValueOf(args, i, flag, after)
  {
    if Upper(args[i - 1]) == flag {
      assert FlagSeen(args, i, flag);
      forall j: nat | j < i && LastFlagAt(args, i, flag, j) ensures after == args[j + 1] {
      }
    } else {
      if FlagSeen(args, i, flag) {
        var j :| 0 <= j < i && Upper(args[j]) == flag;
        assert FlagSeen(args, i - 1, flag);
      }
      forall j: nat | j < i && LastFlagAt(args, i, flag, j) ensures after == args[j + 1] {
        assert LastFlagAt(args, i - 1, flag, j);
      }
    }
  }

  /** The scan faults exactly when the last argument is `--PROC` or
      `--MESSAGE` (it indexes the argument after it). */
  lemma ScanFault(args: seq<string>)
    ensures ScanArgs(args).MissingValue? <==> |args| > 0 && TakesValue(args[|args| - 1])
    ensures ScanArgs(args).MissingValue? ==> ScanArgs(args).index == |args| - 1
  {
    ScanPrefixSpec(args, |args|);
  }

  /** A completed scan: the shutdown flag says whether `--SHUTDOWN` occurs in
      any letter case; name and message come from the last `--PROC` and
      `--MESSAGE`, later occurrences overriding earlier ones, and are empty
      when the flag is absent. */
  lemma ScanResult(args: seq<string>)
    requires ScanArgs(args).Scanned?
    ensures Describes(args, |args|, ScanArgs(args).arguments)
  {
    ScanPrefixSpec(args, |args|);
  }

  /** The value after a flag is scanned as a flag too: `--PROC --SHUTDOWN`
      names the process "--SHUTDOWN" and also sets the shutdown flag. */
  lemma ValueScannedAsFlag()
    ensures ScanArgs(["--proc", "--shutdown"]) == Scanned(Arguments("--shutdown", "", true))
  {
    var args := ["--proc", "--shutdown"];
    assert Upper(args[0]) == "--PROC";
    assert Upper(args[1]) == "--SHUTDOWN";
    assert ScanPrefix(args, 1) == Scanned(Arguments("--shutdown", "", false));
  }

  // ---------------------------------------------------------------------
  // Startup decision

  datatype Outcome =
    | Usage                                            // no arguments at all
    | ArgumentFault(index: nat)                        // `args[index + 1]` out of range
    | ArgumentsIncorrect(arguments: Arguments)         // name or message missing, no --SHUTDOWN
    | AlreadyRunning                                   // refused: another instance holds the mutex
    | ShutdownSent                                     // asked the running instance to stop
    | EmptyPathFault                                   // `new FileInfo("")` throws before the watchdog starts
    | Watching(processName: string, messageText: string)

  /** The arguments are acceptable: name and message given, or shutdown
      requested. */
  predicate Accepted(a: Arguments)
  {
    (a.processName != "" && a.messageText != "") || a.shutdown
  }

  /** `Main`'s path, given the arguments and whether another instance holds
      the mutex. */
  function Decide(args: seq<string>, instanceAlive: bool): (r: Outcome)
    ensures r == Usage <==> |args| == 0
    ensures r.Watching? ==> r.processName != "" && !instanceAlive
    ensures r == ShutdownSent ==> instanceAlive
  {
    if |args| == 0 then Usage
    else
      match ScanArgs(args)
      case MissingValue(i) => ArgumentFault(i)
      case Scanned(a) =>
        if !Accepted(a) then ArgumentsIncorrect(a)
        else if instanceAlive && !a.shutdown then AlreadyRunning
        else if instanceAlive && a.shutdown then ShutdownSent
        else if a.processName == "" then EmptyPathFault
        else Watching(a.processName, a.messageText)
  }

  /** Once the arguments are accepted, the three-way decision: a running
      instance and no `--SHUTDOWN` refuses; a running instance and
      `--SHUTDOWN` sends the request; no running instance starts watching,
      whether or not `--SHUTDOWN` was given, unless the process name is
      empty (possible only with `--SHUTDOWN`), which faults building the
      `FileInfo`. Nothing else reaches these outcomes. */
  lemma DecideSpec(args: seq<string>, instanceAlive: bool)
    ensures Decide(args, instanceAlive) == ShutdownSent <==>
      instanceAlive && |args| > 0 && !TakesValue(args[|args| - 1]) && FlagSeen(args, |args|, "--SHUTDOWN")
    ensures Decide(args, instanceAlive) == AlreadyRunning <==>
      instanceAlive && ScanArgs(args).Scanned? && |args| > 0 && Accepted(ScanArgs(args).arguments) && !ScanArgs(args).arguments.shutdown
    ensures Decide(args, instanceAlive).Watching? <==>
      !instanceAlive && ScanArgs(args).Scanned? && |args| > 0 && Accepted(ScanArgs(args).arguments) && ScanArgs(args).arguments.processName != ""
    ensures Decide(args, instanceAlive) == EmptyPathFault <==>
      !instanceAlive && ScanArgs(args).Scanned? && |args| > 0 && ScanArgs(args).arguments.shutdown && ScanArgs(args).arguments.processName == ""
    ensures Decide(args, instanceAlive).Watching? ==>
      Decide(args, instanceAlive).processName == ScanArgs(args).arguments.processName &&
      Decide(args, instanceAlive).messageText == ScanArgs(args).arguments.messageText
  {
    ScanFault(args);
    if ScanArgs(args).Scanned? {
      ScanResult(args);
    }
  }

  /** Without arguments, or with a name or message missing and no
      `--SHUTDOWN`, usage is shown and nothing starts, whatever the mutex
      says. */
  lemma DecideRejects(args: seq<string>, instanceAlive: bool)
    ensures |args| == 0 ==> Decide(args, instanceAlive) == Usage
    ensures Decide(args, instanceAlive).ArgumentsIncorrect? <==>
      |args| > 0 && ScanArgs(args).Scanned? && !Accepted(ScanArgs(args).arguments)
    ensures Decide(args, instanceAlive).ArgumentsIncorrect? ==> Decide(args, !instanceAlive) == Decide(args, instanceAlive)
  {
  }

  /** Examples: flags in any letter case; a lone `--SHUTDOWN` with no
      instance running faults on the empty process name; with a name it
      starts a watchdog whose message is empty, so nothing is ever pressed. */
  lemma DecideExamples()
    ensures Decide(["--proc", "app", "--Message", "oops"], false) == Watching("app", "oops")
    ensures Decide(["--SHUTDOWN"], false) == EmptyPathFault
    ensures Decide(["--SHUTDOWN", "--PROC", "app"], false) == Watching("app", "")
    ensures Decide(["--SHUTDOWN"], true) == ShutdownSent
    ensures Decide(["--PROC", "app"], false) == ArgumentsIncorrect(Arguments("app", "", false))
    ensures Decide(["--MESSAGE", "oops", "--PROC"], true) == ArgumentFault(2)
  {
    var a1 := ["--proc", "app", "--Message", "oops"];
    assert Upper(a1[0]) == "--PROC" && Upper(a1[2]) == "--MESSAGE";
    assert Upper(a1[1]) == "APP" && Upper(a1[3]) == "OOPS";
    assert ScanPrefix(a1, 1) == Scanned(Arguments("app", "", false));
    assert ScanPrefix(a1, 2) == Scanned(Arguments("app", "", false));
    assert ScanPrefix(a1, 3) == Scanned(Arguments("app", "oops", false));
    var a2 := ["--SHUTDOWN"];
    assert Upper(a2[0]) == "--SHUTDOWN";
    var a5 := ["--SHUTDOWN", "--PROC", "app"];
    assert Upper(a5[0]) == "--SHUTDOWN" && Upper(a5[1]) == "--PROC" && Upper(a5[2]) == "APP";
    assert ScanPrefix(a5, 2) == Scanned(Arguments("app", "", true));
    var a3 := ["--PROC", "app"];
    assert Upper(a3[0]) == "--PROC" && Upper(a3[1]) == "APP";
    var a4 := ["--MESSAGE", "oops", "--PROC"];
    assert Upper(a4[0]) == "--MESSAGE" && Upper(a4[1]) == "OOPS" && Upper(a4[2]) == "--PROC";
  }

  // ---------------------------------------------------------------------
  // Shutdown channel

  /** The frame the second instance writes. */
  function ShutdownFrame(): seq<Byte>
  {
    EncodeFrame(Encode(ShutdownMessage))
  }

  /** The listener stops the watchdog: the frame it reads decodes to
      "SHUTDOWN". */
  predicate ShutdownRequested(stream: seq<Byte>)
  {
    match ReadFrame(stream)
    case None => false
    case Some(payload) => Decode(payload) == Some(ShutdownMessage)
  }

  /** The shutdown frame is the header `[0, 16]` and the 16 bytes of
      "SHUTDOWN". */
  lemma ShutdownFrameBytes()
    ensures ShutdownFrame() == [0, 16] + Encode(ShutdownMessage)
    ensures |ShutdownFrame()| == 18
  {
    ShutdownEncoding();
  }

  /** The listener stops exactly when the payload it reads is byte for byte
      the encoding of "SHUTDOWN". */
  lemma ShutdownRequestedIff(stream: seq<Byte>)
    ensures ShutdownRequested(stream) <==> ReadFrame(stream) == Some(Encode(ShutdownMessage))
  {
    DecodeEncode(ShutdownMessage);
    if ReadFrame(stream).Some? && Decode(ReadFrame(stream).value) == Some(ShutdownMessage) {
      EncodeDecode(ReadFrame(stream).value, ShutdownMessage);
    }
  }

  /** The shutdown frame is honoured, whatever follows it; a frame carrying
      any other payload is not. */
  lemma ShutdownFrameHonoured(payload: seq<Byte>, rest: seq<Byte>)
    ensures ShutdownRequested(ShutdownFrame() + rest)
    ensures payload[..FrameLength(payload)] != Encode(ShutdownMessage) ==> !ShutdownRequested(EncodeFrame(payload) + rest)
  {
    FrameRoundTrip(Encode(ShutdownMessage), rest);
    FrameRoundTrip(payload, rest);
    ShutdownEncoding();
    assert Encode(ShutdownMessage)[..FrameLength(Encode(ShutdownMessage))] == Encode(ShutdownMessage);
    ShutdownRequestedIff(ShutdownFrame() + rest);
    ShutdownRequestedIff(EncodeFrame(payload) + rest);
  }

  /** The zero-filled buffer makes the listener accept the shutdown frame
      with its final (zero) byte missing. */
  lemma TruncatedShutdownHonoured()
    ensures ShutdownRequested(ShutdownFrame()[..17])
  {
    var e := Encode(ShutdownMessage);
    ShutdownEncoding();
    ShutdownFrameBytes();
    assert ShutdownFrame()[..17] == [0, 16] + e[..15];
    ShortFrameZeroFilled(16, e[..15]);
    assert e[..15] + Zeros(1) == e;
    ShutdownRequestedIff(ShutdownFrame()[..17]);
  }

  // ---------------------------------------------------------------------
  // Dismissing the dialog

  /** A `PostMessage` call. */
  datatype Post = Post(hwnd: int, msg: int, wParam: int, lParam: int)

  /** What `Wd_WindowOpened` does with an opened window. */
  datatype Dismissal =
    | NoMatch                   // no child shows the message
    | Pressed(posts: seq<Post>) // Enter pressed on the OK child
    | NoOkButton                // `Find` returned null and `.Hwnd` faults

  function OnWindowOpened(w: Window, messageText: string): (r: Dismissal)
    ensures messageText == "" ==> r == NoMatch
    ensures r.Pressed? ==>
      && |r.posts| == 2 && r.posts[0].hwnd == r.posts[1].hwnd
      && r.posts[0].msg == WM_KEYDOWN && r.posts[1].msg == WM_KEYUP
  {
    if Find(w.children, (cw: Window) => cw.text == messageText && cw.text != "").None? then NoMatch
    else
      match Find(w.children, (cw: Window) => cw.text == "OK")
      case None => NoOkButton
      case Some(ok) => Pressed([Post(ok.hwnd, WM_KEYDOWN, VK_RETURN, 1), Post(ok.hwnd, WM_KEYUP, VK_RETURN, 1)])
  }

  /** The handler acts only when some child's text is the (non-empty)
      message; it then presses Enter, key down before key up, on the first
      child titled "OK", and faults when there is none. */
  lemma DismissSpec(w: Window, messageText: string)
    ensures OnWindowOpened(w, messageText) != NoMatch <==>
      messageText != "" && exists i | 0 <= i < |w.children| :: w.children[i].text == messageText
    ensures OnWindowOpened(w, messageText) == NoOkButton <==>
      OnWindowOpened(w, messageText) != NoMatch && forall i | 0 <= i < |w.children| :: w.children[i].text != "OK"
    ensures OnWindowOpened(w, messageText).Pressed? ==>
      exists i | 0 <= i < |w.children| ::
        && w.children[i].text == "OK"
        && (forall j | 0 <= j < i :: w.children[j].text != "OK")
        && OnWindowOpened(w, messageText).posts ==
             [Post(w.children[i].hwnd, WM_KEYDOWN, VK_RETURN, 1), Post(w.children[i].hwnd, WM_KEYUP, VK_RETURN, 1)]
  {
    var r := Find(w.children, (cw: Window) => cw.text == messageText && cw.text != "");
    if r.None? {
      assert forall i | 0 <= i < |w.children| :: !(w.children[i].text == messageText && w.children[i].text != "");
    }
  }

  /** The OS's child tree in the scenario below: window 1 has a label
      "oops" and an "OK" button. */
  function DialogTree(h: int): seq<Window>
  {
    if h == 1 then [Window(2, "oops", []), Window(3, "OK", [])] else []
  }

  /** The dismissal scenario: a window whose children read "oops" and "OK"
      appears between two ticks; the tick reports it opened, once, with
      both children, and the handler presses Enter on the OK child. */
  lemma DialogScenario(open: seq<Window>)
    requires !HasHandle(open, 1)
    ensures var ev := Tick(State(open, []), open + [Window(1, "Error", [])], DialogTree).log;
      && ev == [Opened(Window(1, "Error", [Window(2, "oops", []), Window(3, "OK", [])]))]
      && OnWindowOpened(ev[0].window, "oops") == Pressed([Post(3, WM_KEYDOWN, VK_RETURN, 1), Post(3, WM_KEYUP, VK_RETURN, 1)])
  {
    var dialog := Window(1, "Error", []);
    var current := open + [dialog];
    assert current[..|current| - 1] == open;
    FirstSeenEmpty(open, open);
    assert FirstSeen(open, current) == [dialog];
    var added := EnrichAll([dialog], DialogTree);
    assert added[0] == Enrich(dialog, DialogTree);
    assert DialogTree(1) == [Window(2, "oops", []), Window(3, "OK", [])];
    assert dialog.children + DialogTree(1) == DialogTree(1);
    assert added == [Window(1, "Error", [Window(2, "oops", []), Window(3, "OK", [])])];
    var grown := open + added;
    PartitionHandles(grown, current);
    HandlesAppend(open, added);
    HandlesAppend(open, [dialog]);
    assert Handles(added) == Handles([dialog]) == {1};
    HandlesEmpty(Departed(grown, current));
    assert OpenedEvents(added) == [Opened(added[0])];
  }

  // ---------------------------------------------------------------------
  // The program's state

  class Program {
    /** `m_processName` */
    var processName: string
    /** `m_messageText` */
    var messageText: string
    /** `m_watchDog` */
    var watchdog: WindowWatchdog?

    constructor()
      ensures processName == "" && messageText == "" && watchdog == null
    {
      processName := "";
      messageText := "";
      watchdog := null;
    }

    /** The scan loop of `Main`: the fields take the values after the last
        `--PROC` / `--MESSAGE`, the shutdown flag is returned; it stops with
        the fault when the last argument wants a value. */
    method ReadArguments(args: seq<string>) returns (r: Scan)
      requires processName == "" && messageText == ""
      modifies this`processName, this`messageText
      ensures r == ScanArgs(args)
      ensures r.Scanned? ==> processName == r.arguments.processName && messageText == r.arguments.messageText
    {
      var shutdownFlag := false;
      var i := 0;
      while i < |args|
        invariant 0 <= i <= |args|
        invariant ScanPrefix(args, i) == Scanned(Arguments(processName, messageText, shutdownFlag))
      {
        var upper := Upper(args[i]);
        if upper == "--PROC" {
          if i + 1 == |args| {
            return MissingValue(i);
          }
          processName := args[i + 1];
        }
        if upper == "--MESSAGE" {
          if i + 1 == |args| {
            return MissingValue(i);
          }
          messageText := args[i + 1];
        }
        if upper == "--SHUTDOWN" {
          shutdownFlag := true;
        }
        i := i + 1;
      }
      r := Scanned(Arguments(processName, messageText, shutdownFlag));
    }

    /** Writes the shutdown frame on the client end of the channel. */
    method ShutdownOtherInstance(client: ByteStream)
      modifies client`data
      ensures client.data == old(client.data) + ShutdownFrame()
    {
      SendFrame(client, Encode(ShutdownMessage));
    }

    /** `Main` up to starting the watchdog: `instanceAlive` is the answer of
        the mutex, `client` the channel to a running instance. An empty
        process name faults in `new FileInfo` and no watchdog is made. */
    method Startup(args: seq<string>, instanceAlive: bool, client: ByteStream) returns (outcome: Outcome)
      requires processName == "" && messageText == "" && watchdog == null
      modifies this, client`data
      ensures outcome == Decide(args, instanceAlive)
      ensures client.data == old(client.data) + (if outcome == ShutdownSent then ShutdownFrame() else [])
      ensures outcome.Watching? <==> watchdog != null
      ensures outcome.Watching? ==>
        && fresh(watchdog) && watchdog.Valid()
        && processName == outcome.processName && messageText == outcome.messageText
        && watchdog.processName == outcome.processName
        && watchdog.running && watchdog.openWindows == [] && watchdog.notifications == []
    {
      if |args| == 0 {
        return Usage;
      }
      var scan := ReadArguments(args);
      if scan.MissingValue? {
        return ArgumentFault(scan.index);
      }
      var shutdownFlag := scan.arguments.shutdown;
      if (processName == "" || messageText == "") && !shutdownFlag {
        return ArgumentsIncorrect(scan.arguments);
      }
      if instanceAlive && !shutdownFlag {
        return AlreadyRunning;
      } else if instanceAlive && shutdownFlag {
        ShutdownOtherInstance(client);
        return ShutdownSent;
      }
      if processName == "" {
        return EmptyPathFault;
      }
      watchdog := new WindowWatchdog(processName);
      outcome := Watching(processName, messageText);
    }

    /** The listener thread: reads one frame from the server end of the
        channel and stops the watchdog when it carries "SHUTDOWN"; any other
        payload leaves the watchdog running. A negative length (an empty
        stream, or a single zero byte) faults allocating the buffer, which
        ends the whole process; `faulted` reports it. */
    method Listen(server: ByteStream) returns (faulted: bool)
      requires server.Valid() && watchdog != null
      modifies server`position, watchdog`running
      ensures faulted <==> ReadFrame(old(server.Unread())).None?
      ensures watchdog.running == (old(watchdog.running) && !ShutdownRequested(old(server.Unread())))
    {
      var frame := ReceiveFrame(server);
      faulted := frame.None?;
      if frame.Some? {
        var message := Decode(frame.value);
        if message == Some(ShutdownMessage) {
          watchdog.Stop();
        }
      }
    }
  }
}
