/**
 * The desktop client's hdc helpers: the `hdc shell uinput -T ...` touch
 * commands it builds from screen coordinates, the two fixed scroll gestures,
 * and the screenshot file name it reads out of `snapshot_display` output.
 * Running the commands (subprocess) is not modelled: each helper yields the
 * command text.  Coordinates are integers, printed as Python's str() does.
 */
module HdcCommunicator {
  import opened Wrappers
  import opened JavaText

  // ---------------------------------------------------------------------------
  // Touch commands

  /** send_down_command's command. */
  function DownCommand(x: int, y: int): string
  {
    "hdc shell uinput -T -d " + IntToString(x) + " " + IntToString(y)
  }

  /** send_up_command's command. */
  function UpCommand(x: int, y: int): string
  {
    "hdc shell uinput -T -u " + IntToString(x) + " " + IntToString(y)
  }

  /** send_move_command's command: a 200 ms move. */
  function MoveCommand(x1: int, y1: int, x2: int, y2: int): string
  {
    "hdc shell uinput -T -m " + IntToString(x1) + " " + IntToString(y1) + " " + IntToString(x2) + " " + IntToString(y2) + " 200"
  }

  /** send_touch_command's command: a click. */
  function TouchCommand(x: int, y: int): string
  {
    "hdc shell uinput -T -c " + IntToString(x) + " " + IntToString(y)
  }

  /** scroll_up: finger down at (300, 900), moved to (300, 600) over 300 ms, lifted, with 100 ms pauses around. */
  const ScrollUpCommands: seq<string> := [
    "hdc shell uinput -T -i 100",
    "hdc shell uinput -T -d 300 900",
    "hdc shell uinput -T -m 300 900 300 600 300",
    "hdc shell uinput -T -u 300 600",
    "hdc shell uinput -T -i 100"
  ]

  /** scroll_down: the same gesture from (300, 600) to (300, 900). */
  const ScrollDownCommands: seq<string> := [
    "hdc shell uinput -T -i 100",
    "hdc shell uinput -T -d 300 600",
    "hdc shell uinput -T -m 300 600 300 900 300",
    "hdc shell uinput -T -u 300 900",
    "hdc shell uinput -T -i 100"
  ]

  // ---------------------------------------------------------------------------
  // What a touch command means, and reading it back

  /** A touch event of the uinput tool: its -d, -u, -c, -m and -i forms. */
  datatype Touch =
    | Down(x: int, y: int)
    | Up(x: int, y: int)
    | Click(x: int, y: int)
    | Move(x1: int, y1: int, x2: int, y2: int, ms: int)
    | Interval(ms: int)

  const TouchPrefix: seq<string> := ["hdc", "shell", "uinput", "-T"]

  function Flag(t: Touch): string
  {
    match t
    case Down(_, _) => "-d"
    case Up(_, _) => "-u"
    case Click(_, _) => "-c"
    case Move(_, _, _, _, _) => "-m"
    case Interval(_) => "-i"
  }

  function Args(t: Touch): seq<int>
  {
    match t
    case Down(x, y) => [x, y]
    case Up(x, y) => [x, y]
    case Click(x, y) => [x, y]
    case Move(x1, y1, x2, y2, ms) => [x1, y1, x2, y2, ms]
    case Interval(ms) => [ms]
  }

  /** The decimal form of each number. */
  function Strs(ns: seq<int>): (r: seq<string>)
    ensures |r| == |ns|
  {
    if ns == [] then [] else [IntToString(ns[0])] + Strs(ns[1..])
  }

  /** The command line for a touch: the words joined by single spaces. */
  function Render(t: Touch): string
  {
    Join(TouchPrefix + [Flag(t)] + Strs(Args(t)), ' ')
  }

  /** Every word as a number, or None if one is not. */
  function ParseNumbers(words: seq<string>): Option<seq<int>>
  {
    if words == [] then Some([])
    else match SignedDecimal(words[0])
      case None => None
      case Some(v) =>
        match ParseNumbers(words[1..])
        case None => None
        case Some(rest) => Some([v] + rest)
  }

  function MakeTouch(flag: string, a: seq<int>): Option<Touch>
  {
    if flag == "-d" && |a| == 2 then Some(Down(a[0], a[1]))
    else if flag == "-u" && |a| == 2 then Some(Up(a[0], a[1]))
    else if flag == "-c" && |a| == 2 then Some(Click(a[0], a[1]))
    else if flag == "-m" && |a| == 5 then Some(Move(a[0], a[1], a[2], a[3], a[4]))
    else if flag == "-i" && |a| == 1 then Some(Interval(a[0]))
    else None
  }

  /** The touch a command line stands for, read word by word. */
  function ParseTouch(command: string): Option<Touch>
  {
    var w := Fields(command, ' ');
    if |w| < 5 || w[..4] != TouchPrefix then None
    else match ParseNumbers(w[5..])
      case None => None
      case Some(a) => MakeTouch(w[4], a)
  }

  lemma {:induction false} ParseNumbersOfStrs(ns: seq<int>)
    ensures ParseNumbers(Strs(ns)) == Some(ns)
    decreases |ns|
  {
    if ns != [] {
      var words := Strs(ns);
      assert words == [IntToString(ns[0])] + Strs(ns[1..]);
      assert words[0] == IntToString(ns[0]) && words[1..] == Strs(ns[1..]);
      SignedDecimalOfIntToString(ns[0]);
      ParseNumbersOfStrs(ns[1..]);
      assert [ns[0]] + ns[1..] == ns;
    }
  }

  lemma {:induction false} StrsHaveNoSpace(ns: seq<int>)
    ensures forall i :: 0 <= i < |Strs(ns)| ==> ' ' !in Strs(ns)[i]
    decreases |ns|
  {
    if ns != [] {
      IntToStringHasNoSeparator(ns[0], ' ');
      StrsHaveNoSpace(ns[1..]);
    }
  }

  /** Reading a rendered touch back gives the same touch. */
  lemma {:induction false} ParseRender(t: Touch)
    ensures ParseTouch(Render(t)) == Some(t)
  {
    var words := TouchPrefix + [Flag(t)] + Strs(Args(t));
    StrsHaveNoSpace(Args(t));
    assert forall i :: 0 <= i < |words| ==> ' ' !in words[i] by {
      forall i | 0 <= i < |words|
        ensures ' ' !in words[i]
      {
        if i >= 5 {
          assert words[i] == Strs(Args(t))[i - 5];
        }
      }
    }
    FieldsOfJoin(words, ' ');
    assert words[..4] == TouchPrefix && words[4] == Flag(t) && words[5..] == Strs(Args(t));
    ParseNumbersOfStrs(Args(t));
  }

  /** Two touches render to the same command only if they are the same touch. */
  lemma {:induction false} RenderInjective(s: Touch, t: Touch)
    requires Render(s) == Render(t)
    ensures s == t
  {
    ParseRender(s);
    ParseRender(t);
  }

  // ---------------------------------------------------------------------------
  // The builders are renderings of their touch

  /** The four prefix words and a flag, joined ahead of the remaining words. */
  lemma {:induction false} JoinPrefix(flag: string, rest: seq<string>)
    requires |rest| >= 1
    ensures Join(TouchPrefix + [flag] + rest, ' ') == "hdc shell uinput -T " + flag + " " + Join(rest, ' ')
  {
    var j := Join(rest, ' ');
    var r4 := [flag] + rest;
    var r3 := ["-T"] + r4;
    var r2 := ["uinput"] + r3;
    var r1 := ["shell"] + r2;
    JoinCons(flag, rest, ' ');
    JoinCons("-T", r4, ' ');
    JoinCons("uinput", r3, ' ');
    JoinCons("shell", r2, ' ');
    JoinCons("hdc", r1, ' ');
    PrefixWords(flag, rest);
    PrefixText(flag, j);
  }

  lemma {:induction false} PrefixWords(flag: string, rest: seq<string>)
    ensures TouchPrefix + [flag] + rest == ["hdc"] + (["shell"] + (["uinput"] + (["-T"] + ([flag] + rest))))
  {
  }

  lemma {:induction false} PrefixText(flag: string, j: string)
    ensures "hdc" + " " + ("shell" + " " + ("uinput" + " " + ("-T" + " " + (flag + " " + j))))
      == "hdc shell uinput -T " + flag + " " + j
  {
  }

  /** Two numbers print as two words. */
  lemma {:induction false} StrsPair(x: int, y: int)
    ensures Strs([x, y]) == [IntToString(x), IntToString(y)]
  {
    assert [x, y][1..] == [y];
    assert [y][1..] == [];
  }

  /** A two-coordinate touch renders as prefix, flag and the two numbers. */
  lemma {:induction false} PairRender(t: Touch)
    requires t.Down? || t.Up? || t.Click?
    ensures Render(t) == "hdc shell uinput -T " + Flag(t) + " " + IntToString(Args(t)[0]) + " " + IntToString(Args(t)[1])
  {
    var x, y := Args(t)[0], Args(t)[1];
    assert Args(t) == [x, y];
    var a, b := IntToString(x), IntToString(y);
    StrsPair(x, y);
    JoinPrefix(Flag(t), [a, b]);
    JoinCons(a, [b], ' ');
    assert [a] + [b] == [a, b];
  }

  lemma {:induction false} DownCommandIsDown(x: int, y: int)
    ensures DownCommand(x, y) == Render(Down(x, y))
    ensures ParseTouch(DownCommand(x, y)) == Some(Down(x, y))
  {
    PairRender(Down(x, y));
    assert "hdc shell uinput -T " + "-d" + " " == "hdc shell uinput -T -d ";
    ParseRender(Down(x, y));
  }

  lemma {:induction false} UpCommandIsUp(x: int, y: int)
    ensures UpCommand(x, y) == Render(Up(x, y))
    ensures ParseTouch(UpCommand(x, y)) == Some(Up(x, y))
  {
    PairRender(Up(x, y));
    assert "hdc shell uinput -T " + "-u" + " " == "hdc shell uinput -T -u ";
    ParseRender(Up(x, y));
  }

  lemma {:induction false} TouchCommandIsClick(x: int, y: int)
    ensures TouchCommand(x, y) == Render(Click(x, y))
    ensures ParseTouch(TouchCommand(x, y)) == Some(Click(x, y))
  {
    PairRender(Click(x, y));
    assert "hdc shell uinput -T " + "-c" + " " == "hdc shell uinput -T -c ";
    ParseRender(Click(x, y));
  }

  /** A move renders as prefix, -m and its five numbers. */
  lemma {:induction false} MoveRender(x1: int, y1: int, x2: int, y2: int, ms: int)
    ensures Render(Move(x1, y1, x2, y2, ms)) ==
      "hdc shell uinput -T -m " + IntToString(x1) + " " + IntToString(y1) + " " + IntToString(x2) + " "
      + IntToString(y2) + " " + IntToString(ms)
  {
    var a, b, c, d, e := IntToString(x1), IntToString(y1), IntToString(x2), IntToString(y2), IntToString(ms);
    var p4 := [e];
    var p3 := [d] + p4;
    var p2 := [c] + p3;
    var p1 := [b] + p2;
    var p0 := [a] + p1;
    var ns := [x1, y1, x2, y2, ms];
    assert Strs(ns[4..]) == p4;
    assert Strs(ns[3..]) == p3;
    assert Strs(ns[2..]) == p2;
    assert Strs(ns[1..]) == p1;
    assert Strs(ns) == p0;
    JoinCons(d, p4, ' ');
    JoinCons(c, p3, ' ');
    JoinCons(b, p2, ' ');
    JoinCons(a, p1, ' ');
    JoinPrefix("-m", p0);
    MoveText(a, b, c, d, e);
  }

  lemma {:induction false} MoveText(a: string, b: string, c: string, d: string, e: string)
    ensures "hdc shell uinput -T " + "-m" + " " + (a + " " + (b + " " + (c + " " + (d + " " + e))))
      == "hdc shell uinput -T -m " + a + " " + b + " " + c + " " + d + " " + e
  {
  }

  /** send_move_command always asks for a 200 ms move between the two points. */
  lemma {:induction false} MoveCommandIsMove(x1: int, y1: int, x2: int, y2: int)
    ensures MoveCommand(x1, y1, x2, y2) == Render(Move(x1, y1, x2, y2, 200))
    ensures ParseTouch(MoveCommand(x1, y1, x2, y2)) == Some(Move(x1, y1, x2, y2, 200))
  {
    MoveRender(x1, y1, x2, y2, 200);
    assert IntToString(200) == "200" by {
      assert DigitsOf(200) == DigitsOf(20) + ['0'];
      assert DigitsOf(20) == DigitsOf(2) + ['0'];
    }
    ParseRender(Move(x1, y1, x2, y2, 200));
  }

  // ---------------------------------------------------------------------------
  // The scroll gestures

  /** A swipe: pause, finger down at the start, move to the end, finger up there, pause. */
  function Swipe(x1: int, y1: int, x2: int, y2: int, ms: int): seq<Touch>
  {
    [Interval(100), Down(x1, y1), Move(x1, y1, x2, y2, ms), Up(x2, y2), Interval(100)]
  }

  function ParseAll(commands: seq<string>): Option<seq<Touch>>
  {
    if commands == [] then Some([])
    else match ParseTouch(commands[0])
      case None => None
      case Some(t) =>
        match ParseAll(commands[1..])
        case None => None
        case Some(rest) => Some([t] + rest)
  }

  lemma {:induction false} ParseAllOfRendered(ts: seq<Touch>, commands: seq<string>)
    requires |commands| == |ts|
    requires forall i :: 0 <= i < |ts| ==> commands[i] == Render(ts[i])
    ensures ParseAll(commands) == Some(ts)
    decreases |ts|
  {
    if ts != [] {
      ParseRender(ts[0]);
      ParseAllOfRendered(ts[1..], commands[1..]);
      assert [ts[0]] + ts[1..] == ts;
    }
  }

  lemma {:induction false} Numbers()
    ensures IntToString(100) == "100" && IntToString(300) == "300"
    ensures IntToString(600) == "600" && IntToString(900) == "900"
  {
    assert DigitsOf(100) == DigitsOf(10) + ['0'] && DigitsOf(10) == DigitsOf(1) + ['0'];
    assert DigitsOf(300) == DigitsOf(30) + ['0'] && DigitsOf(30) == DigitsOf(3) + ['0'];
    assert DigitsOf(600) == DigitsOf(60) + ['0'] && DigitsOf(60) == DigitsOf(6) + ['0'];
    assert DigitsOf(900) == DigitsOf(90) + ['0'] && DigitsOf(90) == DigitsOf(9) + ['0'];
  }

  lemma {:induction false} IntervalRender(ms: int)
    ensures Render(Interval(ms)) == "hdc shell uinput -T -i " + IntToString(ms)
  {
    assert Strs([ms]) == [IntToString(ms)];
    JoinPrefix("-i", [IntToString(ms)]);
  }

  lemma {:induction false} IntervalLiteral()
    ensures "hdc shell uinput -T -i 100" == Render(Interval(100))
  {
    Numbers();
    IntervalRender(100);
  }

  lemma {:induction false} DownLiteral(x: int, y: int, whole: string)
    requires whole == "hdc shell uinput -T -d " + IntToString(x) + " " + IntToString(y)
    ensures whole == Render(Down(x, y))
  {
    DownCommandIsDown(x, y);
  }

  lemma {:induction false} UpLiteral(x: int, y: int, whole: string)
    requires whole == "hdc shell uinput -T -u " + IntToString(x) + " " + IntToString(y)
    ensures whole == Render(Up(x, y))
  {
    UpCommandIsUp(x, y);
  }

  lemma {:induction false} DownLiterals()
    ensures "hdc shell uinput -T -d 300 900" == Render(Down(300, 900))
    ensures "hdc shell uinput -T -d 300 600" == Render(Down(300, 600))
  {
    Numbers();
    var p := "hdc shell uinput -T -d ";
    assert p + "300" + " " + "900" == "hdc shell uinput -T -d 300 900";
    DownLiteral(300, 900, "hdc shell uinput -T -d 300 900");
    assert p + "300" + " " + "600" == "hdc shell uinput -T -d 300 600";
    DownLiteral(300, 600, "hdc shell uinput -T -d 300 600");
  }

  lemma {:induction false} UpLiterals()
    ensures "hdc shell uinput -T -u 300 600" == Render(Up(300, 600))
    ensures "hdc shell uinput -T -u 300 900" == Render(Up(300, 900))
  {
    Numbers();
    var p := "hdc shell uinput -T -u ";
    assert p + "300" + " " + "600" == "hdc shell uinput -T -u 300 600";
    UpLiteral(300, 600, "hdc shell uinput -T -u 300 600");
    assert p + "300" + " " + "900" == "hdc shell uinput -T -u 300 900";
    UpLiteral(300, 900, "hdc shell uinput -T -u 300 900");
  }

  lemma {:induction false} MoveUpLiteral()
    ensures "hdc shell uinput -T -m 300 900 300 600 300" == Render(Move(300, 900, 300, 600, 300))
  {
    Numbers();
    MoveRender(300, 900, 300, 600, 300);
    assert "hdc shell uinput -T -m " + "300" + " " + "900" + " " + "300" + " " + "600" + " " + "300"
      == "hdc shell uinput -T -m 300 900 300 600 300";
  }

  lemma {:induction false} MoveDownLiteral()
    ensures "hdc shell uinput -T -m 300 600 300 900 300" == Render(Move(300, 600, 300, 900, 300))
  {
    Numbers();
    MoveRender(300, 600, 300, 900, 300);
    assert "hdc shell uinput -T -m " + "300" + " " + "600" + " " + "300" + " " + "900" + " " + "300"
      == "hdc shell uinput -T -m 300 600 300 900 300";
  }

  lemma {:induction false} ScrollUpRendersSwipe()
    ensures forall i :: 0 <= i < 5 ==> ScrollUpCommands[i] == Render(Swipe(300, 900, 300, 600, 300)[i])
  {
    IntervalLiteral();
    DownLiterals();
    UpLiterals();
    MoveUpLiteral();
  }

  lemma {:induction false} ScrollDownRendersSwipe()
    ensures forall i :: 0 <= i < 5 ==> ScrollDownCommands[i] == Render(Swipe(300, 600, 300, 900, 300)[i])
  {
    IntervalLiteral();
    DownLiterals();
    UpLiterals();
    MoveDownLiteral();
  }

  /** Each scroll is one swipe, and the two are mirror images: each starts where the other ends. */
  lemma {:induction false} ScrollsMirror()
    ensures ParseAll(ScrollUpCommands) == Some(Swipe(300, 900, 300, 600, 300))
    ensures ParseAll(ScrollDownCommands) == Some(Swipe(300, 600, 300, 900, 300))
  {
    ScrollUpRendersSwipe();
    ParseAllOfRendered(Swipe(300, 900, 300, 600, 300), ScrollUpCommands);
    ScrollDownRendersSwipe();
    ParseAllOfRendered(Swipe(300, 600, 300, 900, 300), ScrollDownCommands);
  }

  // ---------------------------------------------------------------------------
  // get_screenshot_filename

  const Marker: string := "write to "

  predicate MatchAt(s: string, pat: string, i: int)
  {
    0 <= i && i + |pat| <= |s| && s[i..i + |pat|] == pat
  }

  /** str.index(pat, from): the first occurrence at or after from, None for the ValueError. */
  function Find(s: string, pat: string, from: nat): (r: Option<nat>)
    ensures r.Some? ==> from <= r.value && r.value + |pat| <= |s|
    decreases |s| - from
  {
    if from + |pat| > |s| then None
    else if s[from..from + |pat|] == pat then Some(from)
    else Find(s, pat, from + 1)
  }

  /** Find returns the first match at or after from, and None exactly when there is none. */
  lemma {:induction false} FindFirst(s: string, pat: string, from: nat)
    ensures Find(s, pat, from).Some? ==>
      var r := Find(s, pat, from).value;
      from <= r && MatchAt(s, pat, r) && forall j :: from <= j < r ==> !MatchAt(s, pat, j)
    ensures Find(s, pat, from).None? ==> forall j :: from <= j ==> !MatchAt(s, pat, j)
    decreases |s| - from
  {
    if from + |pat| <= |s| && s[from..from + |pat|] != pat {
      FindFirst(s, pat, from + 1);
    }
  }

  /** get_screenshot_filename: from just after the first "write to " up to the next space. */
  function GetScreenshotFilename(commandOutput: string): Option<string>
  {
    match Find(commandOutput, Marker, 0)
    case None => None
    case Some(i) =>
      var start := i + |Marker|;
      match Find(commandOutput, " ", start)
      case None => None
      case Some(end) => Some(commandOutput[start..end])
  }

  /** The text up to the first space at or after start holds no space, and a space follows it. */
  lemma {:induction false} UpToSpace(s: string, start: nat)
    requires Find(s, " ", start).Some?
    ensures start <= Find(s, " ", start).value < |s|
    ensures s[Find(s, " ", start).value] == ' '
    ensures ' ' !in s[start..Find(s, " ", start).value]
  {
    FindFirst(s, " ", start);
    var end := Find(s, " ", start).value;
    MatchSpace(s, end);
    var name := s[start..end];
    forall k | 0 <= k < |name|
      ensures name[k] != ' '
    {
      MatchSpace(s, start + k);
    }
  }

  /** The marker at i, a name and the space after it sit side by side in the output. */
  lemma {:induction false} MarkerNameSpace(s: string, i: nat, end: nat)
    requires MatchAt(s, Marker, i) && i + |Marker| <= end < |s| && s[end] == ' '
    ensures MatchAt(s, Marker + s[i + |Marker|..end] + " ", i)
  {
    var start := i + |Marker|;
    assert s[i..end + 1] == s[i..start] + s[start..end] + s[end..end + 1];
    assert s[end..end + 1] == " ";
  }

  /**
   * No marker, no name; a name holds no space, and follows the marker and is
   * followed by a space in the output.
   */
  lemma {:induction false} ScreenshotFilenameFacts(commandOutput: string)
    ensures (forall i :: !MatchAt(commandOutput, Marker, i)) ==> GetScreenshotFilename(commandOutput) == None
    ensures GetScreenshotFilename(commandOutput).Some? ==> ' ' !in GetScreenshotFilename(commandOutput).value
    ensures GetScreenshotFilename(commandOutput).Some? ==>
      exists i :: MatchAt(commandOutput, Marker + GetScreenshotFilename(commandOutput).value + " ", i)
  {
    FindFirst(commandOutput, Marker, 0);
    if Find(commandOutput, Marker, 0).Some? {
      var i := Find(commandOutput, Marker, 0).value;
      var start := i + |Marker|;
      if Find(commandOutput, " ", start).Some? {
        UpToSpace(commandOutput, start);
        var end := Find(commandOutput, " ", start).value;
        MarkerNameSpace(commandOutput, i, end);
      }
    }
  }

  lemma {:induction false} MatchSpace(s: string, j: int)
    ensures MatchAt(s, " ", j) <==> 0 <= j < |s| && s[j] == ' '
  {
    if 0 <= j < |s| {
      assert s[j..j + 1] == [s[j]];
    }
  }

  /** Writing a space-free name after the first marker and before a space, and reading it back, gives the name. */
  lemma {:induction false} ScreenshotFilenameRoundTrip(before: string, name: string, after: string)
    requires ' ' !in name
    requires forall j :: 0 <= j < |before| ==> !MatchAt(before + Marker + name + " " + after, Marker, j)
    ensures GetScreenshotFilename(before + Marker + name + " " + after) == Some(name)
  {
    var s := before + Marker + name + " " + after;
    var start := |before| + |Marker|;
    assert s[|before|..start] == Marker;
    assert s[start..start + |name|] == name;
    assert s[start + |name|] == ' ';
    FindFirst(s, Marker, 0);
    assert MatchAt(s, Marker, |before|);
    assert Find(s, Marker, 0) == Some(|before|);
    FindFirst(s, " ", start);
    MatchSpace(s, start + |name|);
    forall j | start <= j < start + |name|
      ensures !MatchAt(s, " ", j)
    {
      MatchSpace(s, j);
      assert s[j] == name[j - start];
    }
    assert Find(s, " ", start) == Some(start + |name|);
  }

  /** The name may be empty, and a name not followed by a space is not found. */
  lemma {:induction false} ScreenshotFilenameEdges()
    ensures GetScreenshotFilename("write to  x") == Some("")
    ensures GetScreenshotFilename("write to /data/shot.jpeg") == None
  {
    ScreenshotFilenameRoundTrip("", "", "x");
    assert "" + Marker + "" + " " + "x" == "write to  x";
    var tail := "/data/shot.jpeg";
    var s := Marker + tail;
    assert s == "write to /data/shot.jpeg";
    assert ' ' !in tail;
    FindFirst(s, Marker, 0);
    assert MatchAt(s, Marker, 0);
    FindFirst(s, " ", 9);
    forall j | 9 <= j
      ensures !MatchAt(s, " ", j)
    {
      MatchSpace(s, j);
      if j < |s| {
        assert s[j] == tail[j - 9];
      }
    }
  }
}
