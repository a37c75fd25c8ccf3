/** main and read_content_of_file: the option rule, the path of each
    attribute file, the order in which main reads the files and fails, and
    what it prints in each mode.

    The file system is a map from paths to what opening and reading them
    gives. The bytes the C stack buffers held before each read are a
    parameter, since the C code reads past the bytes a short file supplies. */
module Shell {
  import opened CStrings
  import opened Uevent
  import opened UeventScan
  import opened Capacity
  import opened Metrics
  import opened Icon
  import opened Format

  /** The size batquery takes for a path; its buffer holds one more byte. */
  const PATH_MAX: nat := 256

  /** The range of a 32-bit C `int`. */
  const INT_MIN: int := -0x8000_0000
  const INT_MAX: int := 0x7FFF_FFFF

  /** The '/' read_content_of_file puts between the directory and the file
      name: none when the directory already ends in one. */
  function Separator(path: seq<char>): (sep: seq<char>)
    ensures sep == [] <==> |path| > 0 && path[|path| - 1] == '/'
    ensures sep != [] ==> sep == ['/']
  {
    if |path| > 0 && path[|path| - 1] == '/' then [] else ['/']
  }

  /** The full path as read_content_of_file builds it in its 257-byte
      buffer: strncpy of the directory, strncat of the '/' and of the file
      name, then a NUL at index 256. The strncat calls write the joined
      path's NUL past the end of the buffer once it is longer than 256, so
      the final NUL never shortens anything; an empty directory reads the
      byte before it. None stands for those undefined cases. */
  function JoinAsWritten(path: seq<char>, file: seq<char>): (r: Option<seq<char>>)
  {
    if |path| == 0 then None
    else
      var joined := path + Separator(path) + file;
      if |joined| > PATH_MAX then None else Some(joined)
  }

  /** The path the code evidently means to build: the joined path cut to
      PATH_MAX characters. An empty directory gets the '/' too. */
  function JoinPath(path: seq<char>, file: seq<char>): (r: seq<char>)
    ensures |r| <= PATH_MAX
  {
    var joined := path + Separator(path) + file;
    if |joined| > PATH_MAX then joined[..PATH_MAX] else joined
  }

  /** The joined path starts with the directory, has exactly one '/' between
      the directory and the file name, and ends with the file name, when it
      fits; otherwise it is the first PATH_MAX characters of that. */
  lemma JoinPathParts(path: seq<char>, file: seq<char>)
    requires |path| > 0
    ensures |path| + 1 + |file| <= PATH_MAX && path[|path| - 1] == '/' ==> JoinPath(path, file) == path + file
    ensures |path| + 1 + |file| <= PATH_MAX && path[|path| - 1] != '/' ==> JoinPath(path, file) == path + ['/'] + file
    ensures |path| + 1 + |file| > PATH_MAX ==> |JoinPath(path, file)| == PATH_MAX || JoinPath(path, file) == path + file
    ensures JoinPath(path, file) == (path + Separator(path) + file)[..|JoinPath(path, file)|]
  {
  }

  /** Wherever the code as written is defined, it builds the corrected
      path. */
  lemma JoinAgrees(path: seq<char>, file: seq<char>, r: seq<char>)
    requires JoinAsWritten(path, file) == Some(r)
    ensures JoinPath(path, file) == r && |r| <= PATH_MAX
    ensures r[|r| - |file|..] == file
  {
  }

  /** A directory of 250 characters without a trailing '/' joined with
      "uevent" needs 258 bytes: the code as written writes past its 257-byte
      buffer, where the evident intent is a path cut to 256 characters. */
  lemma JoinOverflows()
    ensures JoinAsWritten(seq(250, _ => 'a'), "uevent") == None
    ensures |JoinPath(seq(250, _ => 'a'), "uevent")| == PATH_MAX
  {
  }

  /** An empty directory makes the code as written read before its
      argument; the corrected join gives "/uevent". */
  lemma JoinEmptyDirectory()
    ensures JoinAsWritten([], "uevent") == None
    ensures JoinPath([], "uevent") == "/uevent"
  {
  }

  /** The `enum mode` of main. */
  datatype Mode = NoMode | PercentMode | DischargeRateMode | TimeRemainingMode

  /** What the options select: `-i`, and the mode. */
  datatype Flags = Flags(showIcon: bool, mode: Mode)

  /** The option characters of getopt's "ipdt". */
  predicate IsOption(c: char) {
    c == 'i' || c == 'p' || c == 'd' || c == 't'
  }

  /** The mode an option character selects; NoMode for `-i`. */
  function ModeOf(c: char): Mode {
    if c == 'p' then PercentMode
    else if c == 'd' then DischargeRateMode
    else if c == 't' then TimeRemainingMode
    else NoMode
  }

  /** The mode of the last mode option, or NoMode when there is none. */
  function LastMode(opts: seq<char>): (m: Mode)
    ensures m == NoMode <==> forall k :: 0 <= k < |opts| ==> ModeOf(opts[k]) == NoMode
  {
    if |opts| == 0 then NoMode
    else if ModeOf(opts[|opts| - 1]) != NoMode then ModeOf(opts[|opts| - 1])
    else LastMode(opts[..|opts| - 1])
  }

  /** The options getopt returns, in order: `-i` given at all, and the last
      mode option; None when one of them is not in "ipdt", where main
      prints the usage and exits. */
  function FlagsOf(opts: seq<char>): (r: Option<Flags>)
    ensures r.None? <==> exists k :: 0 <= k < |opts| && !IsOption(opts[k])
  {
    if forall k :: 0 <= k < |opts| ==> IsOption(opts[k]) then Some(Flags('i' in opts, LastMode(opts)))
    else None
  }

  /** The getopt loop of main: each option sets `show_icon` or overwrites
      `mode`, and an unknown one stops the program. */
  method ParseFlags(opts: seq<char>) returns (r: Option<Flags>)
    ensures r == FlagsOf(opts)
  {
    var showIcon := false;
    var mode := NoMode;
    var i := 0;
    while i < |opts|
      invariant 0 <= i <= |opts|
      invariant forall k :: 0 <= k < i ==> IsOption(opts[k])
      invariant showIcon == ('i' in opts[..i])
      invariant mode == LastMode(opts[..i])
    {
      var c := opts[i];
      assert opts[..i + 1] == opts[..i] + [c];
      assert opts[..i + 1][..i] == opts[..i];
      if c == 'i' {
        showIcon := true;
      } else if c == 'p' {
        mode := PercentMode;
      } else if c == 'd' {
        mode := DischargeRateMode;
      } else if c == 't' {
        mode := TimeRemainingMode;
      } else {
        return None;
      }
      i := i + 1;
    }
    assert opts[..i] == opts;
    return Some(Flags(showIcon, mode));
  }

  /** A mode option overrides every mode option before it, and `-i` leaves
      the mode alone. */
  lemma LastModeWins(opts: seq<char>, c: char)
    requires FlagsOf(opts).Some? && IsOption(c)
    ensures FlagsOf(opts + [c]).Some?
    ensures c != 'i' ==> FlagsOf(opts + [c]).value.mode == ModeOf(c)
    ensures c == 'i' ==> FlagsOf(opts + [c]) == Some(Flags(true, FlagsOf(opts).value.mode))
  {
    var s := opts + [c];
    assert s[..|s| - 1] == opts;
    assert forall k :: 0 <= k < |s| ==> IsOption(s[k]) by {
      assert forall k :: 0 <= k < |opts| ==> s[k] == opts[k];
    }
  }

  /** `show_icon` is set exactly when `-i` is among the options. */
  lemma ShowIconIffOption(opts: seq<char>)
    requires FlagsOf(opts).Some?
    ensures FlagsOf(opts).value.showIcon <==> exists k :: 0 <= k < |opts| && opts[k] == 'i'
  {
  }

  /** `-p -d -t -p` selects percent mode; `-i` alone selects none. */
  lemma FlagExamples()
    ensures FlagsOf("pdtp") == Some(Flags(false, PercentMode))
    ensures FlagsOf("i") == Some(Flags(true, NoMode))
    ensures FlagsOf("ix") == None
  {
    assert LastMode("pdt") != NoMode;
    assert !IsOption("ix"[1]);
  }

  /** What opening and reading a path gives. */
  datatype FileState = Missing | Unreadable | Holds(bytes: seq<char>)

  /** The bytes the stack buffers held before each read: the three capacity
      bytes, the status byte, and the first 1023 bytes of each of the two
      uevent buffers. */
  datatype Stack = Stack(capacity: seq<char>, status: char, rateUevent: seq<char>, nowUevent: seq<char>)

  predicate StackShaped(s: Stack) {
    |s.capacity| == 3 && |s.rateUevent| == 1023 && |s.nowUevent| == 1023
  }

  /** How a run ends: the line printed on standard output, then exit
      success; the usage and an error message on standard error, then exit
      failure; or behaviour C leaves undefined. */
  datatype Outcome = Printed(line: seq<Piece>) | Failed(usage: bool, message: seq<char>) | Undefined

  /** error(scope, msg) prints "scope: msg". */
  function Message(scope: seq<char>, msg: seq<char>): seq<char> {
    scope + ": " + msg
  }

  /** read_content_of_file: the bytes of `file` in the battery directory, or
      the error it exits with. */
  function ReadFile(fs: map<seq<char>, FileState>, path: seq<char>, file: seq<char>): (r: Result<seq<char>, Outcome>)
    ensures r.Err? ==> r.error.Failed? && !r.error.usage
  {
    var full := JoinPath(path, file);
    if full !in fs || fs[full].Missing? then Err(Failed(false, Message("read_content_of_file", "unable to open file")))
    else if fs[full].Unreadable? then Err(Failed(false, Message("read_content_of_file", "error while reading the file")))
    else Ok(fs[full].bytes)
  }

  /** Wherever the code as written builds a path, ReadFile opens that
      path. */
  lemma ReadFileAsWritten(fs: map<seq<char>, FileState>, path: seq<char>, file: seq<char>, full: seq<char>)
    requires JoinAsWritten(path, file) == Some(full)
    ensures full in fs && fs[full].Holds? ==> ReadFile(fs, path, file) == Ok(fs[full].bytes)
    ensures (full !in fs || !fs[full].Holds?) ==> ReadFile(fs, path, file).Err?
  {
    JoinAgrees(path, file, full);
  }

  /** get_battery_percent's result, or the error it exits with. */
  function PercentOrFail(content: seq<char>, stale: seq<char>): Result<int, Outcome>
    requires |stale| == 3
  {
    match Percent(CapacityBuffer(content, stale))
    case Ok(p) => Ok(p)
    case Err(NoReadableContent) => Err(Failed(false, Message("get_battery_percent", "file contained no readable content")))
    case Err(InvalidContent) => Err(Failed(false, Message("get_battery_percent", "file contained invalid content")))
  }

  /** The two values a uevent scan reads, or Undefined where the scan
      runs off the buffer or dereferences the NULL strchr returns. */
  function Scanned(content: seq<char>, stale: seq<char>, k1: seq<char>, k2: seq<char>): Result<Reading, Outcome>
    requires |stale| == 1023
  {
    match UeventText(content, stale)
    case None => Err(Undefined)
    case Some(text) =>
      match Scan(k1, k2, text)
      case None => Err(Undefined)
      case Some(reading) => Ok(reading)
  }

  /** What main prints for the mode, given the values it has read. */
  function Report(flags: Flags, percent: int, charging: bool, watts: real, hours: Option<real>): Outcome {
    match flags.mode
    case NoMode => Failed(true, Message("args", "mode flag not specified"))
    case PercentMode => Printed([Chars(PercentLine(percent, flags.showIcon, charging) + ['\n'])])
    case DischargeRateMode => Printed(DischargeLine(watts, flags.showIcon) + [Chars(['\n'])])
    case TimeRemainingMode =>
      if hours.None? then
        if flags.showIcon then Undefined else Printed([NonFinite, Chars(['\n'])])
      else if flags.showIcon && !(INT_MIN <= HoursMinutes(hours.value).0 <= INT_MAX) then Undefined
      else Printed(TimeLine(hours.value, flags.showIcon) + [Chars(['\n'])])
  }

  /** main, up to the outcome: the options, the path operand, the four
      reads in the order main makes them, then the report. */
  function Main(opts: seq<char>, operands: seq<seq<char>>, fs: map<seq<char>, FileState>, stack: Stack): Result<Outcome, Outcome>
    requires StackShaped(stack)
  {
    var flags :- if FlagsOf(opts).None? then Err(Failed(true, [])) else Ok(FlagsOf(opts).value);
    var path :- if |operands| == 0 then Err(Failed(true, Message("args", "battery_path not specified"))) else Ok(operands[0]);
    var capacityFile :- ReadFile(fs, path, "capacity");
    var percent :- PercentOrFail(capacityFile, stack.capacity);
    var statusFile :- ReadFile(fs, path, "status");
    var rateFile :- ReadFile(fs, path, "uevent");
    var rate :- Scanned(rateFile, stack.rateUevent, VoltageKey, CurrentKey);
    // get_battery_capacity_now opens `uevent` again; over a fixed file
    // system that second read gives the same bytes.
    var now :- Scanned(rateFile, stack.nowUevent, ChargeKey, VoltageKey);
    var watts := Watts(rate.first, rate.second);
    Ok(Report(flags, percent, IsCharging(statusFile, stack.status), watts,
              HoursRemaining(WattHours(now.first, now.second), watts)))
  }

  /** The outcome of running batquery. */
  function Run(opts: seq<char>, operands: seq<seq<char>>, fs: map<seq<char>, FileState>, stack: Stack): Outcome
    requires StackShaped(stack)
  {
    match Main(opts, operands, fs, stack)
    case Ok(o) => o
    case Err(o) => o
  }

  /** main as the C code runs it: the getopt loop, the in-place percent
      read, and the two uevent scans over their stack buffers. */
  method Batquery(opts: seq<char>, operands: seq<seq<char>>, fs: map<seq<char>, FileState>, stack: Stack)
    returns (o: Outcome)
    requires StackShaped(stack)
    ensures o == Run(opts, operands, fs, stack)
  {
    var flags := ParseFlags(opts);
    if flags.None? {
      return Failed(true, []);
    }
    if |operands| == 0 {
      return Failed(true, Message("args", "battery_path not specified"));
    }
    var path := operands[0];
    var capacityFile := ReadFile(fs, path, "capacity");
    if capacityFile.Err? {
      return capacityFile.error;
    }
    var percent := GetBatteryPercent(capacityFile.value, stack.capacity);
    if percent.Err? {
      return PercentOrFail(capacityFile.value, stack.capacity).error;
    }
    var statusFile := ReadFile(fs, path, "status");
    if statusFile.Err? {
      return statusFile.error;
    }
    var uevent := ReadFile(fs, path, "uevent");
    if uevent.Err? {
      return uevent.error;
    }
    KeysAreKeys();
    if UeventText(uevent.value, stack.rateUevent).None? {
      return Undefined;
    }
    var rate := ReadUevent(uevent.value, stack.rateUevent, VoltageKey, CurrentKey);
    if rate.None? {
      return Undefined;
    }
    if UeventText(uevent.value, stack.nowUevent).None? {
      return Undefined;
    }
    var now := ReadUevent(uevent.value, stack.nowUevent, ChargeKey, VoltageKey);
    if now.None? {
      return Undefined;
    }
    var watts := Watts(rate.value.first, rate.value.second);
    var hours := HoursRemaining(WattHours(now.value.first, now.value.second), watts);
    o := Report(flags.value, percent.value, IsCharging(statusFile.value, stack.status), watts, hours);
  }

  /** An option outside "ipdt" ends the run with the usage alone, before
      anything is read. */
  lemma RunUnknownOption(opts: seq<char>, operands: seq<seq<char>>, fs: map<seq<char>, FileState>, stack: Stack, k: nat)
    requires StackShaped(stack) && k < |opts| && !IsOption(opts[k])
    ensures Run(opts, operands, fs, stack) == Failed(true, [])
  {
  }

  /** Without an operand the run ends with the usage and
      "args: battery_path not specified". */
  lemma RunWithoutPath(opts: seq<char>, fs: map<seq<char>, FileState>, stack: Stack)
    requires StackShaped(stack) && FlagsOf(opts).Some?
    ensures Run(opts, [], fs, stack) == Failed(true, Message("args", "battery_path not specified"))
  {
  }

  /** With no mode option the run never prints a reading. Since main reads
      the files first, a missing capacity file is reported rather than the
      missing mode; when every read succeeds, the run fails with the usage
      and "args: mode flag not specified". */
  lemma RunWithoutMode(opts: seq<char>, operands: seq<seq<char>>, fs: map<seq<char>, FileState>, stack: Stack)
    requires StackShaped(stack) && FlagsOf(opts).Some? && FlagsOf(opts).value.mode == NoMode
    requires |operands| > 0
    ensures !Run(opts, operands, fs, stack).Printed?
    ensures JoinPath(operands[0], "capacity") !in fs ==>
      Run(opts, operands, fs, stack) == Failed(false, Message("read_content_of_file", "unable to open file"))
    ensures Main(opts, operands, fs, stack).Ok? ==>
      Run(opts, operands, fs, stack) == Failed(true, Message("args", "mode flag not specified"))
  {
    var path := operands[0];
    var capacityFile := ReadFile(fs, path, "capacity");
    if capacityFile.Ok? {
      var percent := PercentOrFail(capacityFile.value, stack.capacity);
      var statusFile := ReadFile(fs, path, "status");
      var rateFile := ReadFile(fs, path, "uevent");
      if percent.Ok? && statusFile.Ok? && rateFile.Ok? {
        var rate := Scanned(rateFile.value, stack.rateUevent, VoltageKey, CurrentKey);
        var now := Scanned(rateFile.value, stack.nowUevent, ChargeKey, VoltageKey);
        if rate.Ok? && now.Ok? {
          var watts := Watts(rate.value.first, rate.value.second);
          assert Main(opts, operands, fs, stack) == Ok(Report(FlagsOf(opts).value, percent.value,
            IsCharging(statusFile.value, stack.status), watts,
            HoursRemaining(WattHours(now.value.first, now.value.second), watts)));
        }
      }
    }
  }
}
