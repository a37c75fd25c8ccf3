# batquery in Dafny

batquery is a small command-line tool. It reads a Linux power-supply
directory (`/sys/class/power_supply/BAT0` and the like) and prints one line:

- the battery percentage (`-p`);
- the discharge rate in watts (`-d`);
- the time remaining (`-t`).

With `-i` it decorates that line: a Nerd Font battery glyph and `%`, ` W`, or
the time worded in hours and minutes.

This project models the logic of `batquery.c` and proves properties of it.
It has one module per part of the program:

| file | module | what it models |
|---|---|---|
| `cstrings.dfy` | `CStrings` | the C library as batquery uses it, on text: strchr, strncmp-based `prefix`, strtol/atof on integer text, printf `%d` |
| `uevent.dfy` | `Uevent` | the `KEY=value` line scanner of `get_battery_discharge_rate` and `get_battery_capacity_now`, as functions on the text |
| `uevent_scan.dfy` | `UeventScan` | the same scanner as the C code runs it: a cursor over a `char` array, with `read_number` writing a NUL over the `'\n'` and putting it back |
| `capacity.dfy` | `Capacity` | `get_battery_percent` (the four-byte buffer, the in-place trim loop, strtol and its two errors) and `get_battery_charge_status` |
| `metrics.dfy` | `Metrics` | micro-unit conversion, time remaining, the fmod/floor split into hours and minutes, over exact reals |
| `icon.dfy` | `Icon` | the twelve glyphs and the threshold ladder |
| `format.dfy` | `Format` | the printed line of each mode, and the hours/minutes wording |
| `shell.dfy` | `Shell` | the path join of `read_content_of_file`, the getopt rule, and `main`: the order of reads and errors and the outcome of a run |

The parts of `batquery.c` that work step by step are imperative methods over
arrays, with loop invariants:

- `read_number`;
- the uevent `while` loops;
- the backwards trim loop;
- the getopt loop.

Each of these methods is proved to compute what a function of the model
specifies. The end-to-end method `Shell.Batquery` chains the methods in
`main`'s order and is proved equal to `Shell.Run`.

Conventions of the model:

- A C string is the text before its first NUL.
- Uninitialised stack bytes that the C code goes on to read are a parameter
  (`stale`, `Shell.Stack`).
- An `error()` call is a `Failed` outcome or an `Err` value.
- Behaviour that C leaves undefined is `None` or `Undefined`. This covers a
  NULL from strchr being dereferenced and a buffer with no NUL. The two
  undefined cases of the path join are the exception: `Shell.JoinAsWritten`
  marks them `None`, but a run builds its paths with the corrected
  `Shell.JoinPath` (see "## Findings" and "## Left out").

Some of the code's behaviour is easy to miss; the model follows the code:

- With no mode flag, the code does not default to percent mode. It fails with
  `args: mode flag not specified`, and only after reading every file
  (`Shell.RunWithoutMode`).
- The scanner does not look at every line:
  - it never tests the first line (`Uevent.ScanIgnoresFirstLine`);
  - after a match, it tests the next line only against the second key
    (`Uevent.ResumeOverFirstKey`);
  - after a second-key match, it does not test the next line at all, since
    the next turn starts by moving to the `'\n'` that ends that line
    (`Uevent.ResumeOverSecondKey`). So in "x\nB=7\nA=5\n" with keys "A=" and
    "B=", the line "A=5" is skipped.
- Suppose a tested line starts with either key but has no `'\n'` after
  it. Then `read_number` dereferences NULL (`Uevent.ResumeOverUnterminatedKey`);
  the code does not tolerate a missing final newline there.
- A capacity file holding only white space and a newline is read as 0, not
  rejected (`Capacity.PercentOfSpace`). So is a file holding two newlines
  (`Capacity.PercentOfTwoNewlines`).
- The "invalid content" error can never happen: three bytes cannot make strtol
  saturate (`Capacity.Percent`).
- An empty `status` file leaves the status byte uninitialised
  (`Capacity.StatusByte`).
- A zero discharge rate is not a defined sentinel:
  - without `-i`, printf prints the infinity or NaN (`Format.Piece.NonFinite`);
  - with `-i`, the NaN or infinity is converted to `int`, which is undefined
    (`Shell.Report`).

## Model

| member | source | states |
|---|---|---|
| CStrings.IndexOfFirst | batquery.c:30-31 | strchr finds the first occurrence at or after the start, and finds nothing exactly when there is no occurrence |
| CStrings.PrefixIsStrncmp | batquery.c:23-25 | `prefix(p, s)`, i.e. strncmp over strlen(p), holds exactly when s begins with all of p |
| CStrings.Strtol | batquery.c:116 | strtol stays within the range of `long`, gives the leading integer inside that range and saturates outside it |
| CStrings.LeadingInteger | batquery.c:35 | what atof and strtol read from integer text: white space, a sign, then the digits that follow; CStrings.Strtol, CStrings.LeadingIntegerBound and CStrings.IntDigitsRoundTrip state its properties |
| CStrings.LeadingIntegerBound | batquery.c:115-117 | the integer read from k characters is less than 10^k in magnitude |
| CStrings.IntDigits | batquery.c:290 | what `printf("%d", n)` prints is never empty; Format.IntDigitsShape shows it holds no space and no '%', and CStrings.IntDigitsRoundTrip that it reads back as n |
| CStrings.IntDigitsRoundTrip | batquery.c:290 | what `printf("%d", n)` prints reads back as n, whatever non-digit follows |
| Uevent.ReadNumber | batquery.c:29-41 | when read_number is defined it moves the cursor to just past a `'\n'` inside the text |
| Uevent.ReadNumberDefined | batquery.c:29-41 | read_number is defined exactly when the text has an `'='` and a `'\n'` somewhere after the first `'='`; otherwise a strchr result is NULL |
| Uevent.ReadNumberBetween | batquery.c:29-41 | read_number reads the number between the first `'='` and the first `'\n'` after it, and moves the cursor just past that `'\n'` |
| Uevent.UeventBuffer | batquery.c:140-143 | the 1024-byte buffer holds the file's bytes and then the stale bytes the read did not reach; a short file leaves the NUL at index 1023, and a long file overwrites it |
| Uevent.UeventText | batquery.c:140-149 | a file shorter than 1024 bytes always leaves a C string to walk, of fewer than 1024 characters |
| Uevent.UeventTextOfShortFile | batquery.c:140-149 | the text a short file without a NUL leaves to walk is the whole file, followed by the stale bytes after it up to the first NUL among them |
| Uevent.Check | batquery.c:153-155 | one `if (prefix(key, line)) acc = read_number(&line)` makes at most one write and moves the cursor no further than the text; Uevent.CheckOnKeyLine gives the write and the move on a key line |
| Uevent.Step | batquery.c:150-159 | the two tests of one loop turn move the cursor no further than the text; Uevent.ResumeOverOtherLine, ResumeOverFirstKey, ResumeOverSecondKey and ResumeOverBothKeys give its writes line by line |
| Uevent.Scan | batquery.c:145-160 | the whole loop from both accumulators at 0; Uevent.ScanLastWins, ScanMissingKeyIsZero, ScanIgnoresFirstLine and ScanSingleLine state what it yields |
| Uevent.ReplayLastWins | batquery.c:154-158 | each accumulator ends with its last write, or its start value when nothing wrote to it |
| Uevent.ScanLastWins | batquery.c:145-160 | a scan yields, per field, the value of the last matching line, and 0 when no line matched |
| Uevent.ScanMissingKeyIsZero | batquery.c:145-160 | a field whose key starts no line after a `'\n'` is 0 |
| Uevent.ScanIgnoresFirstLine | batquery.c:148-151 | the first line is never tested: the scan of any first line plus the rest equals the scan of the rest |
| Uevent.ScanSingleLine | batquery.c:149 | a text without a `'\n'` yields 0 for both fields |
| Uevent.PrefixOfLine | batquery.c:153 | whether a key begins a line depends only on that line |
| Uevent.KeyLineOf | batquery.c:29-31 | a line starting with a key and ending in a `'\n'` has the key's `'='` as its first and that `'\n'` as the first after it |
| Uevent.CheckOnKeyLine | batquery.c:153-155 | testing a key line reads the number between the key and the line end, and moves the cursor past the line |
| Uevent.ResumeOverOtherLine | batquery.c:149-159 | a tested line with neither key changes nothing, and the loop goes on from its `'\n'` |
| Uevent.ResumeOverFirstKey | batquery.c:153-159 | a first-key line overwrites the first field; the next line is tested against the second key only, within the same turn |
| Uevent.ResumeOverSecondKey | batquery.c:157-159 | a second-key line overwrites the second field, and the cursor moves past it |
| Uevent.ResumeOverBothKeys | batquery.c:153-159 | a first-key line directly followed by a second-key line sets both fields in one turn |
| Uevent.ResumeOverLastLine | batquery.c:149 | with the cursor in a final line that ends in the text's last `'\n'`, the scan adds no writes: the turn that finds that `'\n'` has nothing left to test |
| Uevent.ResumeOverUnterminatedKey | batquery.c:30-34 | a tested line that starts with either key and has no `'\n'` after it makes the scan undefined |
| Uevent.ResumeTurn | batquery.c:149-159 | one loop turn: the accumulators take the turn's writes, and the scan goes on where the turn left the cursor |
| UeventScan.TextEnds | batquery.c:141 | a buffer holding a NUL holds its C string followed by that NUL |
| UeventScan.Strchr | batquery.c:30-31 | the strchr loop over the buffer returns the first index of the character in the C string |
| UeventScan.PrefixAt | batquery.c:23-25 | the comparison loop returns whether the C string at the cursor begins with the key |
| UeventScan.ReadBetween | batquery.c:33-37 | writing the NUL, reading and restoring the `'\n'` leaves the buffer as it was and yields the number between `'='` and `'\n'` |
| UeventScan.ReadNumberAt | batquery.c:29-41 | read_number on the buffer leaves it unchanged, and returns the value and new cursor that ReadNumber specifies |
| UeventScan.TestKey | batquery.c:153-159 | one `if (prefix(...)) acc = read_number(&line)` does what Check specifies, and keeps the accumulator when there is no match |
| UeventScan.TestBoth | batquery.c:150-159 | the two tests of a loop turn do what Step specifies |
| UeventScan.ScanUevent | batquery.c:145-160 | the loop leaves the buffer unchanged and returns what Scan specifies for its C string |
| UeventScan.ReadUevent | batquery.c:140-160 | reading into the stack buffer and scanning it gives the Scan of the text the buffer holds |
| Capacity.Stored | batquery.c:101 | fread stores three bytes, or all the file has when it is shorter |
| Capacity.CapacityBuffer | batquery.c:98-101 | the buffer holds the file's first bytes, then the stale bytes, with the NUL at index 3 |
| Capacity.TrimLastNewline | batquery.c:103-109 | the trim changes at most one byte: the last `'\n'` becomes a NUL, and a buffer with no `'\n'` is unchanged |
| Capacity.TrimLastNewlineInPlace | batquery.c:104-109 | the loop from index 3 down to 0 does that trim in place |
| Capacity.Percent | batquery.c:111-120 | it fails exactly when the trimmed text is empty, and then only with "no readable content"; the value lies strictly between -1000 and 1000 |
| Capacity.ReadInto | batquery.c:101 | fread stores the file's first bytes and leaves the rest of the buffer |
| Capacity.GetBatteryPercent | batquery.c:97-121 | get_battery_percent over an array returns what Percent specifies for the buffer as read |
| Capacity.PercentOfDigits | batquery.c:97-121 | a file of one to three digits and a newline reads as the digits' value, whatever the stale bytes |
| Capacity.PercentOfNewline | batquery.c:111-113 | a file holding only a newline has no readable content, unless a stale byte is a second newline |
| Capacity.PercentOfTwoNewlines | batquery.c:103-116 | a file of two newlines reads as 0, whatever the stale bytes |
| Capacity.PercentOfSpace | batquery.c:111-116 | a file of a space and a newline reads as 0 |
| Capacity.StatusByte | batquery.c:125-128 | the status byte is the file's first byte when there is one |
| Capacity.IsCharging | batquery.c:131-135 | charging holds exactly when the first byte of the status file is `'C'` |
| Capacity.StatusWords | batquery.c:131-135 | "Charging" counts as charging; "Discharging", "Not charging", "Full" and "Unknown" do not |
| Metrics.Watts | batquery.c:162-165 | the discharge rate times 10^12 is the product of micro-volts and micro-amps |
| Metrics.WattsExample | batquery.c:162-165 | 12000000 µV at 500000 µA is 6 W |
| Metrics.WattHours | batquery.c:192-196 | the capacity times 10^12 is the product of micro-amp-hours and micro-volts |
| Metrics.HoursRemaining | batquery.c:242 | the time is undefined exactly when the rate is 0, and otherwise times the rate gives the capacity |
| Metrics.Truncate | batquery.c:304-305 | truncation toward zero is the floor for non-negative values, and within one above the value for negative ones |
| Metrics.FracPart | batquery.c:304 | fmod(t, 1) has the sign of t, is less than 1 in magnitude, and leaves an integer when subtracted |
| Metrics.HoursMinutes | batquery.c:304-306 | hours * 60 + minutes is the time in whole minutes, rounded down; a non-negative time has minutes 0..59 |
| Metrics.HoursMinutesExamples | batquery.c:304-306 | 2.5 h is 2 h 30 min, 0.75 h is 0 h 45 min, 1 h is 1 h 0 min |
| Icon.CodePoint | batquery.c:252-286 | every glyph is a code point in U+F0079..U+F0084 |
| Icon.GlyphCharInjective | batquery.c:252-286 | distinct glyphs print as distinct characters |
| Icon.Fill | batquery.c:254-287 | every glyph except the charging one shows a multiple of ten between 0 and 100 |
| Icon.Band | batquery.c:254-287 | the band of a percentage is a multiple of ten between 0 and 100 |
| Icon.SelectIcon | batquery.c:250-287 | the if-else ladder of percent mode; Icon.ChargingWins, SelectIconShowsBand, SelectIconMonotone and Thresholds state which glyph it selects |
| Icon.ChargingWins | batquery.c:251-253 | charging selects the charging glyph, U+F0084, whatever the percentage |
| Icon.SelectIconShowsBand | batquery.c:254-287 | off the charger, the glyph shows the percentage rounded down to tens and kept within 0..100 |
| Icon.SelectIconMonotone | batquery.c:254-287 | a higher percentage never selects an emptier glyph |
| Icon.Thresholds | batquery.c:254-287 | the thresholds are inclusive: 100 and 250 are full, 99 and 90 are 90, 89 is 80, 10 is 10, and 9 and -5 are alert |
| Format.PercentLine | batquery.c:249-293 | with `-i` the line is the glyph, a space, the number and `'%'`; without it, the number alone |
| Format.PercentLineReadsBack | batquery.c:288-293 | the printed number reads back as the percentage, and `'%'` appears exactly when `-i` is given |
| Format.DischargeLine | batquery.c:295-300 | the line is the rate to two decimals, followed by " W" exactly when `-i` is given |
| Format.TimeLine | batquery.c:302-324 | the line is one piece; with `-i` it is a wording that reads back as the hours and minutes of the time, and without `-i` it is the hours to two decimals |
| Format.TimeLineReadsBack | batquery.c:302-321 | what the `-i` time line reads back as is the time in whole minutes, rounded down, and whole hours and 0..59 minutes for a time that is not negative |
| Format.Clause | batquery.c:307-321 | a clause is empty exactly when its count is 0, and ends in 's' exactly when its count is more than 1 |
| Format.Wording | batquery.c:303-321 | the wording is empty exactly when both counts are 0; a zero clause is omitted, so with no hours the wording is the minutes clause alone and with no minutes the hours clause alone, with no space |
| Format.ClauseWords | batquery.c:307-321 | a clause is two words, the number and its unit |
| Format.ParseWordingRoundTrip | batquery.c:303-321 | reading the wording back gives the hours and minutes it was made from |
| Format.WordingTwoPlurals | batquery.c:307-321 | 2 hours and 30 minutes print as "2 hours 30 minutes" |
| Format.WordingTwoSingulars | batquery.c:307-321 | a count of one takes the singular: "1 hour 1 minute" |
| Format.WordingMinutesOnly | batquery.c:307-321 | with no hours only the minutes clause is printed, with no leading space: "45 minutes" |
| Format.WordingHoursOnly | batquery.c:307-321 | with no minutes only the hours clause is printed, with no trailing space: "3 hours" |
| Shell.JoinAsWritten | batquery.c:69-80 | the path as the code builds it, undefined for an empty directory or a path longer than 256 characters; Shell.JoinAgrees, JoinOverflows, JoinEmptyDirectory and ReadFileAsWritten state how it relates to the corrected join |
| Shell.JoinPath | batquery.c:66-80 | the full path never exceeds PATH_MAX = 256 characters |
| Shell.JoinPathParts | batquery.c:69-80 | a path that fits is the directory, exactly one '/', and the file name; one that does not fit is that joined path cut to 256 characters |
| Shell.JoinAgrees | batquery.c:69-80 | wherever the code as written is defined, it builds the path JoinPath builds, ending in the file name |
| Shell.JoinOverflows | batquery.c:69-80 | a 250-character directory joined with "uevent" overflows the buffer as written; the corrected join cuts it to 256 |
| Shell.JoinEmptyDirectory | batquery.c:73 | an empty directory is undefined as written; the corrected join gives "/uevent" |
| Shell.LastMode | batquery.c:212-220 | the mode is NoMode exactly when no mode option was given |
| Shell.FlagsOf | batquery.c:207-225 | the options are rejected exactly when one of them is not in "ipdt" |
| Shell.ParseFlags | batquery.c:207-225 | the getopt loop computes what FlagsOf specifies |
| Shell.LastModeWins | batquery.c:212-220 | a later mode option overrides every earlier one, and `-i` leaves the mode alone |
| Shell.ShowIconIffOption | batquery.c:209-211 | `show_icon` is set exactly when `-i` is among the accepted options |
| Shell.FlagExamples | batquery.c:207-225 | `-pdtp` selects percent mode, `-i` alone no mode, and `-ix` is rejected |
| Shell.Separator | batquery.c:73-74 | the separator is empty exactly when the directory is non-empty and ends in '/'; otherwise it is a single '/' |
| Shell.ReadFile | batquery.c:82-91 | a failed read ends the run with an error message and without the usage |
| Shell.ReadFileAsWritten | batquery.c:66-91 | wherever the code as written builds a path, the file read is the one at that path, and a missing or unreadable file is an error |
| Shell.Report | batquery.c:244-324 | the switch on the mode: no mode fails with the usage, the other modes print their lines; Shell.RunWithoutMode and the Format lemmas state what it prints |
| Shell.Main | batquery.c:201-243 | the options, the path operand and the four reads in main's order, stopping at the first failure; Shell.RunWithoutMode states that order for a missing capacity file |
| Shell.Run | batquery.c:201-331 | the outcome of a run; Shell.RunUnknownOption, RunWithoutPath and RunWithoutMode state its failures, and Shell.Batquery is proved to compute it |
| Shell.Batquery | batquery.c:201-331 | main over arrays, with the getopt loop and the scans as methods, has the outcome Run specifies (paths built with the corrected join, as "## Left out" states) |
| Shell.RunUnknownOption | batquery.c:221-224 | an option outside "ipdt" ends the run with the usage alone |
| Shell.RunWithoutPath | batquery.c:227-231 | with no operand the run fails with the usage and "args: battery_path not specified" |
| Shell.RunWithoutMode | batquery.c:236-247 | with no mode option the run never prints a reading; a missing capacity file is reported before the missing mode; when every read succeeds, the run fails with the usage and "args: mode flag not specified" |

## Left out

- Opening and reading files (`fopen`, `fread`, `ferror`, `fclose`): they are
  I/O. The file system is a map from paths to what a read gives.
- `get_battery_capacity_now` reopens `uevent`. Over a fixed file system, that
  second read is modelled as giving the same bytes; a file changing between
  the two reads is not modelled.
- `usage`, `pad` and the help text: output plumbing. The model records only
  whether the usage is printed.
- getopt's handling of argv (clustering, permutation, `--`): this is library
  behaviour. `Shell.Run` takes the option characters getopt returns and the
  operands after them.
- Uevent.ReadNumber: atof is modelled on integer text only (white space, a
  sign, digits). Fractions, exponents, hexadecimal, `inf` and `nan` are not
  read; the kernel writes these values as integers.
- Metrics.HoursMinutes: computed over exact reals. IEEE rounding in the
  divisions, `fmod` and `floor` is not modelled.
- Format.DischargeLine: the `%.2f` rendering is not modelled.
  `Format.Piece.TwoDecimals` carries the exact real.
- Format.TimeLine: same as above; `%.2f` is not rendered. Without `-i`, the
  infinity or NaN of a zero rate is `NonFinite`, whichever of `inf`, `-inf`
  or `nan` the C library prints.
- Shell.Run: builds every path with the corrected `Shell.JoinPath`. On the
  two inputs where the code as written is undefined (an empty path operand,
  and a joined path over 256 characters), the model reads the file at the
  corrected path rather than reporting `Undefined`. `Shell.ReadFileAsWritten`
  shows that everywhere else the two joins agree.
- Shell.Run: only the `int` conversion of the hours is bounds-checked. The
  `int` conversions of the minutes and of the percentage cannot overflow.
- The stale bytes are the same at every call of a given buffer. Nothing is
  assumed about their values.
- Exit codes: `Printed` means exit success; `Failed` means exit failure.

## Findings

| source | as written | input that shows it | evidently intended | confidence | as-written member | corrected member |
|---|---|---|---|---|---|---|
| batquery.c:69-80 | strncat appends the '/' and the file name to a 257-byte buffer without room checks. The joined path's NUL lands past the end once the path is longer than 256, so `full_file_path[PATH_MAX] = '\0'` cuts the string at 256 characters only after strncat has written past the buffer, too late to prevent the overflow | a 250-character directory without a trailing '/' and the file "uevent" (258 bytes with the NUL) | the joined path cut to PATH_MAX = 256 characters | high; not executed | Shell.JoinOverflows | Shell.JoinPath |
| batquery.c:73 | `battery_path[strlen(battery_path) - 1]` reads the byte before an empty path | the operand "" | an empty directory treated like one without a trailing '/', giving "/uevent" | medium; not executed | Shell.JoinEmptyDirectory | Shell.JoinPath |
