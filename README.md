# ttbin decoder model

A Dafny model of `ttbin.c`, the dumper for TomTom `.ttbin` activity logs.
The program reads a file as a stream of records. Each record is one tag
byte followed by a payload whose length is fixed by the tag. For each
record it prints its text, built from the payload's packed C struct, or a
hex dump for tags whose layout is unknown. Most records print one line;
the summary prints five, a GPS record is framed by blank lines, and the
0x23 and swim records print a line followed by a hex dump or hex row.
It stops:

- with status 0 at the end of the file;
- with `exit(-1)` when a payload comes up short;
- never for an unknown tag, which is reported with its offset and skipped
  one byte at a time.

The model's modules follow the program's parts:

- `Bytes` (bytes.dfy): the fixed-width integers. The little-endian field
  reads that the packed structs perform on an x86 host, and their
  inverses.
- `Text` (text.dfy): the decimal text of `%i`, the zero-padded fields of
  `%F %T`, and the two hex digits of `%02X`.
- `Records` (records.dfy): the tags, the struct layouts and the payload
  size of every tag. `Decode` reads a payload into a `Record`; `Encode`
  writes one back. Both round trips are proved.
- `HexDump` (hexdump.dfy):
  - `Dump` and `ReadAndDump`'s byte loop, as the imperative method
    `HexDump.Dump`, proved to print `Lines`: the 32-tokens-per-line layout;
  - the swim record's one-row loop, as `DumpRow`;
  - the line count and length of a dump;
  - `Undump`, which reads a dump back to its bytes.
- `Utc` (utc.dfy): `GetGMTTime`.
  - `ToUtc` does the year and month walk from 1970.
  - `GmtText` is the `%F %T` text.
  - Both directions are proved against the formula of POSIX.1-2017 Base
    Definitions section 4.16, "Seconds Since the Epoch".
- `Render` (render.dfy): `GetActivityType`, and the `View`: the values
  each `case` of the switch hands to `printf`. This includes the GPS
  "no lock" sentinel, the summary's `duration + 1` and the byte truncation
  of the summary's activity type.
- `Pump` (pump.dfy): the `FILE*` as the class `Stream`, with the constant
  `data` and the mutable `pos`. Its methods `ReadTag`, `ReadStruct` and
  `ReadAndDump` advance `pos` as `fread` does.
  - The loop body is `Advance`; the `while` loop is `Run`.
  - Both are proved to compute the reference function `Pass`, step by step
    via `Next`.
  - `Pass` is shown to be the unique solution of `Tiles`, a declarative
    statement of a correct run.
  - A run ending in `Done` reassembles the file. Conversely, any sequence
    of parsable records written out reads back as that sequence.
  - `Launch` is `main`: the argument and `fopen` outcomes, then the loop,
    then the exit status.

Details of the code that the model keeps:

- Payload sizes are the `sizeof` of the packed structs: header 116,
  GPS 27, heart rate 6, swim 22 (ttbin.c:7-87).
- An unknown tag is reported at `ftell(f) - 1`, the offset of the tag byte
  itself (ttbin.c:288).
- Tags 0x22, 0x26, 0x30 and 0x37 print something before they read their
  payload, so a truncated payload still leaves that text on the output.
  The model shows this as `Interrupted(PrefixBeforeRead(tag))` at the end
  of `Output`; for the other tags nothing is appended.

## Model

| member | source | states |
|---|---|---|
| Bytes.U16 | ttbin.c:7-87 | a 16-bit field is its low byte plus 256 times its high byte (little-endian) |
| Bytes.U32 | ttbin.c:7-87 | a 32-bit field is two little-endian 16-bit halves, low half first |
| Bytes.I32 | ttbin.c:24-26 | an `int32_t` field is the two's-complement reading of the 32-bit pattern at its offset |
| Bytes.ToSigned32 | ttbin.c:24-26 | the signed value is negative exactly when the top bit is set, and is congruent to the pattern mod 2^32 |
| Bytes.FromSigned32 | ttbin.c:24-26 | the bit pattern of a signed value is that value mod 2^32 |
| Bytes.Le16 | ttbin.c:7-87 | writing a 16-bit value gives two bytes that read back as the value |
| Bytes.Le32 | ttbin.c:7-87 | writing a 32-bit value gives four bytes that read back as the value |
| Bytes.LeI32 | ttbin.c:24-26 | writing a signed 32-bit value gives four bytes that read back as the value |
| Bytes.Le16OfU16 | ttbin.c:7-87 | re-encoding a read 16-bit field gives back the two bytes it was read from |
| Bytes.Le32OfU32 | ttbin.c:7-87 | re-encoding a read 32-bit field gives back its four bytes |
| Bytes.LeI32OfI32 | ttbin.c:24-26 | re-encoding a read signed field gives back its four bytes |
| Bytes.U16At | ttbin.c:7-87 | a 16-bit field depends only on the two bytes at its offset |
| Bytes.U32At | ttbin.c:7-87 | a 32-bit field depends only on the four bytes at its offset |
| Text.DigitChar | ttbin.c:110 | the digit character of d has value d |
| Text.Decimal | ttbin.c:110 | the `%i` text of a non-negative number is a non-empty digit string with no leading zero |
| Text.DecimalRoundTrip | ttbin.c:110 | reading the decimal text of n back gives n |
| Text.DecimalInjective | ttbin.c:110 | distinct numbers have distinct decimal texts |
| Text.Pad2 | ttbin.c:118 | a two-digit field of `%F %T` is two digits whose value is n |
| Text.Pad4 | ttbin.c:118 | the year of `%F` is four digits whose value is n |
| Text.HexValue | ttbin.c:140 | a hex digit is worth less than 16 |
| Text.HexChar | ttbin.c:140 | the upper-case hex digit of d is worth d |
| Text.Hex2 | ttbin.c:140 | `%02X` of a byte is two upper-case hex digits worth 16 times the first plus the second, which is the byte |
| Records.KnownTags | ttbin.c:191-286 | exactly the thirteen tags of the switch are recognised, with payload sizes 116, 69, 6, 27, 19, 6, 6, 16, 2, 18, 22, 6 and 1 |
| Records.PayloadSize | ttbin.c:191-286 | the `sizeof` each `case` reads; it has no contract of its own, and `KnownTags` states its table |
| Records.DumpSize | ttbin.c:240-285 | the byte counts 6, 2 and 1 that the 0x26, 0x30 and 0x37 `case`s pass to `ReadAndDump`; it has no contract of its own, and `KnownTags` states them as the payload sizes of those tags |
| Records.Decode | ttbin.c:7-87 | decoding a payload of the tag's size gives a record of that tag whose byte groups have their struct widths |
| Records.Encode | ttbin.c:7-87 | the bytes of a well-formed record have the payload size of its tag |
| Records.EncodeDecode | ttbin.c:7-87 | decoding loses no byte: every payload of the right size is written back exactly |
| Records.HeaderBytes | ttbin.c:7-13 | a header payload is written back exactly |
| Records.GpsBytes | ttbin.c:24-34 | a GPS payload is written back exactly |
| Records.SummaryBytes | ttbin.c:56-61 | a summary payload is written back exactly |
| Records.TreadmillBytes | ttbin.c:64-70 | a treadmill payload is written back exactly |
| Records.DecodeEncode | ttbin.c:7-87 | every well-formed record, encoded at its field offsets and decoded under its own tag, comes back unchanged |
| Records.HeaderFields | ttbin.c:7-13 | format at byte 0, version at 1..4, unknown at 5..6 and timestamp at 7..10 decode back to the same header |
| Records.GpsFields | ttbin.c:24-34 | every GPS field encoded at its offset decodes back to the same value |
| Records.SummaryFields | ttbin.c:56-61 | the four 32-bit summary fields decode back from offsets 0, 4, 8 and 12 |
| Records.TreadmillFields | ttbin.c:64-70 | the treadmill fields decode back from their offsets |
| HexDump.Token | ttbin.c:140 | a dumped byte takes three characters |
| HexDump.TokenDigits | ttbin.c:140 | a token is a space and two upper-case hex digits that spell the byte |
| HexDump.Dump | ttbin.c:150-160 | the loop of `Dump` prints exactly the 32-tokens-per-line layout `Lines` of its bytes |
| HexDump.DumpRow | ttbin.c:269-272 | the swim loop prints the tokens of its bytes and one newline, which is the dump layout for up to 32 bytes |
| HexDump.TokensSnoc | ttbin.c:151-156 | the tokens of one more byte are the old tokens followed by that byte's token |
| HexDump.PrintedSnoc | ttbin.c:151-156 | one more pass of the loop adds the byte's token and a newline after every 32nd byte |
| HexDump.PrintedLines | ttbin.c:157-159 | the loop's output plus a final newline when `size % 32 != 0` is the dump layout |
| HexDump.TokensShape | ttbin.c:151-156 | the tokens of n bytes take 3n characters and contain no newline |
| HexDump.LinesShape | ttbin.c:150-160 | a dump of n bytes has ceil(n / 32) newlines and 3n + ceil(n / 32) characters |
| HexDump.UndumpTokens | ttbin.c:151-156 | the tokens of a byte sequence read back as that sequence in front of whatever follows |
| HexDump.UndumpLines | ttbin.c:150-160 | a dump reads back exactly as the dumped bytes |
| Utc.DaysBeforeMonthTable | ttbin.c:115-122 | the days before each month are the common-year table, plus one after February in a leap year |
| Utc.DaysBeforeMonthBound | ttbin.c:115-122 | every month ends inside its year, and December ends on its last day |
| Utc.Div4Step | ttbin.c:115-122 | the 4-year term of the POSIX formula grows by one exactly at years divisible by 4 |
| Utc.Div100Step | ttbin.c:115-122 | the 100-year term grows by one exactly at years divisible by 100 |
| Utc.Div400Step | ttbin.c:115-122 | the 400-year term grows by one exactly at years divisible by 400 |
| Utc.LeapDaysStep | ttbin.c:115-122 | the leap-day terms of the POSIX formula grow by one exactly after a Gregorian leap year |
| Utc.DaysSinceEpochClosed | ttbin.c:115-122 | counting year lengths from 1970 gives 365 per year plus the leap-day terms of the POSIX formula |
| Utc.DaysSinceEpochGrows | ttbin.c:115-122 | each year since 1970 adds at least 365 days |
| Utc.DaysSinceEpochMonotone | ttbin.c:115-122 | later years start later |
| Utc.YearOf | ttbin.c:115-122 | the year search returns a year no earlier than its start and a day inside that year, at the same distance from 1970 |
| Utc.MonthOf | ttbin.c:115-122 | the month search returns a month and a day inside that month, at the same day of the year |
| Utc.ToUtc | ttbin.c:115-122 | `gmtime` of any non-negative second count is a valid UTC date and time |
| Utc.ToUtcIsPosix | ttbin.c:115-122 | the POSIX formula maps `ToUtc(s)` back to s |
| Utc.PosixIsToUtc | ttbin.c:115-122 | every valid UTC time from 1970 on is `ToUtc` of its POSIX seconds, so the conversion is a bijection |
| Utc.DaysToUtc | ttbin.c:115-122 | `ToUtc` maps the days and the second of the day of a valid time back to it |
| Utc.ToUtcParts | ttbin.c:115-122 | whole days and the second of the day split back into the date and the clock fields |
| Utc.YearFound | ttbin.c:115-122 | the year search finds the year of a valid time |
| Utc.MonthFound | ttbin.c:115-122 | the month search finds the month and day of a valid time |
| Utc.YearOfDays | ttbin.c:115-122 | a day count built from a year and a day of it is found again by the search from 1970 |
| Utc.YearOfEpochDays | ttbin.c:115-122 | the same from any start year up to that year |
| Utc.YearOfBack | ttbin.c:115-122 | starting the year search one year earlier finds the same year |
| Utc.MonthOfYday | ttbin.c:115-122 | a day of the year built from a month and a day is found again by the search from January |
| Utc.MonthOfDays | ttbin.c:115-122 | the same from any start month up to that month |
| Utc.MonthOfHere | ttbin.c:115-122 | a day inside the start month is found in it |
| Utc.MonthOfBack | ttbin.c:115-122 | starting the month search one month earlier finds the same month |
| Utc.PosixSplit | ttbin.c:115-122 | the POSIX formula is whole days since the epoch times 86400 plus the second of the day |
| Utc.TimeOfDay | ttbin.c:115-122 | an hour, minute and second are recovered from the second of the day |
| Utc.ToUtcYearBound | ttbin.c:115-122 | a 32-bit timestamp falls between 1970 and 2106, so `%Y` has four digits |
| Utc.GmtText | ttbin.c:115-122 | the `%F %T` text is 19 characters long, so `strftime` never returns 0 and the `""` fallback is unreachable |
| Utc.GmtTextFields | ttbin.c:115-122 | the text holds the year, month, day, hour, minute and second of `ToUtc` as digits at the fixed columns of `%F %T`, with the separators between them |
| Render.ActivityName | ttbin.c:102-113 | `GetActivityType`; it has no contract of its own, and `ActivityNames` and `ActivityNameInjective` state it |
| Render.ActivityNames | ttbin.c:102-113 | 0, 1, 2 and 7 (and only they) are named Run, Cycle, Swim and Treadmill; every other code is "Type " and digits worth the code |
| Render.ActivityNameInjective | ttbin.c:102-113 | different codes get different names |
| Render.PrefixBeforeRead | ttbin.c:211-284 | what a `case` prints before its read: the newline of 0x22 and the labels of 0x26, 0x30 and 0x37, and nothing for the other tags; it has no contract of its own, and `Run` places it in front of a failed read |
| Render.RecordView | ttbin.c:192-285 | the values each `case`'s `printf` receives; it has no contract of its own, and `GpsSentinel`, `SummaryView`, `FieldOffsets`, `R23DumpsPayload`, `SwimHexIsUnknownBytes` and `DumpView` state which payload bytes each one shows |
| Render.CorrectedDuration | ttbin.c:250 | the printed duration is the stored one plus one, wrapping to 0 at 2^32 - 1 |
| Render.AllOnes | ttbin.c:214 | a 32-bit field equals 0xFFFFFFFF exactly when its four bytes are 0xFF |
| Render.GpsSentinel | ttbin.c:214-224 | a GPS record prints "No GPS lock" exactly when bytes 12..15 are all 0xFF; otherwise it prints a fix whose time, position, heading, speed, calories, cycles and distance bytes are the fields at their offsets |
| Render.SummaryView | ttbin.c:245-251 | the summary names the activity by payload byte 0 (the low byte of the 32-bit type), prints the distance and the calories, and prints the duration plus one mod 2^32, which is 0 exactly when the stored bytes are all 0xFF |
| Render.FieldOffsets | ttbin.c:192-268 | the header line prints the timestamp at bytes 7..10, the format at byte 0 and the version at 1..4; the lap line prints the time at 2..5, the index at 0 and the name of the activity at 1; the heart line prints the time at 2..5 and the rate at 0; the swim line prints the time at 0..3 and the calories at 18..21 |
| Render.R23DumpsPayload | ttbin.c:228-231 | the 0x23 dump shows exactly the 19 payload bytes, and reads back to them |
| Render.SwimHexIsUnknownBytes | ttbin.c:265-272 | the swim row shows exactly the 14 unknown bytes 4..17, and reads back to them |
| Pump.Stream.constructor | ttbin.c:168-172 | an opened file starts at position 0 |
| Pump.Stream.ReadTag | ttbin.c:187-190 | a tag read takes the byte at the position and advances by one, or finds the end of the file and moves nothing |
| Pump.Stream.ReadStruct | ttbin.c:89-94 | a full read returns exactly the next `size` bytes and advances by `size`; a short one fails and leaves the stream at its end |
| Pump.Stream.ReadAndDump | ttbin.c:133-148 | the same read, and on success the printed text is the dump layout of exactly those bytes |
| Pump.PayloadView | ttbin.c:191-286 | what a recognised tag's `case` prints for its payload; it has no contract of its own, and `DumpView` and `ReadRecord` state it |
| Pump.DumpView | ttbin.c:240-285 | each dumped tag (0x26, 0x30 and 0x37) prints its label and the dump of its payload |
| Pump.StepView | ttbin.c:191-289 | what one step prints: a recognised tag's view, or the `default:` line with the tag and the offset of the tag byte itself (`ftell(f) - 1`); it has no contract of its own, and `UnknownTagReported` states the `default:` case |
| Pump.Next | ttbin.c:186-291 | one pass of the loop consumes at least one byte, starts at the tag byte, and yields a payload of the tag's size |
| Pump.NextUnknown | ttbin.c:287-289 | an unrecognised tag is a step of its own byte, and the loop goes on at the next byte |
| Pump.NextKnown | ttbin.c:191-286 | a recognised tag with room takes the tag byte and exactly its payload size |
| Pump.NextShort | ttbin.c:89-94 | a recognised tag without room for its payload ends the loop as a short read at the tag's offset |
| Pump.Pass | ttbin.c:186-291 | the loop run to its end, as a value; it has no contract of its own, and `Run`, `PassTiles`, `TilesArePass` and `DoneReassembles` state it |
| Pump.PassCons | ttbin.c:186-291 | a run that starts with a step is that step followed by the run after it |
| Pump.PassEnds | ttbin.c:186-190 | at the end of the file the run ends in `Done`; in a short read it ends in `Fatal`, with no further step |
| Pump.ViewsSnoc | ttbin.c:186-291 | the views of one more step are the old ones and that step's view |
| Pump.PassWellFormed | ttbin.c:186-291 | every payload of a run has its tag's size |
| Pump.Show | ttbin.c:191-286 | the imperative `case` bodies, including the two byte loops, print the view of the decoded record |
| Pump.ReadRecord | ttbin.c:191-286 | a recognised tag's `case` reads exactly its payload and prints its view, or fails and leaves the position at the end of the file |
| Pump.Advance | ttbin.c:186-291 | one pass of the loop body does what `Next` says and prints that step's view; at the end of the file the position stays put, and after a short read it is the file's end |
| Pump.AdvanceKnown | ttbin.c:191-286 | after the byte of a recognised tag, the rest of the loop body does what `Next` says from that byte: on a step the position is the step's end and the step's view is printed; on a short read the position is the end of the file and nothing is printed; it never reports the end of the file |
| Pump.Extend | ttbin.c:186-291 | one more step keeps the loop invariant of `Run` |
| Pump.Run | ttbin.c:186-291 | the loop produces exactly the steps and outcome of `Pass`, and prints their views followed by the text, if any, printed before a failed read |
| Pump.Output | ttbin.c:186-291 | what the loop prints, as a value: the views of the steps, then the non-empty text a failed `case` printed before its read; it has no contract of its own, and `Run` states that the loop prints it |
| Pump.Consumption | ttbin.c:191-289 | a recognised tag consumes one byte plus its struct size; an unrecognised one consumes one byte; the bytes consumed are exactly the step's tag and payload |
| Pump.UnknownTagReported | ttbin.c:287-289 | an unknown tag is reported with its value and the offset of the tag byte itself, and only that byte is consumed |
| Pump.PassTiles | ttbin.c:186-291 | `Pass` is a correct run in the sense of `Tiles` |
| Pump.TilesStep | ttbin.c:186-291 | a step in front of a correct run of the rest is a correct run |
| Pump.TilesArePass | ttbin.c:186-291 | any correct run is the run `Pass` produces, so the run is determined by the file |
| Pump.DoneReassembles | ttbin.c:186-291 | a run that ends in `Done` reassembles the bytes it went through, so nothing is skipped |
| Pump.ReassembledParses | ttbin.c:186-291 | parsable records written out read back as the same records and end in `Done` |
| Pump.ParsesBack | ttbin.c:186-291 | if the file after one record reads back, so does the file with it |
| Pump.NextOfReassembled | ttbin.c:186-291 | the first record written out is the first step read back |
| Pump.ExitStatus | ttbin.c:186-293 | the status is 0 exactly for a clean end and -1 exactly for a short read |
| Pump.Launch | ttbin.c:162-293 | without a file name, or when the file does not open, the program prints that and returns -1; otherwise it prints the run's views and returns its exit status |

## Left out

- Floating-point rendering (GPS latitude, longitude, speed and heading
  scaling; the `float` distances of GPS and treadmill records). These
  fields are kept as their raw integers or their four raw bytes.
- The GPS `printf` passes its arguments in an order that does not match its
  format, which is undefined behaviour. `GpsFix` keeps every field by name
  instead of modelling what gets printed.
- `GetLocalTime` depends on the process time zone. The GPS and 0x35 views
  keep the epoch seconds they pass to it.
- `GetGMTTime` is modelled by `Utc.GmtText`. The views keep the seconds
  they hand to it, rather than the text, so that the loop's proof does not
  carry the calendar.
- `printf`'s text around the values (labels, `%04X` field widths, `%i`
  printing a `uint32_t` as signed) is not modelled. A `View` holds the
  values each `printf` receives, and the hex dumps are modelled to the
  character.
- `perror`'s message and what goes to standard error are not modelled.
  The `argc` check and `fopen` become the three cases of `Invocation`.
- The static buffers returned by `GetActivityType`, `GetGMTTime` and
  `GetLocalTime`, and the reused struct buffers of `main`, are not
  modelled. Functions return fresh values instead.
- Utc.ToUtc: `time_t` is taken to be 64 bits wide, so `time_t tt =
  seconds;` (ttbin.c:116) keeps every `uint32_t` value. On a host with a
  32-bit `time_t` (glibc on i386 by default), seconds from 2^31 on become
  negative and `gmtime` gives dates from 1901 to 1969; `ToUtcYearBound`'s
  range 1970..2106 holds only for the 64-bit case.
- `Pump.Run`: `while (!feof(f))` is modelled as `while (true)`. `feof`
  only turns true after a read has failed, and every failed read leaves
  the loop first.
- `Pump.Stream` is an error-free, binary (POSIX) read of a regular file.
  An I/O error on a tag read would make `fread(...) < 1` end the run with
  status 0, like the end of the file (ttbin.c:187-188), and one on a
  payload read would end it with -1. `fopen(argv[1], "r")` (ttbin.c:168)
  reads bytes unchanged only on POSIX systems.
- `Pump.ExitStatus`: `-1` is the value given to `exit` and `return`, not
  the 255 that a POSIX parent process sees.
