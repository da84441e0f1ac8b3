// What the decoder prints for each decoded record.
//
// A `View` holds the values one `printf` call of the tag's `case` receives,
// after the derived values are computed: activity codes as names, the
// summary duration corrected by one, the hex dumps as text. Timestamps
// stay as the epoch seconds handed to `GetGMTTime` (whose text is
// `Utc.GmtText`) or `GetLocalTime`, and floating-point fields as their raw
// 4 bytes.
module Render {
  import opened Bytes
  import opened Text
  import opened Records
  import opened HexDump

  /** `GetActivityType`: the name printed for an 8-bit activity code. */
  function ActivityName(activity: uint8): string
  {
    if activity == 0 then "Run"
    else if activity == 1 then "Cycle"
    else if activity == 2 then "Swim"
    else if activity == 7 then "Treadmill"
    else "Type " + Decimal(activity)
  }

  /**
   * The four known codes have their own names, and every other code is
   * printed as "Type " followed by its decimal value.
   */
  lemma {:induction false} ActivityNames(activity: uint8)
    ensures var name := ActivityName(activity);
      && ((name == "Run") <==> (activity == 0))
      && ((name == "Cycle") <==> (activity == 1))
      && ((name == "Swim") <==> (activity == 2))
      && ((name == "Treadmill") <==> (activity == 7))
      && (activity !in {0, 1, 2, 7} ==>
            && |name| > 5 && name[..5] == "Type "
            && AllDigits(name[5..]) && DecValue(name[5..]) == activity)
  {
    if activity !in {0, 1, 2, 7} {
      var name := ActivityName(activity);
      DecimalRoundTrip(activity);
      assert name[..5] == "Type " && name[5..] == Decimal(activity);
      assert name[1] == 'y';
    }
  }

  /** Different codes are printed as different names. */
  lemma {:induction false} ActivityNameInjective(a: uint8, b: uint8)
    requires ActivityName(a) == ActivityName(b)
    ensures a == b
  {
    ActivityNames(a);
    ActivityNames(b);
  }

  /** The lines one record is printed as. */
  datatype View =
    | HeaderLine(gmt: uint32, fileFormat: uint8, version: seq<uint8>)
    | LengthsIgnored
    | LapLine(gmt: uint32, lap: uint8, activity: string)
    | GpsFix(localTime: uint32, latitude: int32, longitude: int32, speed: uint16,
             gpsCalories: uint16, cycles: uint8, cumDistanceBits: seq<uint8>,
             incDistanceBits: seq<uint8>, heading: uint16)
    | GpsNoLock
    | R23Line(u1: uint16, u2: uint16, u3: uint8, dump: string)
    | HeartLine(gmt: uint32, bpm: uint8)
    | DumpLine(tag: uint8, dump: string)
    | SummaryLines(activity: string, distance: uint32, duration: uint32, calories: uint32)
    | TreadmillLine(gmt: uint32, distanceBits: seq<uint8>, calories: uint32, steps: uint32)
    | SwimLine(gmt: uint32, calories: uint32, unknownHex: string)
    | R35Line(b0: uint8, b1: uint8, localTime: uint32)
    | UnknownTagLine(tag: uint8, offset: nat)
    | Interrupted(text: string)
    | NeedFilename
    | OpenFailedLine(path: string)

  /**
   * Text a `case` prints before it reads its payload, so that a truncated
   * payload still leaves it on the output: the blank line opening a GPS
   * record and the label of a dumped tag.
   */
  function PrefixBeforeRead(tag: uint8): string
  {
    if tag == TagGps then "\n"
    else if tag == Tag26 then "Tag 0x26: "
    else if tag == Tag30 then "Tag 0x30: "
    else if tag == Tag37 then "Tag 0x37: "
    else ""
  }

  /** The GPS time value that means the watch had no satellite fix. */
  const NoFixTime: uint32 := 0xFFFF_FFFF

  /** The summary duration is stored one short; the 32-bit `+ 1` wraps. */
  function CorrectedDuration(raw: uint32): (d: uint32)
    ensures raw < 0xFFFF_FFFF ==> d == raw + 1
    ensures raw == 0xFFFF_FFFF ==> d == 0
  {
    (raw + 1) % 0x1_0000_0000
  }

  /** The `printf` arguments of each `case` of the tag switch. */
  function RecordView(r: Record): View
    requires WellFormed(r)
  {
    match r
    case Header(f, v, _, t, _) => HeaderLine(t, f, v)
    case RecordLengths(_) => LengthsIgnored
    case Lap(lap, activity, t) => LapLine(t, lap, ActivityName(activity))
    case Gps(lat, lon, heading, speed, t, cal, inc, cum, cycles) =>
      if t != NoFixTime then GpsFix(t, lat, lon, speed, cal, cycles, cum, inc, heading)
      else GpsNoLock
    case R23(u1, u2, u3, _) => R23Line(u1, u2, u3, Lines(Encode(r)))
    case HeartRate(rate, _, t) => HeartLine(t, rate)
    case Raw(tag, bytes) => DumpLine(tag, Lines(bytes))
    case Summary(a, d, dur, c) => SummaryLines(ActivityName(a % 0x100), d, CorrectedDuration(dur), c)
    case Treadmill(t, dist, c, steps, _) => TreadmillLine(t, dist, c, steps)
    case Swim(t, u, c) => SwimLine(t, c, Tokens(u) + "\n")
    case R35(u, t) => R35Line(u[0], u[1], t)
  }

  /** A 32-bit little-endian field is all ones exactly when its four bytes are. */
  lemma {:induction false} AllOnes(p: seq<uint8>, o: nat)
    requires o + 4 <= |p|
    ensures U32(p, o) == 0xFFFF_FFFF <==> p[o..o + 4] == [0xFF, 0xFF, 0xFF, 0xFF]
  {
    if p[o..o + 4] == [0xFF, 0xFF, 0xFF, 0xFF] {
      assert p[o] == 0xFF && p[o + 1] == 0xFF && p[o + 2] == 0xFF && p[o + 3] == 0xFF;
    }
  }

  /**
   * A GPS payload prints "No GPS lock" exactly when its time bytes 12..15
   * are all ones; otherwise it prints a fix with every raw field taken
   * from its struct offset.
   */
  lemma {:induction false} GpsSentinel(p: seq<uint8>)
    requires |p| == GpsSize
    ensures RecordView(Decode(TagGps, p)) == GpsNoLock <==> p[12..16] == [0xFF, 0xFF, 0xFF, 0xFF]
    ensures p[12..16] != [0xFF, 0xFF, 0xFF, 0xFF] ==>
      var v := RecordView(Decode(TagGps, p));
      && v.GpsFix?
      && v.localTime == U32(p, 12) && v.latitude == I32(p, 0) && v.longitude == I32(p, 4)
      && v.heading == U16(p, 8) && v.speed == U16(p, 10)
      && v.gpsCalories == U16(p, 16) && v.cycles == p[26]
      && v.incDistanceBits == p[18..22] && v.cumDistanceBits == p[22..26]
  {
    AllOnes(p, 12);
  }

  /**
   * The summary prints the name of the low byte of the 32-bit activity type,
   * which is payload byte 0, and the stored duration plus one modulo 2^32.
   */
  lemma {:induction false} SummaryView(p: seq<uint8>)
    requires |p| == SummarySize
    ensures var v := RecordView(Decode(TagSummary, p));
      && v.activity == ActivityName(p[0])
      && v.distance == U32(p, 4) && v.calories == U32(p, 12)
      && v.duration == (U32(p, 8) + 1) % 0x1_0000_0000
      && (v.duration == 0 <==> p[8..12] == [0xFF, 0xFF, 0xFF, 0xFF])
  {
    AllOnes(p, 8);
    assert U32(p, 0) % 0x100 == p[0] by {
      assert U32(p, 0) % 0x1_0000 == U16(p, 0);
    }
  }

  /**
   * The header, lap, heart-rate and swim lines print the fields at their
   * struct offsets: header format at byte 0, version at 1..4, timestamp at
   * 7..10; lap index at 0, activity at 1, time at 2..5; heart rate at 0,
   * time at 2..5; swim time at 0..3, calories at 18..21.
   */
  lemma {:induction false} FieldOffsets(p: seq<uint8>)
    ensures |p| == HeaderSize ==>
      RecordView(Decode(TagHeader, p)) == HeaderLine(U32(p, 7), p[0], p[1..5])
    ensures |p| == LapSize ==>
      RecordView(Decode(TagLap, p)) == LapLine(U32(p, 2), p[0], ActivityName(p[1]))
    ensures |p| == HeartRateSize ==>
      RecordView(Decode(TagHeartRate, p)) == HeartLine(U32(p, 2), p[0])
    ensures |p| == SwimSize ==>
      RecordView(Decode(TagSwim, p)).gmt == U32(p, 0) && RecordView(Decode(TagSwim, p)).calories == U32(p, 18)
  {
  }

  /** The 0x23 dump shows exactly the 19 payload bytes (the struct's memory). */
  lemma {:induction false} R23DumpsPayload(p: seq<uint8>)
    requires |p| == R23Size
    ensures RecordView(Decode(TagR23, p)).dump == Lines(p)
    ensures Undump(RecordView(Decode(TagR23, p)).dump) == Some(p)
  {
    EncodeDecode(TagR23, p);
    UndumpLines(p);
  }

  /** The swim line shows the 14 unknown bytes 4..17 on one line. */
  lemma {:induction false} SwimHexIsUnknownBytes(p: seq<uint8>)
    requires |p| == SwimSize
    ensures RecordView(Decode(TagSwim, p)).unknownHex == Lines(p[4..18])
    ensures Undump(RecordView(Decode(TagSwim, p)).unknownHex) == Some(p[4..18])
  {
    UndumpLines(p[4..18]);
  }
}
