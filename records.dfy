// The packed record layouts of ttbin.c and the decoding of one payload.
//
// Each recognised tag is followed by a payload whose length is the size of a
// packed struct. Decoding reads each field little-endian at its fixed offset;
// encoding writes the fields back at the same offsets. Fields the decoder
// keeps but never interprets (unknown bytes, IEEE-754 floats) stay raw bytes.
module Records {
  import opened Bytes

  const TagHeader: uint8 := 0x20
  const TagRecordLengths: uint8 := 0x16
  const TagLap: uint8 := 0x21
  const TagGps: uint8 := 0x22
  const TagR23: uint8 := 0x23
  const TagHeartRate: uint8 := 0x25
  const Tag26: uint8 := 0x26
  const TagSummary: uint8 := 0x27
  const Tag30: uint8 := 0x30
  const TagTreadmill: uint8 := 0x32
  const TagSwim: uint8 := 0x34
  const TagR35: uint8 := 0x35
  const Tag37: uint8 := 0x37

  // Struct sizes, field width by field width.
  const HeaderSize: nat := 1 + 4 + 2 + 4 + 105
  const RecordLengthsSize: nat := 69
  const LapSize: nat := 1 + 1 + 4
  const GpsSize: nat := 4 + 4 + 2 + 2 + 4 + 2 + 4 + 4 + 1
  const R23Size: nat := 2 + 2 + 1 + 4 + 4 + 2 + 4
  const HeartRateSize: nat := 1 + 1 + 4
  const SummarySize: nat := 4 + 4 + 4 + 4
  const TreadmillSize: nat := 4 + 4 + 4 + 4 + 2
  const SwimSize: nat := 4 + 14 + 4
  const R35Size: nat := 2 + 4

  /** Tags whose payload is read and hex-dumped without a struct. */
  predicate IsDumpTag(tag: uint8) { tag == Tag26 || tag == Tag30 || tag == Tag37 }

  /** Byte count `ReadAndDump` is asked for, for each dumped tag. */
  function DumpSize(tag: uint8): nat
    requires IsDumpTag(tag)
  {
    if tag == Tag26 then 6 else if tag == Tag30 then 2 else 1
  }

  /** The payload length the decoder reads after each recognised tag. */
  function PayloadSize(tag: uint8): Option<nat>
  {
    if tag == TagHeader then Some(HeaderSize)
    else if tag == TagRecordLengths then Some(RecordLengthsSize)
    else if tag == TagLap then Some(LapSize)
    else if tag == TagGps then Some(GpsSize)
    else if tag == TagR23 then Some(R23Size)
    else if tag == TagHeartRate then Some(HeartRateSize)
    else if IsDumpTag(tag) then Some(DumpSize(tag))
    else if tag == TagSummary then Some(SummarySize)
    else if tag == TagTreadmill then Some(TreadmillSize)
    else if tag == TagSwim then Some(SwimSize)
    else if tag == TagR35 then Some(R35Size)
    else None
  }

  predicate IsKnownTag(tag: uint8) { PayloadSize(tag).Some? }

  /** The thirteen tags of the switch and the payload length each one reads. */
  lemma KnownTags(tag: uint8)
    ensures IsKnownTag(tag) <==>
      tag in {0x16, 0x20, 0x21, 0x22, 0x23, 0x25, 0x26, 0x27, 0x30, 0x32, 0x34, 0x35, 0x37}
    ensures PayloadSize(0x20) == Some(116) && PayloadSize(0x16) == Some(69)
      && PayloadSize(0x21) == Some(6) && PayloadSize(0x22) == Some(27)
      && PayloadSize(0x23) == Some(19) && PayloadSize(0x25) == Some(6)
      && PayloadSize(0x26) == Some(6) && PayloadSize(0x27) == Some(16)
      && PayloadSize(0x30) == Some(2) && PayloadSize(0x32) == Some(18)
      && PayloadSize(0x34) == Some(22) && PayloadSize(0x35) == Some(6)
      && PayloadSize(0x37) == Some(1)
  {
  }

  /** One decoded payload. `Raw` holds the payload of a dumped tag. */
  datatype Record =
    | Header(fileFormat: uint8, version: seq<uint8>, unknown1: uint16, timestamp: uint32,
             unknown2: seq<uint8>)
    | RecordLengths(entries: seq<uint8>)
    | Lap(lap: uint8, activity: uint8, time: uint32)
    | Gps(latitude: int32, longitude: int32, heading: uint16, speed: uint16, time: uint32,
          gpsCalories: uint16, incDistanceBits: seq<uint8>, cumDistanceBits: seq<uint8>,
          cycles: uint8)
    | R23(u1: uint16, u2: uint16, u3: uint8, rest: seq<uint8>)
    | HeartRate(heartRate: uint8, unknown: uint8, time: uint32)
    | Raw(tag: uint8, bytes: seq<uint8>)
    | Summary(activityType: uint32, distance: uint32, duration: uint32, calories: uint32)
    | Treadmill(time: uint32, distanceBits: seq<uint8>, calories: uint32, steps: uint32, u2: uint16)
    | Swim(time: uint32, swimUnknown: seq<uint8>, calories: uint32)
    | R35(u: seq<uint8>, time: uint32)

  /** The tag that introduces a record of this kind. */
  function TagOf(r: Record): uint8
  {
    match r
    case Header(_, _, _, _, _) => TagHeader
    case RecordLengths(_) => TagRecordLengths
    case Lap(_, _, _) => TagLap
    case Gps(_, _, _, _, _, _, _, _, _) => TagGps
    case R23(_, _, _, _) => TagR23
    case HeartRate(_, _, _) => TagHeartRate
    case Raw(tag, _) => tag
    case Summary(_, _, _, _) => TagSummary
    case Treadmill(_, _, _, _, _) => TagTreadmill
    case Swim(_, _, _) => TagSwim
    case R35(_, _) => TagR35
  }

  /** The byte groups of a record have the widths of its struct's arrays and floats. */
  predicate WellFormed(r: Record)
  {
    match r
    case Header(_, version, _, _, unknown2) => |version| == 4 && |unknown2| == 105
    case RecordLengths(entries) => |entries| == RecordLengthsSize
    case Lap(_, _, _) => true
    case Gps(_, _, _, _, _, _, inc, cum, _) => |inc| == 4 && |cum| == 4
    case R23(_, _, _, rest) => |rest| == 14
    case HeartRate(_, _, _) => true
    case Raw(tag, bytes) => IsDumpTag(tag) && |bytes| == DumpSize(tag)
    case Summary(_, _, _, _) => true
    case Treadmill(_, distance, _, _, _) => |distance| == 4
    case Swim(_, unknown, _) => |unknown| == 14
    case R35(u, _) => |u| == 2
  }

  /** Reads the fields of `tag`'s struct out of its payload `p`. */
  function Decode(tag: uint8, p: seq<uint8>): (r: Record)
    requires PayloadSize(tag) == Some(|p|)
    ensures WellFormed(r) && TagOf(r) == tag
  {
    if tag == TagHeader then Header(p[0], p[1..5], U16(p, 5), U32(p, 7), p[11..])
    else if tag == TagRecordLengths then RecordLengths(p)
    else if tag == TagLap then Lap(p[0], p[1], U32(p, 2))
    else if tag == TagGps then
      Gps(I32(p, 0), I32(p, 4), U16(p, 8), U16(p, 10), U32(p, 12), U16(p, 16),
          p[18..22], p[22..26], p[26])
    else if tag == TagR23 then R23(U16(p, 0), U16(p, 2), p[4], p[5..])
    else if tag == TagHeartRate then HeartRate(p[0], p[1], U32(p, 2))
    else if tag == TagSummary then Summary(U32(p, 0), U32(p, 4), U32(p, 8), U32(p, 12))
    else if tag == TagTreadmill then Treadmill(U32(p, 0), p[4..8], U32(p, 8), U32(p, 12), U16(p, 16))
    else if tag == TagSwim then Swim(U32(p, 0), p[4..18], U32(p, 18))
    else if tag == TagR35 then R35(p[..2], U32(p, 2))
    else Raw(tag, p)
  }

  /** The payload bytes of a record: its fields written at their struct offsets. */
  function Encode(r: Record): (p: seq<uint8>)
    requires WellFormed(r)
    ensures PayloadSize(TagOf(r)) == Some(|p|)
  {
    match r
    case Header(f, v, u, t, rest) => [f] + v + Le16(u) + Le32(t) + rest
    case RecordLengths(entries) => entries
    case Lap(lap, activity, time) => [lap, activity] + Le32(time)
    case Gps(lat, lon, heading, speed, time, cal, inc, cum, cycles) =>
      LeI32(lat) + LeI32(lon) + Le16(heading) + Le16(speed) + Le32(time) + Le16(cal)
      + inc + cum + [cycles]
    case R23(u1, u2, u3, rest) => Le16(u1) + Le16(u2) + [u3] + rest
    case HeartRate(rate, u1, time) => [rate, u1] + Le32(time)
    case Raw(_, bytes) => bytes
    case Summary(a, d, t, c) => Le32(a) + Le32(d) + Le32(t) + Le32(c)
    case Treadmill(time, dist, cal, steps, u2) => Le32(time) + dist + Le32(cal) + Le32(steps) + Le16(u2)
    case Swim(time, unknown, cal) => Le32(time) + unknown + Le32(cal)
    case R35(u, time) => u + Le32(time)
  }

  /** Writing a decoded payload back gives the payload: decoding loses no byte. */
  lemma {:induction false} EncodeDecode(tag: uint8, p: seq<uint8>)
    requires PayloadSize(tag) == Some(|p|)
    ensures Encode(Decode(tag, p)) == p
  {
    if tag == TagHeader {
      HeaderBytes(p);
    } else if tag == TagLap || tag == TagHeartRate {
      Le32OfU32(p, 2);
      assert p == [p[0], p[1]] + p[2..6];
    } else if tag == TagGps {
      GpsBytes(p);
    } else if tag == TagR23 {
      Le16OfU16(p, 0);
      Le16OfU16(p, 2);
      assert p == p[0..2] + p[2..4] + [p[4]] + p[5..];
    } else if tag == TagSummary {
      SummaryBytes(p);
    } else if tag == TagTreadmill {
      TreadmillBytes(p);
    } else if tag == TagSwim {
      Le32OfU32(p, 0);
      Le32OfU32(p, 18);
      assert p == p[0..4] + p[4..18] + p[18..22];
    } else if tag == TagR35 {
      Le32OfU32(p, 2);
      assert p == p[..2] + p[2..6];
    }
  }

  lemma {:induction false} HeaderBytes(p: seq<uint8>)
    requires |p| == HeaderSize
    ensures Encode(Decode(TagHeader, p)) == p
  {
    Le16OfU16(p, 5);
    Le32OfU32(p, 7);
    assert p == [p[0]] + p[1..5] + p[5..7] + p[7..11] + p[11..];
  }

  lemma {:induction false} GpsBytes(p: seq<uint8>)
    requires |p| == GpsSize
    ensures Encode(Decode(TagGps, p)) == p
  {
    var r := Decode(TagGps, p);
    assert r == Gps(I32(p, 0), I32(p, 4), U16(p, 8), U16(p, 10), U32(p, 12), U16(p, 16),
                    p[18..22], p[22..26], p[26]);
    LeI32OfI32(p, 0);
    LeI32OfI32(p, 4);
    Le16OfU16(p, 8);
    Le16OfU16(p, 10);
    Le32OfU32(p, 12);
    Le16OfU16(p, 16);
    Join(p, 0, 4, 8);
    Join(p, 0, 8, 10);
    Join(p, 0, 10, 12);
    Join(p, 0, 12, 16);
    Join(p, 0, 16, 18);
    Join(p, 0, 18, 22);
    Join(p, 0, 22, 26);
    assert p[0..26] + [p[26]] == p;
  }

  /** Adjacent slices join into one. */
  lemma {:induction false} Join(p: seq<uint8>, i: nat, j: nat, k: nat)
    requires i <= j <= k <= |p|
    ensures p[i..j] + p[j..k] == p[i..k]
  {
  }

  lemma {:induction false} SummaryBytes(p: seq<uint8>)
    requires |p| == SummarySize
    ensures Encode(Decode(TagSummary, p)) == p
  {
    Le32OfU32(p, 0);
    Le32OfU32(p, 4);
    Le32OfU32(p, 8);
    Le32OfU32(p, 12);
    assert p == p[0..4] + p[4..8] + p[8..12] + p[12..16];
  }

  lemma {:induction false} TreadmillBytes(p: seq<uint8>)
    requires |p| == TreadmillSize
    ensures Encode(Decode(TagTreadmill, p)) == p
  {
    Le32OfU32(p, 0);
    Le32OfU32(p, 8);
    Le32OfU32(p, 12);
    Le16OfU16(p, 16);
    assert p == p[0..4] + p[4..8] + p[8..12] + p[12..16] + p[16..18];
  }

  /** Decoding the bytes of a record gives back every field of that record. */
  lemma {:induction false} DecodeEncode(r: Record)
    requires WellFormed(r)
    ensures Decode(TagOf(r), Encode(r)) == r
  {
    var p := Encode(r);
    match r
    case Header(_, _, _, _, _) => HeaderFields(r);
    case RecordLengths(_) =>
    case Lap(_, _, time) =>
      U32At(p, 2, Le32(time));
    case Gps(_, _, _, _, _, _, _, _, _) => GpsFields(r);
    case R23(u1, u2, u3, rest) =>
      U16At(p, 0, Le16(u1));
      U16At(p, 2, Le16(u2));
      assert p[5..] == rest;
    case HeartRate(_, _, time) =>
      U32At(p, 2, Le32(time));
    case Raw(_, _) =>
    case Summary(_, _, _, _) => SummaryFields(r);
    case Treadmill(_, _, _, _, _) => TreadmillFields(r);
    case Swim(time, unknown, cal) =>
      U32At(p, 0, Le32(time));
      assert p[4..18] == unknown;
      U32At(p, 18, Le32(cal));
    case R35(u, time) =>
      assert p[..2] == u && p[2..6] == Le32(time);
      U32At(p, 2, Le32(time));
  }

  lemma {:induction false} HeaderFields(r: Record)
    requires r.Header? && WellFormed(r)
    ensures Decode(TagHeader, Encode(r)) == r
  {
    var p := Encode(r);
    assert p[1..5] == r.version && p[11..] == r.unknown2;
    assert p[5..7] == Le16(r.unknown1) && p[7..11] == Le32(r.timestamp);
    U16At(p, 5, Le16(r.unknown1));
    U32At(p, 7, Le32(r.timestamp));
  }

  lemma {:induction false} GpsFields(r: Record)
    requires r.Gps? && WellFormed(r)
    ensures Decode(TagGps, Encode(r)) == r
  {
    var p := Encode(r);
    var a := LeI32(r.latitude) + LeI32(r.longitude) + Le16(r.heading) + Le16(r.speed);
    var b := Le32(r.time) + Le16(r.gpsCalories) + r.incDistanceBits + r.cumDistanceBits + [r.cycles];
    assert p == a + b;
    assert p[0..4] == LeI32(r.latitude) && p[4..8] == LeI32(r.longitude);
    assert p[8..10] == Le16(r.heading) && p[10..12] == Le16(r.speed);
    assert p[12..16] == Le32(r.time) && p[16..18] == Le16(r.gpsCalories);
    assert p[18..22] == r.incDistanceBits && p[22..26] == r.cumDistanceBits && p[26] == r.cycles;
    U32At(p, 0, LeI32(r.latitude));
    U32At(p, 4, LeI32(r.longitude));
    U16At(p, 8, Le16(r.heading));
    U16At(p, 10, Le16(r.speed));
    U32At(p, 12, Le32(r.time));
    U16At(p, 16, Le16(r.gpsCalories));
  }

  lemma {:induction false} SummaryFields(r: Record)
    requires r.Summary?
    ensures Decode(TagSummary, Encode(r)) == r
  {
    var p := Encode(r);
    assert p[0..4] == Le32(r.activityType) && p[4..8] == Le32(r.distance);
    assert p[8..12] == Le32(r.duration) && p[12..16] == Le32(r.calories);
    U32At(p, 0, Le32(r.activityType));
    U32At(p, 4, Le32(r.distance));
    U32At(p, 8, Le32(r.duration));
    U32At(p, 12, Le32(r.calories));
  }

  lemma {:induction false} TreadmillFields(r: Record)
    requires r.Treadmill? && WellFormed(r)
    ensures Decode(TagTreadmill, Encode(r)) == r
  {
    var p := Encode(r);
    assert p[0..4] == Le32(r.time) && p[4..8] == r.distanceBits;
    assert p[8..12] == Le32(r.calories) && p[12..16] == Le32(r.steps);
    assert p[16..18] == Le16(r.u2);
    U32At(p, 0, Le32(r.time));
    U32At(p, 8, Le32(r.calories));
    U32At(p, 12, Le32(r.steps));
    U16At(p, 16, Le16(r.u2));
  }
}
