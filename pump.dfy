// The tag loop of `main`: read one tag byte, read the payload its `case`
// expects, print it, and go on until the end of the file or a short read.
//
// `Pass` is the reference definition of one run over a file's bytes; the
// `Stream` class and the `Run` method follow the C code step by step and
// are proved to compute `Pass`. `Tiles` states independently what a
// correct run is, and the lemmas below prove that `Pass` is the one run
// that satisfies it and that a clean run gives the file back.
module Pump {
  import opened Bytes
  import opened Records
  import opened HexDump
  import opened Render

  /** The open `FILE*`: the file's bytes and its read position (`ftell`). */
  class Stream {
    const data: seq<uint8>
    var pos: nat

    ghost predicate Valid()
      reads this
    {
      pos <= |data|
    }

    constructor (contents: seq<uint8>)
      ensures Valid() && data == contents && pos == 0
    {
      data := contents;
      pos := 0;
    }

    /** `fread(buffer, 1, 1, f)`: the next tag byte, or nothing at the end of the file. */
    method ReadTag() returns (tag: Option<uint8>)
      requires Valid()
      modifies this
      ensures Valid()
      ensures old(pos) < |data| ==> tag == Some(data[old(pos)]) && pos == old(pos) + 1
      ensures old(pos) == |data| ==> tag == None && pos == old(pos)
    {
      if pos < |data| {
        tag := Some(data[pos]);
        pos := pos + 1;
      } else {
        tag := None;
      }
    }

    /**
     * `ReadStruct`: exactly `size` bytes, or `None` where the C code calls
     * `exit(-1)`; a short `fread` has still consumed what was left.
     */
    method ReadStruct(size: nat) returns (payload: Option<seq<uint8>>)
      requires Valid()
      modifies this
      ensures Valid()
      ensures old(pos) + size <= |data| ==>
        payload == Some(data[old(pos)..old(pos) + size]) && pos == old(pos) + size
      ensures old(pos) + size > |data| ==> payload == None && pos == |data|
    {
      if pos + size <= |data| {
        payload := Some(data[pos..pos + size]);
        pos := pos + size;
      } else {
        payload := None;
        pos := |data|;
      }
    }

    /** `ReadAndDump`: reads `size` bytes like `ReadStruct` and returns their dump. */
    method ReadAndDump(size: nat) returns (payload: Option<seq<uint8>>, text: string)
      requires Valid()
      modifies this
      ensures Valid()
      ensures old(pos) + size <= |data| ==>
        && payload == Some(data[old(pos)..old(pos) + size]) && pos == old(pos) + size
        && text == Lines(payload.value)
      ensures old(pos) + size > |data| ==> payload == None && pos == |data| && text == ""
    {
      payload := ReadStruct(size);
      text := "";
      if payload.Some? {
        text := Dump(payload.value);
      }
    }
  }

  /** What one tag byte introduced: the payload of a recognised tag, or a tag the switch does not know. */
  datatype Kind = Known(tag: uint8, payload: seq<uint8>) | Unknown(tag: uint8)

  /** One pass of the loop: the offset of its tag byte and what followed it. */
  datatype Step = Step(offset: nat, kind: Kind)

  predicate StepWellFormed(st: Step)
  {
    st.kind.Known? ==> PayloadSize(st.kind.tag) == Some(|st.kind.payload|)
  }

  /** What the `case` of a recognised tag prints for its payload. */
  function PayloadView(tag: uint8, payload: seq<uint8>): View
    requires PayloadSize(tag) == Some(|payload|)
  {
    RecordView(Decode(tag, payload))
  }

  /** A dumped tag prints its label and the dump of its payload. */
  lemma {:induction false} DumpView(tag: uint8, payload: seq<uint8>)
    requires IsDumpTag(tag) && |payload| == DumpSize(tag)
    ensures PayloadView(tag, payload) == DumpLine(tag, Lines(payload))
  {
  }

  /** What one step prints. */
  function StepView(st: Step): View
    requires StepWellFormed(st)
  {
    match st.kind
    case Known(tag, payload) => PayloadView(tag, payload)
    case Unknown(tag) => UnknownTagLine(tag, st.offset)
  }

  /**
   * What one pass of the loop body ends in: a step and the read position
   * after it; the end of the file; or a short read of
   * the payload of `tag`, whose tag byte is at `offset`.
   */
  datatype Iteration = Stepped(step: Step, next: nat) | EndOfFile | ShortRead(tag: uint8, offset: nat)

  /** One pass of the loop body from read position `pos`, as a value. */
  function Next(data: seq<uint8>, pos: nat): (it: Iteration)
    requires pos <= |data|
    ensures it.Stepped? ==> pos < it.next <= |data| && it.step.offset == pos && StepWellFormed(it.step)
  {
    if pos == |data| then EndOfFile
    else
      var tag := data[pos];
      match PayloadSize(tag)
      case None => Stepped(Step(pos, Unknown(tag)), pos + 1)
      case Some(n) =>
        if pos + 1 + n <= |data| then
          Stepped(Step(pos, Known(tag, data[pos + 1..pos + 1 + n])), pos + 1 + n)
        else ShortRead(tag, pos)
  }

  lemma {:induction false} NextUnknown(data: seq<uint8>, pos: nat)
    requires pos < |data| && !IsKnownTag(data[pos])
    ensures Next(data, pos) == Stepped(Step(pos, Unknown(data[pos])), pos + 1)
  {
  }

  lemma {:induction false} NextKnown(data: seq<uint8>, pos: nat, n: nat)
    requires pos < |data| && PayloadSize(data[pos]) == Some(n) && pos + 1 + n <= |data|
    ensures Next(data, pos) == Stepped(Step(pos, Known(data[pos], data[pos + 1..pos + 1 + n])), pos + 1 + n)
  {
  }

  lemma {:induction false} NextShort(data: seq<uint8>, pos: nat, n: nat)
    requires pos < |data| && PayloadSize(data[pos]) == Some(n) && pos + 1 + n > |data|
    ensures Next(data, pos) == ShortRead(data[pos], pos)
  {
  }

  /** How the loop ended: at the end of the file, or in a short read after `tag` at `offset`. */
  datatype Outcome = Done | Fatal(tag: uint8, offset: nat)

  datatype PassResult = PassResult(steps: seq<Step>, outcome: Outcome)

  /** The loop from read position `pos` to its end, as a value. */
  function Pass(data: seq<uint8>, pos: nat): PassResult
    requires pos <= |data|
    decreases |data| - pos
  {
    match Next(data, pos)
    case EndOfFile => PassResult([], Done)
    case ShortRead(tag, offset) => PassResult([], Fatal(tag, offset))
    case Stepped(st, next) =>
      var rest := Pass(data, next);
      PassResult([st] + rest.steps, rest.outcome)
  }

  /** A run that starts with a step is that step followed by the run after it. */
  lemma {:induction false} PassCons(data: seq<uint8>, pos: nat, st: Step, next: nat)
    requires pos <= |data| && Next(data, pos) == Stepped(st, next)
    ensures Pass(data, pos) == PassResult([st] + Pass(data, next).steps, Pass(data, next).outcome)
  {
  }

  predicate AllWellFormed(steps: seq<Step>)
  {
    steps == [] || (StepWellFormed(steps[0]) && AllWellFormed(steps[1..]))
  }

  function Views(steps: seq<Step>): seq<View>
    requires AllWellFormed(steps)
  {
    if steps == [] then [] else [StepView(steps[0])] + Views(steps[1..])
  }

  lemma {:induction false} ViewsSnoc(steps: seq<Step>, st: Step)
    requires AllWellFormed(steps) && StepWellFormed(st)
    ensures AllWellFormed(steps + [st])
    ensures Views(steps + [st]) == Views(steps) + [StepView(st)]
    decreases |steps|
  {
    if steps != [] {
      assert (steps + [st])[1..] == steps[1..] + [st];
      ViewsSnoc(steps[1..], st);
    }
  }

  /** Every payload `Pass` produces has its tag's size. */
  lemma {:induction false} PassWellFormed(data: seq<uint8>, pos: nat)
    requires pos <= |data|
    ensures AllWellFormed(Pass(data, pos).steps)
    decreases |data| - pos
  {
    var it := Next(data, pos);
    if it.Stepped? {
      PassWellFormed(data, it.next);
      assert ([it.step] + Pass(data, it.next).steps)[1..] == Pass(data, it.next).steps;
    }
  }

  /** The lines of a run: one view per step, then the text, if any, that the failed `case` printed before its read. */
  function Output(r: PassResult): seq<View>
    requires AllWellFormed(r.steps)
  {
    Views(r.steps) + (if r.outcome.Fatal? && PrefixBeforeRead(r.outcome.tag) != "" then [Interrupted(PrefixBeforeRead(r.outcome.tag))] else [])
  }

  /** The `printf` arguments of a decoded record; the two byte loops of the switch become `Dump` and `DumpRow`. */
  method Show(r: Record) returns (v: View)
    requires WellFormed(r)
    ensures v == RecordView(r)
  {
    match r
    case R23(u1, u2, u3, _) =>
      var text := Dump(Encode(r));
      v := R23Line(u1, u2, u3, text);
    case Swim(t, u, c) =>
      var row := DumpRow(u);
      v := SwimLine(t, c, row);
    case _ =>
      v := RecordView(r);
  }

  /**
   * The `case` of a known tag: read its payload, decode it and print it;
   * `None` where the read comes up short.
   */
  method ReadRecord(f: Stream, tag: uint8) returns (shown: Option<(seq<uint8>, View)>)
    requires f.Valid() && IsKnownTag(tag)
    modifies f
    ensures f.Valid()
    ensures var n := PayloadSize(tag).value;
      && (old(f.pos) + n <= |f.data| ==>
            && f.pos == old(f.pos) + n && shown.Some?
            && shown.value.0 == f.data[old(f.pos)..f.pos])
      && (old(f.pos) + n > |f.data| ==> shown == None && f.pos == |f.data|)
    ensures shown.Some? ==>
      PayloadSize(tag) == Some(|shown.value.0|) && shown.value.1 == PayloadView(tag, shown.value.0)
    ensures shown.None? ==> f.pos == |f.data|
  {
    var payload: Option<seq<uint8>>;
    if IsDumpTag(tag) {
      var text;
      payload, text := f.ReadAndDump(DumpSize(tag));
      if payload.Some? {
        DumpView(tag, payload.value);
        return Some((payload.value, DumpLine(tag, text)));
      }
    } else {
      payload := f.ReadStruct(PayloadSize(tag).value);
      if payload.Some? {
        var r := Decode(tag, payload.value);
        var v := Show(r);
        return Some((payload.value, v));
      }
    }
    return None;
  }

  /**
   * One pass of the loop body: the tag read, the `switch` on it and the
   * `printf` of its `case`.
   */
  method Advance(f: Stream) returns (it: Iteration, view: Option<View>)
    requires f.Valid()
    modifies f
    ensures f.Valid()
    ensures it == Next(f.data, old(f.pos))
    ensures it.Stepped? ==> f.pos == it.next && view == Some(StepView(it.step))
    ensures !it.Stepped? ==> view == None
    ensures it.EndOfFile? ==> f.pos == old(f.pos)
    ensures it.ShortRead? ==> f.pos == |f.data|
  {
    ghost var start := f.pos;
    var t := f.ReadTag();
    if t.None? {
      assert start == |f.data| && f.pos == start;
      return EndOfFile, None;
    }
    var tag := t.value;
    var offset := f.pos - 1;
    assert offset == start && tag == f.data[start];
    if !IsKnownTag(tag) {
      NextUnknown(f.data, start);
      return Stepped(Step(offset, Unknown(tag)), f.pos), Some(UnknownTagLine(tag, offset));
    }
    it, view := AdvanceKnown(f, tag);
  }

  /** The rest of the loop body once the switch has found the `case` of `tag`, whose byte was just read. */
  method AdvanceKnown(f: Stream, tag: uint8) returns (it: Iteration, view: Option<View>)
    requires f.Valid() && 0 < f.pos && f.data[f.pos - 1] == tag && IsKnownTag(tag)
    modifies f
    ensures f.Valid()
    ensures it == Next(f.data, old(f.pos) - 1)
    ensures it.Stepped? ==> f.pos == it.next && view == Some(StepView(it.step))
    ensures it.ShortRead? ==> f.pos == |f.data| && view == None
    ensures !it.EndOfFile?
  {
    var offset := f.pos - 1;
    ghost var n := PayloadSize(tag).value;
    var shown := ReadRecord(f, tag);
    if shown.None? {
      NextShort(f.data, offset, n);
      return ShortRead(tag, offset), None;
    }
    NextKnown(f.data, offset, n);
    return Stepped(Step(offset, Known(tag, shown.value.0)), f.pos), Some(shown.value.1);
  }

  /** The `while (!feof(f))` loop. `feof` only turns true after a read fails, which ends the loop first. */
  method Run(data: seq<uint8>) returns (steps: seq<Step>, output: seq<View>, outcome: Outcome)
    ensures Pass(data, 0) == PassResult(steps, outcome)
    ensures AllWellFormed(steps) && output == Output(PassResult(steps, outcome))
  {
    var f := new Stream(data);
    steps, output := [], [];
    while true
      invariant f.Valid() && f.data == data
      invariant Pass(data, 0) == PassResult(steps + Pass(data, f.pos).steps, Pass(data, f.pos).outcome)
      invariant AllWellFormed(steps) && output == Views(steps)
      decreases |data| - f.pos
    {
      ghost var before := f.pos;
      var it, v := Advance(f);
      if it.EndOfFile? {
        PassEnds(data, before);
        assert steps + [] == steps;
        outcome := Done;
        return;
      } else if it.ShortRead? {
        PassEnds(data, before);
        assert steps + [] == steps;
        outcome := Fatal(it.tag, it.offset);
        var prefix := PrefixBeforeRead(it.tag);
        if prefix != "" {
          output := output + [Interrupted(prefix)];
        }
        return;
      }
      Extend(data, steps, before, it.step, it.next);
      steps := steps + [it.step];
      output := output + [v.value];
    }
  }

  /** The end of the loop: no more steps. */
  lemma {:induction false} PassEnds(data: seq<uint8>, pos: nat)
    requires pos <= |data| && !Next(data, pos).Stepped?
    ensures Next(data, pos).EndOfFile? ==> Pass(data, pos) == PassResult([], Done)
    ensures Next(data, pos).ShortRead? ==>
      Pass(data, pos) == PassResult([], Fatal(Next(data, pos).tag, Next(data, pos).offset))
  {
  }

  /** One more step of the loop keeps the loop invariant of `Run`. */
  lemma {:induction false} Extend(data: seq<uint8>, steps: seq<Step>, pos: nat, st: Step, next: nat)
    requires pos <= |data| && Next(data, pos) == Stepped(st, next)
    requires Pass(data, 0) == PassResult(steps + Pass(data, pos).steps, Pass(data, pos).outcome)
    requires AllWellFormed(steps)
    ensures Pass(data, 0) == PassResult((steps + [st]) + Pass(data, next).steps, Pass(data, next).outcome)
    ensures AllWellFormed(steps + [st]) && Views(steps + [st]) == Views(steps) + [StepView(st)]
  {
    var rest := Pass(data, next).steps;
    assert Pass(data, pos).steps == [st] + rest;
    assert steps + ([st] + rest) == (steps + [st]) + rest;
    ViewsSnoc(steps, st);
  }

  /** How many bytes one step takes from the file: its tag byte and its payload. */
  function KindBytes(k: Kind): seq<uint8>
  {
    match k
    case Known(tag, payload) => [tag] + payload
    case Unknown(tag) => [tag]
  }

  /**
   * Fixed consumption: a recognised tag takes one byte and its struct's
   * size, an unrecognised one only its own byte, and the bytes taken are
   * exactly the tag and the payload of the step.
   */
  lemma {:induction false} Consumption(data: seq<uint8>, pos: nat)
    requires pos <= |data| && Next(data, pos).Stepped?
    ensures var it := Next(data, pos);
      && it.next == pos + 1 + (if it.step.kind.Known? then PayloadSize(it.step.kind.tag).value else 0)
      && (it.step.kind.Unknown? <==> !IsKnownTag(data[pos]))
      && data[pos..it.next] == KindBytes(it.step.kind)
  {
    var it := Next(data, pos);
    if it.step.kind.Known? {
      assert data[pos..it.next] == [data[pos]] + data[pos + 1..it.next];
    } else {
      assert data[pos..it.next] == [data[pos]];
    }
  }

  /** An unrecognised tag is reported with its value and the offset of the tag byte itself. */
  lemma {:induction false} UnknownTagReported(data: seq<uint8>, pos: nat)
    requires pos < |data| && !IsKnownTag(data[pos])
    ensures Next(data, pos).Stepped? && Next(data, pos).next == pos + 1
    ensures StepView(Next(data, pos).step) == UnknownTagLine(data[pos], pos)
  {
    NextUnknown(data, pos);
  }

  /**
   * What a run over `data` from `pos` is, stated on its own: the steps
   * follow each other from `pos`, each starts at a tag byte and holds that
   * tag and, for a recognised tag, its payload of the struct's size; the
   * run ends at the end of the file (`Done`), or at a recognised tag whose
   * payload does not fit in what is left (`Fatal`).
   */
  predicate Tiles(data: seq<uint8>, pos: nat, steps: seq<Step>, outcome: Outcome)
    requires pos <= |data|
    decreases |steps|
  {
    if steps == [] then
      match outcome
      case Done => pos == |data|
      case Fatal(tag, offset) =>
        && offset == pos < |data| && data[pos] == tag && IsKnownTag(tag)
        && pos + 1 + PayloadSize(tag).value > |data|
    else
      var st := steps[0];
      && st.offset == pos < |data| && st.kind.tag == data[pos]
      && match st.kind
         case Unknown(_) => !IsKnownTag(st.kind.tag) && Tiles(data, pos + 1, steps[1..], outcome)
         case Known(tag, payload) =>
           && PayloadSize(tag) == Some(|payload|) && pos + 1 + |payload| <= |data|
           && data[pos + 1..pos + 1 + |payload|] == payload
           && Tiles(data, pos + 1 + |payload|, steps[1..], outcome)
  }

  /** `Pass` satisfies `Tiles`. */
  lemma {:induction false} PassTiles(data: seq<uint8>, pos: nat)
    requires pos <= |data|
    ensures Tiles(data, pos, Pass(data, pos).steps, Pass(data, pos).outcome)
    decreases |data| - pos
  {
    var it := Next(data, pos);
    if it.Stepped? {
      PassTiles(data, it.next);
      TilesStep(data, pos, it.step, it.next, Pass(data, it.next));
    }
  }

  /** One step in front of a run that tiles the rest tiles from the step's offset. */
  lemma {:induction false} TilesStep(data: seq<uint8>, pos: nat, st: Step, next: nat, rest: PassResult)
    requires pos <= |data| && Next(data, pos) == Stepped(st, next)
    requires Tiles(data, next, rest.steps, rest.outcome)
    ensures Tiles(data, pos, [st] + rest.steps, rest.outcome)
  {
    assert ([st] + rest.steps)[0] == st && ([st] + rest.steps)[1..] == rest.steps;
  }

  /** `Tiles` has one solution only, so `Pass` is the run it describes. */
  lemma {:induction false} TilesArePass(data: seq<uint8>, pos: nat, steps: seq<Step>, outcome: Outcome)
    requires pos <= |data| && Tiles(data, pos, steps, outcome)
    ensures Pass(data, pos) == PassResult(steps, outcome)
    decreases |steps|
  {
    if steps == [] {
      if pos < |data| {
        NextShort(data, pos, PayloadSize(data[pos]).value);
      }
    } else {
      var st := steps[0];
      var next := pos + |KindBytes(st.kind)|;
      if st.kind.Unknown? {
        NextUnknown(data, pos);
      } else {
        NextKnown(data, pos, |st.kind.payload|);
      }
      TilesArePass(data, next, steps[1..], outcome);
      assert steps == [st] + steps[1..];
    }
  }

  /** The kinds of a run's steps, without their offsets. */
  function KindsOf(steps: seq<Step>): (kinds: seq<Kind>)
    ensures |kinds| == |steps|
  {
    if steps == [] then [] else [steps[0].kind] + KindsOf(steps[1..])
  }

  /** The file bytes a sequence of steps was read from. */
  function Reassemble(kinds: seq<Kind>): seq<uint8>
  {
    if kinds == [] then [] else KindBytes(kinds[0]) + Reassemble(kinds[1..])
  }

  /** Nothing is lost or skipped: a run that ends in `Done` gives back the bytes it went through. */
  lemma {:induction false} DoneReassembles(data: seq<uint8>, pos: nat)
    requires pos <= |data| && Pass(data, pos).outcome == Done
    ensures Reassemble(KindsOf(Pass(data, pos).steps)) == data[pos..]
    decreases |data| - pos
  {
    var it := Next(data, pos);
    if it.Stepped? {
      PassCons(data, pos, it.step, it.next);
      DoneReassembles(data, it.next);
      ReassemblesBack(data, pos, it.step, it.next);
    }
  }

  /** The step of `DoneReassembles`: the bytes of one step, then the bytes of the rest of the run. */
  lemma {:induction false} ReassemblesBack(data: seq<uint8>, pos: nat, st: Step, next: nat)
    requires pos <= |data| && Next(data, pos) == Stepped(st, next)
    requires Reassemble(KindsOf(Pass(data, next).steps)) == data[next..]
    ensures Reassemble(KindsOf(Pass(data, pos).steps)) == data[pos..]
  {
    var rest := Pass(data, next).steps;
    PassCons(data, pos, st, next);
    Consumption(data, pos);
    KindsOfCons(st, rest);
    var kinds := [st.kind] + KindsOf(rest);
    assert kinds[1..] == KindsOf(rest);
    assert data[pos..] == data[pos..next] + data[next..];
  }

  /** A kind the decoder can produce: a recognised tag with a payload of its size, or an unrecognised tag. */
  predicate Parsable(k: Kind)
  {
    match k
    case Known(tag, payload) => PayloadSize(tag) == Some(|payload|)
    case Unknown(tag) => !IsKnownTag(tag)
  }

  predicate AllParsable(kinds: seq<Kind>)
  {
    kinds == [] || (Parsable(kinds[0]) && AllParsable(kinds[1..]))
  }

  /** The converse: writing parsable kinds out and reading the bytes back gives the same kinds and `Done`. */
  lemma {:induction false} ReassembledParses(data: seq<uint8>, pos: nat, kinds: seq<Kind>)
    requires pos <= |data| && data[pos..] == Reassemble(kinds) && AllParsable(kinds)
    ensures Pass(data, pos).outcome == Done && KindsOf(Pass(data, pos).steps) == kinds
    decreases |kinds|
  {
    if kinds == [] {
      assert |data[pos..]| == 0;
    } else {
      var k := kinds[0];
      var next := pos + |KindBytes(k)|;
      NextOfReassembled(data, pos, kinds);
      ReassembledParses(data, next, kinds[1..]);
      ParsesBack(data, pos, kinds, next);
    }
  }

  /** One kind further back: if the rest reads back, so does the whole. */
  lemma {:induction false} ParsesBack(data: seq<uint8>, pos: nat, kinds: seq<Kind>, next: nat)
    requires pos <= next <= |data| && kinds != [] && Next(data, pos) == Stepped(Step(pos, kinds[0]), next)
    requires Pass(data, next).outcome == Done && KindsOf(Pass(data, next).steps) == kinds[1..]
    ensures Pass(data, pos).outcome == Done && KindsOf(Pass(data, pos).steps) == kinds
  {
    PassCons(data, pos, Step(pos, kinds[0]), next);
    KindsOfCons(Step(pos, kinds[0]), Pass(data, next).steps);
    assert kinds == [kinds[0]] + kinds[1..];
  }

  /** The first kind written out is the first step read back, and the rest follows it. */
  lemma {:induction false} NextOfReassembled(data: seq<uint8>, pos: nat, kinds: seq<Kind>)
    requires pos <= |data| && data[pos..] == Reassemble(kinds) && kinds != [] && Parsable(kinds[0])
    ensures pos + |KindBytes(kinds[0])| <= |data|
    ensures Next(data, pos) == Stepped(Step(pos, kinds[0]), pos + |KindBytes(kinds[0])|)
    ensures data[pos + |KindBytes(kinds[0])|..] == Reassemble(kinds[1..])
  {
    var k := kinds[0];
    ReassembledHead(data, pos, kinds);
    if k.Unknown? {
      NextUnknown(data, pos);
    } else {
      NextKnown(data, pos, |k.payload|);
    }
  }

  /** The bytes of the first kind sit at `pos`, those of the others after them. */
  lemma {:induction false} ReassembledHead(data: seq<uint8>, pos: nat, kinds: seq<Kind>)
    requires pos <= |data| && data[pos..] == Reassemble(kinds) && kinds != []
    ensures pos + |KindBytes(kinds[0])| <= |data| && pos < |data| && data[pos] == kinds[0].tag
    ensures kinds[0].Known? ==> data[pos + 1..pos + |KindBytes(kinds[0])|] == kinds[0].payload
    ensures data[pos + |KindBytes(kinds[0])|..] == Reassemble(kinds[1..])
  {
    var b := KindBytes(kinds[0]);
    var next := pos + |b|;
    assert data[pos..] == b + Reassemble(kinds[1..]);
    assert data[pos] == data[pos..][0] == b[0];
    assert data[pos..next] == data[pos..][..|b|] == b;
    assert data[next..] == data[pos..][|b|..];
    if kinds[0].Known? {
      assert data[pos + 1..next] == b[1..];
    }
  }

  lemma {:induction false} KindsOfCons(st: Step, rest: seq<Step>)
    ensures KindsOf([st] + rest) == [st.kind] + KindsOf(rest)
  {
    assert ([st] + rest)[1..] == rest;
  }

  /** The status `main` returns or passes to `exit`. */
  function ExitStatus(outcome: Outcome): (status: int)
    ensures status == 0 <==> outcome.Done?
    ensures status == -1 <==> outcome.Fatal?
  {
    if outcome.Done? then 0 else -1
  }

  /**
   * What the command line and `fopen` come to: no file name given, a file
   * that cannot be opened, or the bytes of an opened file.
   */
  datatype Invocation = NoFileName | Unopenable(path: string) | Opened(path: string, contents: seq<uint8>)

  /** `main`: the argument and open checks, then the tag loop; returns what is printed and the status. */
  method Launch(inv: Invocation) returns (output: seq<View>, status: int)
    ensures inv.NoFileName? ==> output == [NeedFilename] && status == -1
    ensures inv.Unopenable? ==> output == [OpenFailedLine(inv.path)] && status == -1
    ensures inv.Opened? ==>
      var r := Pass(inv.contents, 0);
      && AllWellFormed(r.steps) && output == Output(r) && status == ExitStatus(r.outcome)
  {
    match inv
    case NoFileName =>
      output, status := [NeedFilename], -1;
    case Unopenable(path) =>
      output, status := [OpenFailedLine(path)], -1;
    case Opened(_, contents) =>
      var steps, outcome;
      steps, output, outcome := Run(contents);
      status := ExitStatus(outcome);
  }
}
