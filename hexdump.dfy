// The hex dumps printed for payloads whose meaning is unknown: `Dump` and
// `ReadAndDump` (32 bytes per line) and the one-line dump of a swim record's
// unknown bytes.
module HexDump {
  import opened Bytes
  import opened Text

  /** One dumped byte, as `" %02X"` prints it. */
  function Token(b: uint8): (t: string)
    ensures |t| == 3
  {
    " " + Hex2(b)
  }

  /** A token is a space and two hex digits that spell the byte. */
  lemma TokenDigits(b: uint8)
    ensures var t := Token(b);
      t[0] == ' ' && IsUpperHex(t[1]) && IsUpperHex(t[2]) && 16 * HexValue(t[1]) + HexValue(t[2]) == b
  {
  }

  /** What the loop prints after the token of byte `i`: a newline after every 32nd. */
  function Separator(i: nat): string
  {
    if i % 32 == 31 then "\n" else ""
  }

  /** The tokens of `bs`, in order, with no line breaks. */
  function Tokens(bs: seq<uint8>): string
  {
    if bs == [] then "" else Token(bs[0]) + Tokens(bs[1..])
  }

  /**
   * The dump layout: the bytes in lines of 32 tokens, the last line holding
   * the rest, every line ended by a newline; nothing at all for no bytes.
   */
  function Lines(bs: seq<uint8>): string
    decreases |bs|
  {
    if bs == [] then ""
    else if |bs| <= 32 then Tokens(bs) + "\n"
    else Tokens(bs[..32]) + "\n" + Lines(bs[32..])
  }

  /**
   * What the dump loop has printed once it has gone through `bs`: full
   * lines of 32 tokens, each with its newline, then the tokens of the
   * line under way.
   */
  function Printed(bs: seq<uint8>): string
    decreases |bs|
  {
    if |bs| < 32 then Tokens(bs) else Tokens(bs[..32]) + "\n" + Printed(bs[32..])
  }

  /** The newline `Dump` adds after its loop when the last line is short. */
  function FinalNewline(n: nat): string
  {
    if n % 32 != 0 then "\n" else ""
  }

  /** The loop of `Dump`: a token per byte, a newline after every 32nd, one more if the last line is short. */
  method Dump(data: seq<uint8>) returns (out: string)
    ensures out == Lines(data)
  {
    out := "";
    for i := 0 to |data|
      invariant out == Printed(data[..i])
    {
      PrintedSnoc(data[..i], data[i]);
      assert data[..i + 1] == data[..i] + [data[i]];
      out := out + Token(data[i]);
      if i % 32 == 31 {
        out := out + "\n";
      }
    }
    if |data| % 32 != 0 {
      out := out + "\n";
    }
    assert data[..|data|] == data;
    PrintedLines(data);
  }

  /** The loop of the swim record: a token per byte, then one newline. */
  method DumpRow(data: seq<uint8>) returns (out: string)
    ensures out == Tokens(data) + "\n"
    ensures 0 < |data| <= 32 ==> out == Lines(data)
  {
    out := "";
    for i := 0 to |data|
      invariant out + Tokens(data[i..]) == Tokens(data)
    {
      assert data[i..][1..] == data[i + 1..];
      out := out + Token(data[i]);
    }
    out := out + "\n";
  }

  lemma {:induction false} TokensSnoc(bs: seq<uint8>, b: uint8)
    ensures Tokens(bs + [b]) == Tokens(bs) + Token(b)
    decreases |bs|
  {
    if bs != [] {
      assert (bs + [b])[1..] == bs[1..] + [b];
      TokensSnoc(bs[1..], b);
    }
  }

  /** One more pass of the loop over byte `b`: its token, then the separator of its position. */
  lemma {:induction false} PrintedSnoc(bs: seq<uint8>, b: uint8)
    ensures Printed(bs + [b]) == Printed(bs) + Token(b) + Separator(|bs|)
    decreases |bs|
  {
    var t := bs + [b];
    if |bs| < 31 {
      TokensSnoc(bs, b);
    } else if |bs| == 31 {
      TokensSnoc(bs, b);
      assert t[..32] == t && t[32..] == [];
    } else {
      assert Separator(|bs| - 32) == Separator(|bs|) by {
        assert (|bs| - 32) % 32 == |bs| % 32;
      }
      assert t[..32] == bs[..32] && t[32..] == bs[32..] + [b];
      PrintedSnoc(bs[32..], b);
      var head := Tokens(bs[..32]) + "\n";
      var rest := Printed(bs[32..]);
      assert Printed(t) == head + (rest + Token(b) + Separator(|bs|));
      assert Printed(bs) == head + rest;
    }
  }

  /** The whole loop and the final newline print the dump layout. */
  lemma {:induction false} PrintedLines(bs: seq<uint8>)
    ensures Printed(bs) + FinalNewline(|bs|) == Lines(bs)
    decreases |bs|
  {
    if |bs| < 32 {
      if bs == [] {
        assert FinalNewline(0) == "";
      }
    } else if |bs| == 32 {
      assert bs[..32] == bs && bs[32..] == [];
      assert FinalNewline(32) == "";
    } else {
      PrintedLines(bs[32..]);
      assert (|bs| - 32) % 32 == |bs| % 32;
      var head := Tokens(bs[..32]) + "\n";
      assert (head + Printed(bs[32..])) + FinalNewline(|bs|) == head + (Printed(bs[32..]) + FinalNewline(|bs|));
    }
  }

  /** Number of occurrences of `c` in `s`. */
  function Count(s: string, c: char): nat
  {
    if s == [] then 0 else (if s[0] == c then 1 else 0) + Count(s[1..], c)
  }

  lemma {:induction false} CountAppend(s: string, t: string, c: char)
    ensures Count(s + t, c) == Count(s, c) + Count(t, c)
  {
    if s == [] {
      assert s + t == t;
    } else {
      assert (s + t)[0] == s[0] && (s + t)[1..] == s[1..] + t;
      CountAppend(s[1..], t, c);
    }
  }

  /** Tokens take three characters each and contain no line break. */
  lemma {:induction false} TokensShape(bs: seq<uint8>)
    ensures |Tokens(bs)| == 3 * |bs|
    ensures Count(Tokens(bs), '\n') == 0
  {
    if bs != [] {
      var t := Token(bs[0]);
      TokenDigits(bs[0]);
      TokensShape(bs[1..]);
      CountAppend(t, Tokens(bs[1..]), '\n');
      assert Count(t, '\n') == 0 by {
        assert t[1..][1..][1..] == [];
        assert Count(t[1..][1..], '\n') == 0;
        assert Count(t[1..], '\n') == 0;
      }
    }
  }

  /** A dump of n bytes has ceil(n / 32) lines and 3n + ceil(n / 32) characters. */
  lemma {:induction false} LinesShape(bs: seq<uint8>)
    ensures Count(Lines(bs), '\n') == (|bs| + 31) / 32
    ensures |Lines(bs)| == 3 * |bs| + (|bs| + 31) / 32
    decreases |bs|
  {
    if bs == [] {
    } else if |bs| <= 32 {
      TokensShape(bs);
      CountAppend(Tokens(bs), "\n", '\n');
    } else {
      TokensShape(bs[..32]);
      LinesShape(bs[32..]);
      CountAppend(Tokens(bs[..32]), "\n", '\n');
      CountAppend(Tokens(bs[..32]) + "\n", Lines(bs[32..]), '\n');
    }
  }

  /** Reads a dump back: skips line breaks, turns each `" XY"` into a byte. */
  function Undump(s: string): Option<seq<uint8>>
    decreases |s|
  {
    if s == [] then Some([])
    else if s[0] == '\n' then Undump(s[1..])
    else if |s| >= 3 && s[0] == ' ' && IsUpperHex(s[1]) && IsUpperHex(s[2]) then
      match Undump(s[3..])
      case None => None
      case Some(rest) => Some([16 * HexValue(s[1]) + HexValue(s[2])] + rest)
    else None
  }

  lemma {:induction false} UndumpTokens(bs: seq<uint8>, s: string, rest: seq<uint8>)
    requires Undump(s) == Some(rest)
    ensures Undump(Tokens(bs) + s) == Some(bs + rest)
    decreases |bs|
  {
    if bs != [] {
      var t := Token(bs[0]);
      TokenDigits(bs[0]);
      var u := Tokens(bs[1..]) + s;
      UndumpTokens(bs[1..], s, rest);
      assert Tokens(bs) + s == t + u;
      var w := t + u;
      assert w[0] == ' ' && w[1] == t[1] && w[2] == t[2] && |w| >= 3;
      assert w[3..] == u;
      assert Undump(w) == Some([bs[0]] + (bs[1..] + rest));
      assert [bs[0]] + (bs[1..] + rest) == bs + rest;
    } else {
      assert Tokens(bs) + s == s && bs + rest == rest;
    }
  }

  /** The dump loses nothing: reading it back gives exactly the dumped bytes. */
  lemma {:induction false} UndumpLines(bs: seq<uint8>)
    ensures Undump(Lines(bs)) == Some(bs)
    decreases |bs|
  {
    if bs == [] {
    } else if |bs| <= 32 {
      assert Undump("\n") == Some([]) by { assert "\n"[1..] == ""; }
      UndumpTokens(bs, "\n", []);
      assert bs + [] == bs;
    } else {
      UndumpLines(bs[32..]);
      var nl := "\n" + Lines(bs[32..]);
      assert Undump(nl) == Some(bs[32..]) by { assert nl[1..] == Lines(bs[32..]); }
      UndumpTokens(bs[..32], nl, bs[32..]);
      assert Tokens(bs[..32]) + "\n" + Lines(bs[32..]) == Tokens(bs[..32]) + nl;
      assert bs[..32] + bs[32..] == bs;
    }
  }
}
