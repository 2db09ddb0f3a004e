/**
 Base64 (section 4 of RFC 4648) and the line wrapping of mail attachments: 57 raw bytes make one
 line of 76 characters (section 6.8 of RFC 2045).
 */
module Base64 {
  import opened Bytes

  const PAD: byte := 61

  /** The character of the standard alphabet for a six-bit value. */
  function Symbol(v: nat): (c: byte)
    requires v < 64
  {
    if v < 26 then 65 + v else if v < 52 then 71 + v else if v < 62 then v - 4 else if v == 62 then 43 else 47
  }

  /** The six-bit value of a character, or -1. */
  function Value(c: byte): (v: int)
    ensures -1 <= v < 64
  {
    if 65 <= c <= 90 then c - 65
    else if 97 <= c <= 122 then c - 71
    else if 48 <= c <= 57 then c + 4
    else if c == 43 then 62
    else if c == 47 then 63
    else -1
  }

  /** One group of one to three bytes as four characters. */
  function EncodeGroup(g: seq<byte>): (r: seq<byte>)
    requires 1 <= |g| <= 3
  {
    var b, c := if |g| > 1 then g[1] else 0, if |g| > 2 then g[2] else 0;
    [Symbol(g[0] / 4), Symbol(g[0] % 4 * 16 + b / 16),
     if |g| > 1 then Symbol(b % 16 * 4 + c / 64) else PAD,
     if |g| > 2 then Symbol(c % 64) else PAD]
  }

  function Encode(s: seq<byte>): (r: seq<byte>) {
    if s == [] then [] else EncodeGroup(s[..Min(3, |s|)]) + Encode(s[Min(3, |s|)..])
  }

  datatype Decoded = Invalid | Bytes(data: seq<byte>)

  /** Four characters as one to three bytes; only the last group may be padded. */
  function DecodeGroup(q: seq<byte>, last: bool): Decoded
    requires |q| == 4
  {
    var v0, v1, v2, v3 := Value(q[0]), Value(q[1]), Value(q[2]), Value(q[3]);
    if v0 < 0 || v1 < 0 then Invalid
    else
      var b0 := v0 * 4 + v1 / 16;
      if last && q[2] == PAD && q[3] == PAD then Bytes([b0])
      else if v2 < 0 then Invalid
      else
        var b1 := v1 % 16 * 16 + v2 / 4;
        if last && q[3] == PAD then Bytes([b0, b1])
        else if v3 < 0 then Invalid
        else Bytes([b0, b1, v2 % 4 * 64 + v3])
  }

  function Decode(t: seq<byte>): Decoded {
    if t == [] then Bytes([])
    else if |t| < 4 then Invalid
    else
      match DecodeGroup(t[..4], |t| == 4)
      case Invalid => Invalid
      case Bytes(head) =>
        match Decode(t[4..])
        case Invalid => Invalid
        case Bytes(tail) => Bytes(head + tail)
  }

  lemma ValueOfSymbol(v: nat)
    requires v < 64
    ensures Value(Symbol(v)) == v && Symbol(v) != PAD && Symbol(v) != LF && Symbol(v) != CR
  {}

  lemma GroupRoundTrip(g: seq<byte>, last: bool)
    requires 1 <= |g| <= 3 && (|g| == 3 || last)
    ensures DecodeGroup(EncodeGroup(g), last) == Bytes(g)
  {
    var b, c := if |g| > 1 then g[1] else 0, if |g| > 2 then g[2] else 0;
    ValueOfSymbol(g[0] / 4);
    ValueOfSymbol(g[0] % 4 * 16 + b / 16);
    ValueOfSymbol(b % 16 * 4 + c / 64);
    ValueOfSymbol(c % 64);
  }

  /** Decoding gives back what was encoded, for every input. */
  lemma {:induction false} RoundTrip(s: seq<byte>)
    ensures Decode(Encode(s)) == Bytes(s)
  {
    if s != [] {
      var g, rest := s[..Min(3, |s|)], s[Min(3, |s|)..];
      RoundTrip(rest);
      GroupRoundTrip(g, rest == []);
      assert s == g + rest;
      EncodeUnfold(g, rest);
      EncodeLength(rest);
      assert Encode(s)[..4] == EncodeGroup(g) && Encode(s)[4..] == Encode(rest);
    }
  }

  lemma EncodeUnfold(g: seq<byte>, rest: seq<byte>)
    requires |g| == 3 || (1 <= |g| <= 3 && rest == [])
    ensures Encode(g + rest) == EncodeGroup(g) + Encode(rest)
  {
    assert (g + rest)[..Min(3, |g + rest|)] == g && (g + rest)[Min(3, |g + rest|)..] == rest;
  }

  /** The length is four characters for every started group. */
  lemma {:induction false} EncodeLength(s: seq<byte>)
    ensures |Encode(s)| == (|s| + 2) / 3 * 4
  {
    if s != [] {
      EncodeLength(s[Min(3, |s|)..]);
    }
  }

  /**
   The encoding holds no line break; it holds padding only for a started group, and only in its last
   two characters.
   */
  lemma {:induction false} EncodeShape(s: seq<byte>)
    ensures LF !in Encode(s) && CR !in Encode(s)
    ensures |s| % 3 == 0 <==> PAD !in Encode(s)
    ensures forall i :: 0 <= i < |Encode(s)| - 2 ==> Encode(s)[i] != PAD
  {
    if s != [] {
      var g, rest := s[..Min(3, |s|)], s[Min(3, |s|)..];
      EncodeShape(rest);
      GroupShape(g);
      assert s == g + rest;
      EncodeUnfold(g, rest);
      ShapeConcat(EncodeGroup(g), Encode(rest));
    }
  }

  lemma ShapeConcat(a: seq<byte>, b: seq<byte>)
    requires |a| == 4 && (b != [] ==> |b| > 2 && PAD !in a)
    requires PAD !in a[..2] && forall i :: 0 <= i < |b| - 2 ==> b[i] != PAD
    ensures forall i :: 0 <= i < |a + b| - 2 ==> (a + b)[i] != PAD
  {
    forall i | 0 <= i < |a + b| - 2 ensures (a + b)[i] != PAD {
      if b == [] { assert a[i] == a[..2][i]; } else if i < 4 { assert a[i] in a; }
    }
  }

  lemma GroupShape(g: seq<byte>)
    requires 1 <= |g| <= 3
    ensures LF !in EncodeGroup(g) && CR !in EncodeGroup(g) && PAD !in EncodeGroup(g)[..2]
    ensures |g| == 3 <==> PAD !in EncodeGroup(g)
  {
    var b, c := if |g| > 1 then g[1] else 0, if |g| > 2 then g[2] else 0;
    ValueOfSymbol(g[0] / 4);
    ValueOfSymbol(g[0] % 4 * 16 + b / 16);
    ValueOfSymbol(b % 16 * 4 + c / 64);
    ValueOfSymbol(c % 64);
  }

  const UPPER := "ABCDEFGHIJKLMNOPQRSTUVWXYZ"
  const LOWER := "abcdefghijklmnopqrstuvwxyz"
  const DIGITS := "0123456789"

  /** The standard alphabet, table 1 of RFC 4648. */
  const ALPHABET := UPPER + LOWER + DIGITS + "+/"

  lemma SymbolIs(v: nat)
    requires v < 64
    ensures |ALPHABET| == 64 && Symbol(v) == ALPHABET[v] as int
  {
    if v < 26 {
      Letters(v);
    } else if v < 52 {
      Letters(v - 26);
    } else if v < 62 {
      Digits(v - 52);
    }
  }

  lemma Letters(k: nat)
    requires k < 26
    ensures UPPER[k] as int == 65 + k && LOWER[k] as int == 97 + k
  {}

  lemma Digits(k: nat)
    requires k < 10
    ensures DIGITS[k] as int == 48 + k
  {}

  /** The byte at `i`, or zero behind the end. */
  function ByteAt(s: seq<byte>, i: nat): nat {
    if i < |s| then s[i] else 0
  }

  /** The 24 bits of the group that starts at `i`, zero-filled. */
  function GroupBits(s: seq<byte>, i: nat): nat {
    65536 * ByteAt(s, i) + 256 * ByteAt(s, i + 1) + ByteAt(s, i + 2)
  }

  function Letter(v: nat): int
    requires v < 64
  {
    ALPHABET[v] as int
  }

  /**
   `q` encodes the group that starts at `i`: its characters stand for six of the 24 bits each, the
   highest first, and "=" stands where there is no byte.
   */
  predicate GroupIs(s: seq<byte>, i: nat, q: seq<byte>) {
    var n := GroupBits(s, i);
    && |q| == 4 && n < 0x100_0000
    && q[0] == Letter(n / 0x4_0000) && q[1] == Letter(n / 0x1000 % 64)
    && q[2] == (if i + 1 < |s| then Letter(n / 64 % 64) else '=' as int)
    && q[3] == (if i + 2 < |s| then Letter(n % 64) else '=' as int)
  }

  /** Every group of the encoding encodes that group of the input, by the alphabet and the bit order of RFC 4648. */
  lemma {:induction false} EncodingIs(s: seq<byte>, j: nat)
    requires 3 * j < |s|
    ensures 4 * j + 4 <= |Encode(s)| == (|s| + 2) / 3 * 4
    ensures GroupIs(s, 3 * j, Encode(s)[4 * j..4 * j + 4])
    decreases j
  {
    EncodeLength(s);
    GroupAt(s, j);
    FirstGroup(s[3 * j..]);
    ShiftGroup(s, 3 * j, EncodeGroup(s[3 * j..][..Min(3, |s| - 3 * j)]));
  }

  /** The `j`-th four characters are the encoded `j`-th group. */
  lemma {:induction false} GroupAt(s: seq<byte>, j: nat)
    requires 3 * j < |s|
    ensures 4 * j + 4 <= |Encode(s)|
    ensures Encode(s)[4 * j..4 * j + 4] == EncodeGroup(s[3 * j..][..Min(3, |s| - 3 * j)])
    decreases j
  {
    var rest := s[Min(3, |s|)..];
    assert Encode(s) == EncodeGroup(s[..Min(3, |s|)]) + Encode(rest);
    if j == 0 {
      assert s[0..] == s;
    } else {
      GroupAt(rest, j - 1);
      assert rest[3 * (j - 1)..] == s[3 * j..];
    }
  }

  lemma FirstGroup(s: seq<byte>)
    requires s != []
    ensures GroupIs(s, 0, EncodeGroup(s[..Min(3, |s|)]))
  {
    var g0, g1, g2 := ByteAt(s, 0), ByteAt(s, 1), ByteAt(s, 2);
    var n := GroupBits(s, 0);
    Sextets(g0, g1, g2, n);
    SymbolIs(n / 0x4_0000);
    SymbolIs(n / 0x1000 % 64);
    SymbolIs(n / 64 % 64);
    SymbolIs(n % 64);
  }

  lemma Sextets(g0: byte, g1: byte, g2: byte, n: nat)
    requires n == 65536 * g0 + 256 * g1 + g2
    ensures n < 0x100_0000 && n / 0x4_0000 == g0 / 4 && n / 0x1000 % 64 == g0 % 4 * 16 + g1 / 16
    ensures n / 64 % 64 == g1 % 16 * 4 + g2 / 64 && n % 64 == g2 % 64
  {
    var h, l := g0 % 4 * 16 + g1 / 16, g1 % 16 * 4 + g2 / 64;
    assert n == 0x4_0000 * (g0 / 4) + 0x1000 * h + 64 * l + g2 % 64;
    assert n / 0x1000 == 64 * (g0 / 4) + h && n / 64 == 64 * (64 * (g0 / 4) + h) + l;
  }

  lemma ShiftGroup(s: seq<byte>, i: nat, q: seq<byte>)
    requires i < |s| && GroupIs(s[i..], 0, q)
    ensures GroupIs(s, i, q)
  {
    assert GroupBits(s[i..], 0) == GroupBits(s, i);
  }

  /** Encoding distributes over a cut at a multiple of three bytes. */
  lemma {:induction false} EncodeConcat(a: seq<byte>, b: seq<byte>)
    requires |a| % 3 == 0
    ensures Encode(a + b) == Encode(a) + Encode(b)
  {
    if a == [] {
      assert a + b == b;
    } else {
      var g, rest := a[..3], a[3..];
      EncodeConcat(rest, b);
      Reassociate(g, rest, b);
      EncodeUnfold(g, rest);
      EncodeUnfold(g, rest + b);
      Reassociate(EncodeGroup(g), Encode(rest), Encode(b));
      assert a == g + rest;
    }
  }

  lemma Reassociate(a: seq<byte>, b: seq<byte>, c: seq<byte>)
    ensures a + (b + c) == (a + b) + c
  {}
}

module Base64Wrap {
  import opened Bytes
  import opened Base64
  import opened Readers

  const MAX_RAW := 57
  const MAX_LINE := 76

  /** The lines on the wire, each ended by CRLF. */
  function Wire(lines: seq<seq<byte>>): seq<byte> {
    if lines == [] then [] else lines[0] + CRLF + Wire(lines[1..])
  }

  /** What a base64 decoder ignores is dropped. */
  function StripBreaks(s: seq<byte>): seq<byte> {
    if s == [] then []
    else if s[0] == CR || s[0] == LF then StripBreaks(s[1..])
    else [s[0]] + StripBreaks(s[1..])
  }

  /** The meant lines: every chunk encoded by itself. */
  function Lines(chunks: seq<seq<byte>>): seq<seq<byte>> {
    if chunks == [] then [] else [Encode(chunks[0])] + Lines(chunks[1..])
  }

  /** The lines as shipped: the whole buffer is encoded whatever the length of the chunk read into it. */
  function ShippedLines(buf: seq<byte>, chunks: seq<seq<byte>>): seq<seq<byte>>
    decreases |chunks|
  {
    if chunks == [] then []
    else [Encode(Over(chunks[0], buf))] + ShippedLines(Over(chunks[0], buf), chunks[1..])
  }

  function Target(buf: seq<byte>, chunks: seq<seq<byte>>, trimmed: bool): seq<byte> {
    Wire(if trimmed then Lines(chunks) else ShippedLines(buf, chunks))
  }

  /**
   The wrapping loop. The shipped code encodes all of `b` for a short chunk (trimmed == false); the
   meant code encodes `b[..n]` (trimmed == true). One output buffer serves every line; appending the
   line break writes into it, yet its last two bytes are a line break at every loop head.
   */
  method Wrap(r: Reader, trimmed: bool) returns (out: seq<byte>, failed: bool)
    requires forall c :: c in r.chunks ==> |c| <= MAX_RAW
    modifies r
    ensures failed == r.fails
    ensures out == Target(seq(MAX_RAW, _ => 0), old(r.chunks), trimmed)
  {
    var buffer := new byte[MAX_LINE + 2](_ => 0);
    buffer[MAX_LINE], buffer[MAX_LINE + 1] := CR, LF;
    var b := new byte[MAX_RAW](_ => 0);
    ghost var goal := Target(b[..], r.chunks, trimmed);
    assert b[..] == seq(MAX_RAW, _ => 0);
    out := [];
    assert out + goal == goal;
    while true
      invariant fresh(buffer) && fresh(b) && buffer != b
      invariant forall c :: c in r.chunks ==> |c| <= MAX_RAW
      invariant buffer[MAX_LINE..] == CRLF
      invariant out + Target(b[..], r.chunks, trimmed) == goal
      decreases |r.chunks|
    {
      ghost var before, chunks := b[..], r.chunks;
      var line, err := NextLine(r, b, buffer, trimmed);
      if err != None {
        assert out + [] == out;
        return out, err == Failed;
      }
      TargetStep(before, chunks, trimmed);
      Reassociate(out, line, Target(b[..], r.chunks, trimmed));
      out := out + line;
    }
  }

  /** One round of the loop: reads a chunk and encodes it as one line. */
  method NextLine(r: Reader, b: array<byte>, buffer: array<byte>, trimmed: bool) returns (line: seq<byte>, err: ReadErr)
    requires forall c :: c in r.chunks ==> |c| <= MAX_RAW
    requires b.Length == MAX_RAW && buffer.Length == MAX_LINE + 2 && buffer != b && buffer[MAX_LINE..] == CRLF
    modifies r`chunks, b, buffer
    ensures buffer[MAX_LINE..] == CRLF
    ensures old(r.chunks) == [] ==> err == (if r.fails then Failed else EOF) && r.chunks == [] && b[..] == old(b[..])
    ensures old(r.chunks) != [] ==>
              && err == None && r.chunks == old(r.chunks)[1..]
              && b[..] == Over(old(r.chunks)[0], old(b[..]))
              && line == Encode(if trimmed then old(r.chunks)[0] else b[..]) + CRLF
  {
    var n;
    n, err := r.Read(b);
    if err != None {
      return [], err;
    }
    assert b[..n] == old(r.chunks)[0];
    if n == MAX_RAW {
      assert b[..n] == b[..];
      line := WriteLine(buffer, b[..n], false);
    } else {
      line := WriteLine(buffer, if trimmed then b[..n] else b[..], true);
    }
  }

  /** Encodes into the front of the buffer; the line break is there already, or is appended over what follows. */
  method WriteLine(buffer: array<byte>, raw: seq<byte>, append: bool) returns (line: seq<byte>)
    requires buffer.Length == MAX_LINE + 2 && buffer[MAX_LINE..] == CRLF
    requires |raw| <= MAX_RAW && (!append ==> |raw| == MAX_RAW)
    modifies buffer
    ensures line == Encode(raw) + CRLF && buffer[MAX_LINE..] == CRLF
  {
    EncodeLength(raw);
    var e := Encode(raw);
    forall i | 0 <= i < |e| { buffer[i] := e[i]; }
    assert buffer[MAX_LINE] == CRLF[0] && buffer[MAX_LINE + 1] == CRLF[1];
    if append {
      buffer[|e|] := CR;
      buffer[|e| + 1] := LF;
      line := buffer[..|e| + 2];
    } else {
      line := buffer[..];
    }
  }

  lemma TargetStep(buf: seq<byte>, chunks: seq<seq<byte>>, trimmed: bool)
    requires chunks != []
    ensures var b := Over(chunks[0], buf);
            Target(buf, chunks, trimmed) ==
            Encode(if trimmed then chunks[0] else b) + CRLF + Target(b, chunks[1..], trimmed)
  {
    assert Lines(chunks)[1..] == Lines(chunks[1..]);
    assert ShippedLines(buf, chunks)[1..] == ShippedLines(Over(chunks[0], buf), chunks[1..]);
  }

  lemma {:induction false} StripConcat(a: seq<byte>, b: seq<byte>)
    ensures StripBreaks(a + b) == StripBreaks(a) + StripBreaks(b)
  {
    if a == [] {
      assert a + b == b;
    } else {
      assert (a + b)[1..] == a[1..] + b;
      StripConcat(a[1..], b);
    }
  }

  lemma {:induction false} StripNothing(s: seq<byte>)
    requires CR !in s && LF !in s
    ensures StripBreaks(s) == s
  {
    if s != [] {
      StripNothing(s[1..]);
    }
  }

  lemma StripBreak()
    ensures StripBreaks(CRLF) == []
  {
    var lf: seq<byte> := [LF];
    assert lf[1..] == [] && CRLF[1..] == lf;
    assert StripBreaks(lf) == [];
  }

  lemma StripLine(l: seq<byte>)
    requires CR !in l && LF !in l
    ensures StripBreaks(l + CRLF) == l
  {
    StripConcat(l, CRLF);
    StripNothing(l);
    StripBreak();
  }

  /** Stripping the line breaks leaves the lines joined up. */
  lemma {:induction false} StripWire(lines: seq<seq<byte>>)
    requires forall i :: 0 <= i < |lines| ==> CR !in lines[i] && LF !in lines[i]
    ensures StripBreaks(Wire(lines)) == Flatten(lines)
  {
    if lines != [] {
      var line, rest := lines[0], lines[1..];
      StripWire(rest);
      StripLine(line);
      StripConcat(line + CRLF, Wire(rest));
    }
  }

  /** All chunks but the last end on a group of three bytes. */
  predicate Grouped(chunks: seq<seq<byte>>) {
    forall i :: 0 <= i < |chunks| - 1 ==> |chunks[i]| % 3 == 0
  }

  lemma {:induction false} LinesJoin(chunks: seq<seq<byte>>)
    requires Grouped(chunks)
    ensures Flatten(Lines(chunks)) == Encode(Flatten(chunks))
    ensures forall i :: 0 <= i < |Lines(chunks)| ==> CR !in Lines(chunks)[i] && LF !in Lines(chunks)[i]
  {
    if chunks != [] {
      var head, rest := chunks[0], chunks[1..];
      assert Grouped(rest) by {
        forall i | 0 <= i < |rest| - 1 ensures |rest[i]| % 3 == 0 { assert rest[i] == chunks[i + 1]; }
      }
      LinesJoin(rest);
      EncodeShape(head);
      assert Lines(chunks)[1..] == Lines(rest);
      if rest == [] {
        assert head + [] == head && Encode(head) + [] == Encode(head);
      } else {
        EncodeConcat(head, Flatten(rest));
      }
    }
  }

  lemma {:induction false} FileChunksGrouped(data: seq<byte>)
    ensures Grouped(FileChunks(data, MAX_RAW))
    ensures forall i :: 0 <= i < |FileChunks(data, MAX_RAW)| - 1 ==> |FileChunks(data, MAX_RAW)[i]| == MAX_RAW
    ensures |FileChunks(data, MAX_RAW)| == (|data| + 56) / 57
  {
    if data != [] {
      FileChunksGrouped(data[Min(MAX_RAW, |data|)..]);
    }
  }

  /**
   The meant code: without its line breaks the output is the base64 of the whole input, and it
   decodes to the input.
   */
  lemma {:induction false} TrimmedIsBase64(buf: seq<byte>, data: seq<byte>)
    ensures StripBreaks(Target(buf, FileChunks(data, MAX_RAW), true)) == Encode(data)
    ensures Decode(StripBreaks(Target(buf, FileChunks(data, MAX_RAW), true))) == Decoded.Bytes(data)
  {
    var chunks := FileChunks(data, MAX_RAW);
    FileChunksGrouped(data);
    FileChunksTile(data, MAX_RAW);
    LinesJoin(chunks);
    StripWire(Lines(chunks));
    RoundTrip(data);
  }

  lemma {:induction false} LineAt(chunks: seq<seq<byte>>, i: nat)
    requires i < |chunks|
    ensures |Lines(chunks)| == |chunks| && Lines(chunks)[i] == Encode(chunks[i])
  {
    if i > 0 {
      LineAt(chunks[1..], i - 1);
    } else if |chunks| > 1 {
      LineAt(chunks[1..], 0);
    }
  }

  /** `line` and a line break stand at `at`. */
  predicate LineStands(out: seq<byte>, at: nat, line: seq<byte>) {
    at + |line| + 2 <= |out| && out[at..at + |line|] == line && out[at + |line|..at + |line| + 2] == [13, 10]
  }

  lemma {:induction false} WireAt(lines: seq<seq<byte>>, i: nat)
    requires i < |lines| && forall k :: 0 <= k < i ==> |lines[k]| == 76
    ensures LineStands(Wire(lines), 78 * i, lines[i])
    decreases i
  {
    var line, tail := lines[0], Wire(lines[1..]);
    assert Wire(lines) == line + CRLF + tail;
    if i == 0 {
      assert (line + CRLF + tail)[|line|..|line| + 2] == CRLF;
    } else {
      WireAt(lines[1..], i - 1);
      StandsLater(line + CRLF, tail, 78 * (i - 1), lines[i]);
    }
  }

  lemma StandsLater(head: seq<byte>, tail: seq<byte>, at: nat, line: seq<byte>)
    requires LineStands(tail, at, line)
    ensures LineStands(head + tail, |head| + at, line)
  {
    var out, k := head + tail, |head| + at;
    assert out[k..k + |line|] == tail[at..at + |line|];
    assert out[k + |line|..k + |line| + 2] == tail[at + |line|..at + |line| + 2];
  }

  lemma {:induction false} FileChunkAt(data: seq<byte>, i: nat)
    requires 57 * i < |data|
    ensures i < |FileChunks(data, MAX_RAW)|
    ensures FileChunks(data, MAX_RAW)[i] == data[57 * i..Min(57 * i + 57, |data|)]
    decreases i
  {
    var n := Min(MAX_RAW, |data|);
    assert FileChunks(data, MAX_RAW) == [data[..n]] + FileChunks(data[n..], MAX_RAW);
    if i > 0 {
      FileChunkAt(data[n..], i - 1);
      SliceOfTail(data, 57, 57 * i - 57, Min(57 * i, |data| - 57));
    }
  }

  lemma SliceOfTail(data: seq<byte>, n: nat, a: nat, b: nat)
    requires a <= b && n + b <= |data|
    ensures data[n..][a..b] == data[n + a..n + b]
  {}

  /**
   The meant code: at every 78th byte starts a line, the base64 of 57 bytes of input, or of what is
   left, and CR and LF.
   */
  lemma TrimmedAt(buf: seq<byte>, data: seq<byte>, i: nat)
    requires 57 * i < |data|
    ensures LineStands(Target(buf, FileChunks(data, MAX_RAW), true), 78 * i,
                       Encode(data[57 * i..Min(57 * i + 57, |data|)]))
  {
    var chunks := FileChunks(data, MAX_RAW);
    FileChunkAt(data, i);
    LineAt(chunks, i);
    forall k | 0 <= k < i ensures |Lines(chunks)[k]| == 76 { FullLineAt(data, k); }
    WireAt(Lines(chunks), i);
  }

  lemma FullLineAt(data: seq<byte>, k: nat)
    requires 57 * (k + 1) < |data|
    ensures k < |Lines(FileChunks(data, MAX_RAW))| && |Lines(FileChunks(data, MAX_RAW))[k]| == 76
  {
    FileChunkAt(data, k);
    LineAt(FileChunks(data, MAX_RAW), k);
    EncodeLength(data[57 * k..57 * k + 57]);
  }

  lemma {:induction false} WireLength(lines: seq<seq<byte>>)
    ensures |Wire(lines)| == |Flatten(lines)| + 2 * |lines|
  {
    if lines != [] {
      WireLength(lines[1..]);
    }
  }

  /** The meant code: every line but the last has 76 characters and no padding, the last at most 76. */
  lemma {:induction false} TrimmedShape(data: seq<byte>, i: nat)
    requires i < |FileChunks(data, MAX_RAW)|
    ensures var lines := Lines(FileChunks(data, MAX_RAW));
            && i < |lines| == (|data| + 56) / 57
            && (if i < |lines| - 1 then |lines[i]| == MAX_LINE && PAD !in lines[i] else 4 <= |lines[i]| <= MAX_LINE)
            && CR !in lines[i] && LF !in lines[i]
  {
    var chunks := FileChunks(data, MAX_RAW);
    FileChunksGrouped(data);
    LineAt(chunks, i);
    var chunk := chunks[i];
    assert chunk in chunks && 1 <= |chunk| <= MAX_RAW;
    ChunkShape(chunk);
  }

  lemma ChunkShape(chunk: seq<byte>)
    requires 1 <= |chunk| <= MAX_RAW
    ensures 4 <= |Encode(chunk)| <= MAX_LINE && CR !in Encode(chunk) && LF !in Encode(chunk)
    ensures |chunk| == MAX_RAW ==> |Encode(chunk)| == MAX_LINE && PAD !in Encode(chunk)
  {
    EncodeLength(chunk);
    EncodeShape(chunk);
  }

  /** The meant code: the length is that of the base64 plus one line break for every started line. */
  lemma TrimmedLength(buf: seq<byte>, data: seq<byte>)
    ensures |Target(buf, FileChunks(data, MAX_RAW), true)| == (|data| + 2) / 3 * 4 + (|data| + 56) / 57 * 2
  {
    var chunks := FileChunks(data, MAX_RAW);
    FileChunksGrouped(data);
    FileChunksTile(data, MAX_RAW);
    LinesJoin(chunks);
    EncodeLength(data);
    WireLength(Lines(chunks));
    if data != [] { LineAt(chunks, 0); }
  }

  lemma {:induction false} ShippedLinesFull(buf: seq<byte>, chunks: seq<seq<byte>>)
    requires |buf| == MAX_RAW && AllFull(chunks)
    ensures ShippedLines(buf, chunks) == Lines(chunks)
    decreases |chunks|
  {
    if chunks != [] {
      assert Over(chunks[0], buf) == chunks[0];
      ShippedLinesFull(chunks[0], chunks[1..]);
    }
  }

  lemma {:induction false} ShippedLinesShape(buf: seq<byte>, chunks: seq<seq<byte>>)
    requires |buf| == MAX_RAW && forall i :: 0 <= i < |chunks| ==> |chunks[i]| <= MAX_RAW
    ensures var lines := ShippedLines(buf, chunks);
            && (forall i :: 0 <= i < |lines| ==> CR !in lines[i] && LF !in lines[i])
            && |Flatten(lines)| == MAX_LINE * |chunks| && PAD !in Flatten(lines)
    decreases |chunks|
  {
    if chunks != [] {
      var b := Over(chunks[0], buf);
      var rest := ShippedLines(b, chunks[1..]);
      ShippedLinesShape(b, chunks[1..]);
      ChunkShape(b);
      FlattenCons(Encode(b), rest);
      assert ShippedLines(buf, chunks) == [Encode(b)] + rest;
      assert MAX_LINE * |chunks| == MAX_LINE + MAX_LINE * |chunks[1..]|;
    }
  }

  lemma FlattenCons(line: seq<byte>, rest: seq<seq<byte>>)
    ensures Flatten([line] + rest) == line + Flatten(rest)
    ensures forall i :: 1 <= i < |rest| + 1 ==> ([line] + rest)[i] == rest[i - 1]
  {
    assert ([line] + rest)[1..] == rest;
  }

  /** What goes wrong: after a full read, a shorter one is encoded with the end of the full one behind it. */
  lemma {:induction false} ShippedStaleLine(buf: seq<byte>, chunks: seq<seq<byte>>, i: nat)
    requires |buf| == 57 && i + 1 < |chunks| && forall k :: 0 <= k <= i ==> |chunks[k]| == 57
    requires |chunks[i + 1]| <= 57
    ensures i + 1 < |ShippedLines(buf, chunks)|
    ensures ShippedLines(buf, chunks)[i + 1] == Encode(chunks[i + 1] + chunks[i][|chunks[i + 1]|..])
    decreases i
  {
    var b, rest := Over(chunks[0], buf), chunks[1..];
    assert b == chunks[0];
    assert ShippedLines(buf, chunks) == [Encode(b)] + ShippedLines(b, rest);
    if i > 0 {
      ShippedStaleLine(b, rest, i - 1);
    } else {
      assert ShippedLines(b, rest) == [Encode(Over(rest[0], b))] + ShippedLines(Over(rest[0], b), rest[1..]);
    }
  }

  predicate AllFull(chunks: seq<seq<byte>>) {
    forall i :: 0 <= i < |chunks| ==> |chunks[i]| == MAX_RAW
  }

  lemma {:induction false} FlatLength(chunks: seq<seq<byte>>)
    requires forall i :: 0 <= i < |chunks| ==> |chunks[i]| <= MAX_RAW
    ensures |Flatten(chunks)| <= MAX_RAW * |chunks|
    ensures |Flatten(chunks)| == MAX_RAW * |chunks| <==> AllFull(chunks)
  {
    if chunks != [] {
      var rest := chunks[1..];
      FlatLength(rest);
      AllFullCons(chunks[0], rest);
      assert chunks == [chunks[0]] + rest;
    }
  }

  lemma AllFullCons(x: seq<byte>, rest: seq<seq<byte>>)
    ensures AllFull([x] + rest) <==> |x| == MAX_RAW && AllFull(rest)
  {
    var all := [x] + rest;
    assert all[0] == x;
    if AllFull(all) {
      forall i | 0 <= i < |rest| ensures |rest[i]| == MAX_RAW { assert rest[i] == all[i + 1]; }
    }
  }

  /** The shipped code produces the base64 of its input exactly when every read fills the 57-byte buffer. */
  lemma ShippedIsBase64Iff(buf: seq<byte>, chunks: seq<seq<byte>>)
    requires |buf| == MAX_RAW && forall i :: 0 <= i < |chunks| ==> |chunks[i]| <= MAX_RAW
    ensures StripBreaks(Target(buf, chunks, false)) == Encode(Flatten(chunks)) <==> AllFull(chunks)
  {
    ShippedLinesShape(buf, chunks);
    var lines := ShippedLines(buf, chunks);
    StripWire(lines);
    if AllFull(chunks) {
      ShippedLinesFull(buf, chunks);
      FullIsBase64(chunks);
    } else {
      FlatLength(chunks);
      NotFull(Flatten(lines), Flatten(chunks), |chunks|);
    }
  }

  lemma FullIsBase64(chunks: seq<seq<byte>>)
    requires AllFull(chunks)
    ensures Flatten(Lines(chunks)) == Encode(Flatten(chunks))
  {
    LinesJoin(chunks);
  }

  /** Whole lines without padding are not the base64 of fewer bytes. */
  lemma NotFull(text: seq<byte>, data: seq<byte>, k: nat)
    requires |text| == MAX_LINE * k && PAD !in text && |data| < MAX_RAW * k
    ensures text != Encode(data)
  {
    EncodeLength(data);
    EncodeShape(data);
    if text == Encode(data) { FullLines(|data|, k); }
  }

  lemma FullLines(n: nat, k: nat)
    requires n <= 57 * k && (n + 2) / 3 * 4 == 76 * k && n % 3 == 0
    ensures n == 57 * k
  {}

  /** On a regular file the shipped code is right exactly for lengths that are multiples of 57. */
  lemma {:induction false} ShippedOnFileIff(buf: seq<byte>, data: seq<byte>)
    requires |buf| == MAX_RAW
    ensures StripBreaks(Target(buf, FileChunks(data, MAX_RAW), false)) == Encode(data) <==> |data| % MAX_RAW == 0
  {
    FileChunksTile(data, MAX_RAW);
    AllFullIff(data);
    ShippedIsBase64Iff(buf, FileChunks(data, MAX_RAW));
  }

  lemma {:induction false} AllFullIff(data: seq<byte>)
    ensures AllFull(FileChunks(data, MAX_RAW)) <==> |data| % MAX_RAW == 0
  {
    if data != [] {
      var n := Min(MAX_RAW, |data|);
      var chunks, rest := FileChunks(data, MAX_RAW), FileChunks(data[n..], MAX_RAW);
      AllFullIff(data[n..]);
      assert chunks == [data[..n]] + rest;
      AllFullCons(data[..n], rest);
      assert n == MAX_RAW ==> |data[n..]| % MAX_RAW == |data| % MAX_RAW;
    }
  }
}
