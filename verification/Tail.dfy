/**
 The backward block reader of `tail`: `read` walks a file backwards by blocks, `TailLine`
 looks for the start of the last lines, and `ReadLine` stitches one line together from blocks
 that arrive in reverse.
 */
module TailSpec {
  import opened Bytes

  /** The position right after the `k`-th line feed of `s`. */
  function AfterNth(s: seq<byte>, k: nat): (r: nat)
    requires k <= Newlines(s)
    ensures r <= |s| && Newlines(s[..r]) == k
    ensures if k == 0 then r == 0 else r > 0 && s[r - 1] == LF
  {
    if k == 0 then 0
    else
      NewlinesFirst(s);
      var r := AfterNth(s[1..], if s[0] == LF then k - 1 else k);
      assert s[..r + 1][1..] == s[1..][..r];
      NewlinesFirst(s[..r + 1]);
      r + 1
  }

  /** The position of the `k`-th line feed of `s`, counted from the end. */
  function NthFromEnd(s: seq<byte>, k: nat): (r: nat)
    requires 1 <= k <= Newlines(s)
    ensures r < |s| && s[r] == LF && Newlines(s[r..]) == k
  {
    NewlinesFirst(s);
    assert s[0..] == s;
    if s[0] == LF && Newlines(s) == k then 0
    else
      var r := NthFromEnd(s[1..], k);
      assert s[r + 1..] == s[1..][r..];
      r + 1
  }

  /** Where the last `line` lines start: after the (line + 1)-th line feed from the end, or at 0. */
  function RefStart(s: seq<byte>, line: nat): nat {
    if Newlines(s) > line then NthFromEnd(s, line + 1) + 1 else 0
  }

  /** Whether `x` lies a whole number of blocks of `b` bytes below `top`. */
  predicate OnBoundary(top: nat, x: nat, b: nat)
    requires b >= 1
  {
    x == top || (x + b <= top && OnBoundary(top - b, x, b))
  }

  /** The start of the block that holds position `q`, for blocks of `b` bytes tiled downwards from `top`. */
  function BlockFloor(top: nat, q: nat, b: nat): (r: nat)
    requires b >= 1 && q < top
    ensures r <= q
    ensures r == 0 || OnBoundary(top, r, b)
    ensures forall x :: r < x <= q ==> !OnBoundary(top, x, b)
  {
    var o := if top >= b then top - b else 0;
    if q >= o then o else BlockFloor(o, q, b)
  }

  /** The position `TailLine` selects: the reference, unless the search ends early on a block boundary. */
  function TailStart(s: seq<byte>, line: nat, b: nat): nat
    requires line >= 1 && b >= 1
  {
    if Newlines(s) < line then 0
    else Max(RefStart(s, line), BlockFloor(|s|, NthFromEnd(s, line), b))
  }

  /**
   A block boundary, other than the file's start, that has exactly `line` line feeds after it and
   lies inside a line.
   */
  ghost predicate StopsMidLine(s: seq<byte>, line: nat, b: nat)
    requires b >= 1
  {
    exists o :: 0 < o < |s| && OnBoundary(|s|, o, b) && Newlines(s[o..]) == line && s[o - 1] != LF
  }

  /** Fewer bytes hold fewer newlines, and strictly fewer once a line feed has been dropped. */
  lemma NewlinesDrop(s: seq<byte>, i: nat, j: nat)
    requires i <= j <= |s|
    ensures Newlines(s[j..]) <= Newlines(s[i..])
    ensures i < j && s[i] == LF ==> Newlines(s[j..]) < Newlines(s[i..])
  {
    NewlinesSplit(s, i, j);
    NewlinesPositive(s[i..j]);
    if i < j && s[i] == LF { assert s[i..j][0] == LF; }
  }

  /** A line feed is determined by the number of line feeds from it on. */
  lemma LineFeedUnique(s: seq<byte>, i: nat, j: nat)
    requires i < |s| && j < |s| && s[i] == LF && s[j] == LF
    requires Newlines(s[i..]) == Newlines(s[j..])
    ensures i == j
  {
    if i < j { NewlinesDrop(s, i, j); } else { NewlinesDrop(s, j, i); }
  }

  lemma AfterLineFeed(s: seq<byte>, p: nat)
    requires 0 < p <= |s| && s[p - 1] == LF
    ensures Newlines(s[p - 1..]) == Newlines(s[p..]) + 1
    ensures Newlines(s[p..]) < Newlines(s)
  {
    NewlinesSplit(s, p - 1, p);
    assert s[p - 1..p] == [LF];
    NewlinesOne(LF);
    NewlinesDrop(s, 0, p - 1);
    assert s[0..] == s;
  }

  /** The reference is the only position with these properties. */
  lemma RefStartUnique(s: seq<byte>, line: nat, p: nat)
    requires p <= |s|
    ensures p == RefStart(s, line) <==>
            if p == 0 then Newlines(s) <= line else s[p - 1] == LF && Newlines(s[p..]) == line
  {
    var r := RefStart(s, line);
    if r > 0 { AfterLineFeed(s, r); }
    if p > 0 && s[p - 1] == LF {
      AfterLineFeed(s, p);
      if Newlines(s[p..]) == line { LineFeedUnique(s, p - 1, r - 1); }
    }
  }

  /** What is printed from the selected position holds exactly min(line, all) line feeds. */
  lemma TailStartCount(s: seq<byte>, line: nat, b: nat)
    requires line >= 1 && b >= 1
    ensures TailStart(s, line, b) <= |s|
    ensures Newlines(s[TailStart(s, line, b)..]) == Min(line, Newlines(s))
  {
    assert s[0..] == s;
    if Newlines(s) >= line {
      var q, r := NthFromEnd(s, line), RefStart(s, line);
      var o := BlockFloor(|s|, q, b);
      RefStartUnique(s, line, r);
      NewlinesDrop(s, o, q);
      if r <= o { NewlinesDrop(s, r, o); }
    }
  }

  /** The code meets the reference exactly when the count is not reached on a block boundary inside a line. */
  lemma TailStartIsReference(s: seq<byte>, line: nat, b: nat)
    requires line >= 1 && b >= 1
    ensures TailStart(s, line, b) == RefStart(s, line) <==> !StopsMidLine(s, line, b)
  {
    assert s[0..] == s;
    var r := RefStart(s, line);
    RefStartUnique(s, line, r);
    if Newlines(s) < line {
      forall o | 0 < o < |s| ensures Newlines(s[o..]) != line { NewlinesDrop(s, 0, o); }
    } else {
      var q := NthFromEnd(s, line);
      var o := BlockFloor(|s|, q, b);
      if r < o {
        NewlinesDrop(s, o, q);
        NewlinesDrop(s, r, o);
        RefStartUnique(s, line, o);
        assert StopsMidLine(s, line, b);
      } else {
        forall x | 0 < x < |s| && OnBoundary(|s|, x, b) && Newlines(s[x..]) == line ensures s[x - 1] == LF {
          MidBoundary(s, line, b, x);
        }
      }
    }
  }

  /**
   A last line that fills a block or more is always cut: asked for one line, the search stops at the
   block's start.
   */
  lemma LongLastLineIsCut(a: seq<byte>, b: nat)
    requires LF !in a && |a| >= b >= 1
    ensures StopsMidLine(a + [LF], 1, b) && TailStart(a + [LF], 1, b) == |a| + 1 - b
    ensures RefStart(a + [LF], 1) == 0
  {
    var s := a + [LF];
    var o := |s| - b;
    assert s[o..] == a[o..] + [LF];
    NewlinesConcat(a[o..], [LF]);
    NewlinesConcat(a, [LF]);
    NewlinesPositive(a[o..]);
    NewlinesPositive(a);
    NewlinesOne(LF);
    assert OnBoundary(|s|, o, b);
    assert s[o - 1] == a[o - 1] != LF;
    assert s[|a|..] == [LF];
    LineFeedUnique(s, NthFromEnd(s, 1), |a|);
  }

  lemma MidBoundary(s: seq<byte>, line: nat, b: nat, x: nat)
    requires line >= 1 && b >= 1 && Newlines(s) >= line
    requires BlockFloor(|s|, NthFromEnd(s, line), b) <= RefStart(s, line)
    requires 0 < x < |s| && OnBoundary(|s|, x, b) && Newlines(s[x..]) == line
    ensures s[x - 1] == LF
  {
    var q, r := NthFromEnd(s, line), RefStart(s, line);
    RefStartUnique(s, line, r);
    // x lies between the reference and the line feed q, so it is the boundary of q's own block
    if x > q { NewlinesDrop(s, q, x); }
    if r > x { AfterLineFeed(s, r); NewlinesDrop(s, x, r - 1); }
    assert r <= x <= q;
  }

  /** The exit test of the search; the shipped one is not strict. */
  predicate Stops(l: int, line: int, strict: bool) {
    if strict then l > line else l >= line
  }

  ghost function SearchGoal(g: seq<byte>, line: nat, b: nat, strict: bool): nat
    requires line >= 1 && b >= 1
  {
    if strict then RefStart(g, line) else TailStart(g, line, b)
  }

  /** The search has counted the `l` line feeds from `o` on, and they were not enough to stop. */
  ghost predicate Searching(g: seq<byte>, o: nat, l: int, line: nat, b: nat, strict: bool)
    requires line >= 1 && b >= 1
  {
    && o <= |g| && l == Newlines(g[o..]) && !Stops(l, line, strict)
    && (o == 0 ==> SearchGoal(g, line, b, strict) == 0)
    && (!strict && Newlines(g) >= line ==>
          && NthFromEnd(g, line) < o
          && BlockFloor(|g|, NthFromEnd(g, line), b) == BlockFloor(o, NthFromEnd(g, line), b))
  }

  lemma SearchBegins(g: seq<byte>, line: nat, b: nat, strict: bool)
    requires line >= 1 && b >= 1
    ensures Searching(g, |g|, 0, line, b, strict)
  {
    assert g[|g|..] == [];
  }

  lemma SearchContinues(g: seq<byte>, o: nat, top: nat, l: int, line: nat, b: nat, strict: bool)
    requires 1 <= line && b >= 1 && Searching(g, top, l, line, b, strict)
    requires 0 < top && o == Max(0, top - b) && !Stops(l + Newlines(g[o..top]), line, strict)
    ensures Searching(g, o, l + Newlines(g[o..top]), line, b, strict)
  {
    NewlinesSplit(g, o, top);
    assert g[0..] == g;
    if !strict && Newlines(g) >= line { BelowStart(g, line, o); }
  }

  /** Skipping the surplus lines of the last block reaches the goal. */
  lemma SearchStops(g: seq<byte>, o: nat, top: nat, l: int, line: nat, b: nat, strict: bool, seek: nat)
    requires 1 <= line && b >= 1 && Searching(g, top, l, line, b, strict)
    requires 0 < top && o == Max(0, top - b) && o + seek <= top
    requires Stops(l + Newlines(g[o..top]), line, strict)
    requires Newlines(g[o..top][..seek]) == l + Newlines(g[o..top]) - line
    requires if l + Newlines(g[o..top]) == line then seek == 0 else seek > 0 && g[o..top][seek - 1] == LF
    ensures o + seek == SearchGoal(g, line, b, strict)
  {
    NewlinesSplit(g, o, top);
    NewlinesSplit(g, o, o + seek);
    assert g[o..o + seek] == g[o..top][..seek];
    SearchEnds(g, line, b, o, top, o + seek, strict);
  }

  /** Complete lines that are `lines` in number, or all there are, are the first lines. */
  lemma FirstLinesUnique(s: seq<byte>, out: seq<byte>, lines: nat)
    requires out <= s && (out != [] ==> out[|out| - 1] == LF)
    requires Newlines(out) == Min(lines, Newlines(s))
    ensures out == FirstLines(s, lines)
  {
    assert s[..|out|] == out;
    assert out != [] ==> s[|out| - 1] == LF;
    var r := AfterNth(s, Min(lines, Newlines(s)));
    PrefixUnique(s, r, |out|);
  }

  lemma PrefixUnique(s: seq<byte>, i: nat, j: nat)
    requires i <= |s| && j <= |s| && Newlines(s[..i]) == Newlines(s[..j])
    requires i == 0 || s[i - 1] == LF
    requires j == 0 || s[j - 1] == LF
    ensures i == j
  {
    if i < j {
      PrefixGrows(s, i, j);
    } else if j < i {
      PrefixGrows(s, j, i);
    }
  }

  lemma PrefixGrows(s: seq<byte>, i: nat, j: nat)
    requires i < j <= |s| && s[j - 1] == LF
    ensures Newlines(s[..i]) < Newlines(s[..j])
  {
    assert s[..j] == s[..i] + s[i..j];
    NewlinesConcat(s[..i], s[i..j]);
    NewlinesPositive(s[i..j]);
    assert s[i..j][j - 1 - i] == LF;
  }

  /** While fewer than `line` line feeds lie after `o`, the `line`-th one is still below `o`. */
  lemma BelowStart(g: seq<byte>, line: nat, o: nat)
    requires 1 <= line <= Newlines(g) && o <= |g| && Newlines(g[o..]) < line
    ensures NthFromEnd(g, line) < o
  {
    var q := NthFromEnd(g, line);
    if o <= q { NewlinesDrop(g, o, q); }
  }

  lemma SearchEnds(g: seq<byte>, line: nat, b: nat, o: nat, top: nat, p: nat, strict: bool)
    requires 1 <= line && b >= 1 && o < top <= |g| && o == Max(0, top - b) && o <= p <= top
    requires Newlines(g[p..]) == line
    requires if strict then Newlines(g[top..]) <= line else Newlines(g[top..]) < line
    requires p == o ==> !strict
    requires p > o ==> g[p - 1] == LF
    requires !strict && Newlines(g) >= line ==>
        && NthFromEnd(g, line) < top
        && BlockFloor(|g|, NthFromEnd(g, line), b) == BlockFloor(top, NthFromEnd(g, line), b)
    ensures p == if strict then RefStart(g, line) else TailStart(g, line, b)
  {
    NewlinesDrop(g, 0, p);
    assert g[0..] == g;
    if p > o { RefStartUnique(g, line, p); }
    if !strict {
      var q := NthFromEnd(g, line);
      if q < p { NewlinesDrop(g, q, p); assert false; }
      assert BlockFloor(|g|, q, b) == o;
      if p == o && RefStart(g, line) > o {
        AfterLineFeed(g, RefStart(g, line));
        NewlinesDrop(g, o, RefStart(g, line) - 1);
      }
    }
  }

  /** At most `n` complete lines from the front of `s`; an unterminated rest is not one of them. */
  function FirstLines(s: seq<byte>, n: nat): seq<byte> {
    s[..AfterNth(s, Min(n, Newlines(s)))]
  }

  /** With a line count the output is a slice from the selected start, cut right after a line feed. */
  lemma TailSliceCount(s: seq<byte>, line: nat, lines: nat, b: nat)
    requires line >= 1 && b >= 1
    ensures TailStart(s, line, b) <= |s|
    ensures var out := FirstLines(s[TailStart(s, line, b)..], lines);
            && Newlines(out) == Min(lines, Min(line, Newlines(s)))
            && out <= s[TailStart(s, line, b)..]
            && (out != [] ==> out[|out| - 1] == LF)
  {
    TailStartCount(s, line, b);
  }

  /** Where the piece that `ReadLine` returns before `off` starts: at the last line feed, or at 0. */
  function PieceStart(f: seq<byte>, off: nat): nat
    requires off <= |f|
  {
    Max(0, LastIndexByte(f[..off], LF))
  }

  /** All pieces that repeated `ReadLine` calls return from `off` down to 0. */
  function Pieces(f: seq<byte>, off: nat): seq<seq<byte>>
    requires off <= |f|
  {
    if off == 0 then []
    else [f[PieceStart(f, off)..off]] + Pieces(f, PieceStart(f, off))
  }

  /** The first `n` parts put together, the last of them first. */
  function JoinedTo(parts: seq<seq<byte>>, n: nat): seq<byte>
    requires n <= |parts|
  {
    if n == 0 then [] else parts[n - 1] + JoinedTo(parts, n - 1)
  }

  /** All parts put together, the last one first. */
  function Joined(parts: seq<seq<byte>>): seq<byte> {
    JoinedTo(parts, |parts|)
  }

  lemma {:induction false} JoinedFront(parts: seq<seq<byte>>, part: seq<byte>, n: nat)
    requires n <= |parts|
    ensures JoinedTo(parts + [part], n) == JoinedTo(parts, n)
  {
    if n > 0 { JoinedFront(parts, part, n - 1); }
  }

  lemma JoinedSnoc(parts: seq<seq<byte>>, part: seq<byte>)
    ensures Joined(parts + [part]) == part + Joined(parts)
  {
    JoinedFront(parts, part, |parts|);
  }

  lemma {:induction false} JoinedCons(x: seq<byte>, parts: seq<seq<byte>>, n: nat)
    requires n <= |parts|
    ensures JoinedTo([x] + parts, n + 1) == JoinedTo(parts, n) + x
  {
    if n > 0 {
      JoinedCons(x, parts, n - 1);
    } else {
      assert JoinedTo([x] + parts, 0) == [];
    }
  }

  lemma JoinedPiece(x: seq<byte>, rest: seq<seq<byte>>)
    ensures Joined([x] + rest) == Joined(rest) + x
  {
    JoinedCons(x, rest, |rest|);
  }

  lemma PiecesUnfold(f: seq<byte>, off: nat)
    requires 0 < off <= |f|
    ensures var start := PieceStart(f, off);
            && start < off && f[..off] == f[..start] + f[start..off]
            && Pieces(f, off) == [f[start..off]] + Pieces(f, start)
  {}

  /** The pieces tile the file: put back in order they are the file. */
  lemma {:induction false} PiecesTile(f: seq<byte>, off: nat)
    requires off <= |f|
    ensures Joined(Pieces(f, off)) == f[..off]
  {
    if off > 0 {
      var start := PieceStart(f, off);
      PiecesUnfold(f, off);
      PiecesTile(f, start);
      JoinedPiece(f[start..off], Pieces(f, start));
    }
  }

  /** Each piece is not empty and holds a line feed only at its front. */
  lemma {:induction false} PiecesAreLines(f: seq<byte>, off: nat, i: nat)
    requires off <= |f| && i < |Pieces(f, off)|
    ensures Pieces(f, off)[i] != [] && LF !in Pieces(f, off)[i][1..]
    ensures i < |Pieces(f, off)| - 1 ==> Pieces(f, off)[i][0] == LF
    decreases i
  {
    var start := PieceStart(f, off);
    PieceShape(f, off);
    PiecesUnfold(f, off);
    if i > 0 {
      PiecesAreLines(f, start, i - 1);
    }
  }

  lemma PieceShape(f: seq<byte>, off: nat)
    requires 0 < off <= |f|
    ensures var start := PieceStart(f, off);
            start < off && LF !in f[start..off][1..] && (start > 0 ==> f[start..off][0] == LF)
  {
    var start := PieceStart(f, off);
    assert f[start..off][1..] == f[..off][start + 1..];
  }
}

module Tail {
  import opened Bytes
  import opened TailSpec
  import Units

  /** The outcome of a read: whether it reported the end of the file. */
  datatype Err = None | EOF

  /**
   The inner loop of the search: skips the first `extra` lines of a block. The block must hold
   that many line feeds, so the lookup for the next one never misses.
   */
  method SkipLines(block: seq<byte>, extra: nat) returns (seek: nat)
    requires extra <= Newlines(block)
    ensures seek <= |block| && Newlines(block[..seek]) == extra
    ensures if extra == 0 then seek == 0 else seek > 0 && block[seek - 1] == LF
  {
    seek := 0;
    var view := block;
    var left: nat := extra;
    while left > 0
      invariant left <= extra && seek <= |block| && view == block[seek..]
      invariant Newlines(block[..seek]) == extra - left
      invariant if left == extra then seek == 0 else seek > 0 && block[seek - 1] == LF
    {
      assert block == block[..seek] + view;
      NewlinesConcat(block[..seek], view);
      NewlinesPositive(view);
      var i := IndexByte(view, LF) + 1;
      assert i > 0;
      OneLine(view, i);
      assert block[..seek + i] == block[..seek] + view[..i];
      NewlinesConcat(block[..seek], view[..i]);
      view, seek, left := view[i..], seek + i, left - 1;
    }
  }

  lemma OneLine(s: seq<byte>, i: nat)
    requires 0 < i <= |s| && s[i - 1] == LF && LF !in s[..i - 1]
    ensures Newlines(s[..i]) == 1
  {
    assert s[..i] == s[..i - 1] + [LF];
    NewlinesConcat(s[..i - 1], [LF]);
    NewlinesOne(LF);
    NewlinesPositive(s[..i - 1]);
  }

  class TailFile {
    const file: seq<byte>  // the bytes of the open file
    var pos: nat           // the operating system's file position
    var size: int
    var offset: nat

    ghost predicate Valid()
      reads this
    {
      offset <= |file| && pos <= |file|
    }

    constructor (content: seq<byte>, size: int, offset: nat)
      requires offset <= |content|
      ensures Valid() && file == content && this.size == size && this.offset == offset && pos == 0
    {
      file, this.size, this.offset, pos := content, size, offset, 0;
    }

    /** Reads the block before `offset` and moves `offset` to that block's start. */
    method ReadBlock(p: array<byte>) returns (n: nat, err: Err)
      requires Valid() && p.Length >= 1
      modifies this`offset, this`pos, p
      ensures Valid()
      ensures err == EOF <==> old(offset) == 0
      ensures offset == Max(0, old(offset) - p.Length)
      ensures n == old(offset) - offset <= p.Length
      ensures p[..n] == file[offset..old(offset)]
      ensures if err == EOF then pos == old(pos) else pos == Min(offset + p.Length, |file|)
    {
      if offset == 0 {
        return 0, EOF;
      }
      var short := 0;
      if offset >= p.Length {
        offset := offset - p.Length;
      } else {
        short := offset;
        offset := 0;
      }
      pos := offset;
      // a full read from a regular file
      n := Min(p.Length, |file| - pos);
      forall i | 0 <= i < n { p[i] := file[pos + i]; }
      pos := pos + n;
      if short != 0 && short < n {
        n := short;
      }
      err := None;
      assert p[..n] == file[offset..old(offset)];
    }

    /** `ReadBlock`, with the bytes read taken out of the buffer. */
    method NextBlock(p: array<byte>) returns (block: seq<byte>, err: Err)
      requires Valid() && p.Length >= 1
      modifies this`offset, this`pos, p
      ensures Valid()
      ensures err == EOF <==> old(offset) == 0
      ensures offset == Max(0, old(offset) - p.Length)
      ensures block == file[offset..old(offset)] && |block| <= p.Length
    {
      var n;
      n, err := ReadBlock(p);
      block := p[..n];
    }

    /** bufio's ReadBytes in a loop: copies complete lines and stops with EOF when a line is not terminated. */
    method CopyLines(lines: nat) returns (out: seq<byte>, err: Err)
      requires Valid()
      modifies this`pos
      ensures Valid()
      ensures out == FirstLines(file[old(pos)..], lines)
      ensures err == EOF <==> Newlines(file[old(pos)..]) < lines
    {
      var rest := file[pos..];
      ghost var all := rest;
      out := [];
      // the buffered reader may leave the position anywhere
      var readAhead: nat :| readAhead <= |file|;
      pos := readAhead;
      for i := 0 to lines
        invariant Valid()
        invariant all == out + rest && Newlines(out) == i
        invariant out != [] ==> out[|out| - 1] == LF
        invariant out == [] <==> i == 0
      {
        NewlinesConcat(out, rest);
        var index := IndexByte(rest, LF);
        NewlinesPositive(rest);
        if index < 0 {
          FirstLinesUnique(all, out, lines);
          return out, EOF;
        }
        OneLine(rest, index + 1);
        NewlinesConcat(out, rest[..index + 1]);
        assert all == (out + rest[..index + 1]) + rest[index + 1..];
        out, rest := out + rest[..index + 1], rest[index + 1..];
      }
      NewlinesConcat(out, rest);
      FirstLinesUnique(all, out, lines);
      err := None;
    }

    /**
     One round of the search: counts the next block, and seeks once the count is reached or the
     file's start is met.
     */
    method SearchBlock(buf: array<byte>, l: int, line: nat, strict: bool, ghost g: seq<byte>)
      returns (l': int, done: bool, err: Err)
      requires Valid() && line >= 1 && buf.Length >= 1
      requires g <= file && Searching(g, offset, l, line, buf.Length, strict)
      modifies this`offset, this`pos, buf
      ensures Valid()
      ensures if done then pos == SearchGoal(g, line, buf.Length, strict)
              else offset < old(offset) && Searching(g, offset, l', line, buf.Length, strict)
      ensures done ==> (err == EOF <==> !Stops(Newlines(g), line, strict))
    {
      ghost var top := offset;
      var block;
      block, err := NextBlock(buf);
      if err == EOF {
        pos := 0;
        assert g[0..] == g;
        return l, true, EOF;
      }
      assert block == g[offset..top];
      l' := l + Newlines(block);
      done := Stops(l', line, strict);
      if done {
        NewlinesSplit(g, offset, top);
        var seek := SkipLines(block, l' - line);
        SearchStops(g, offset, top, l, line, buf.Length, strict, seek);
        NewlinesDrop(g, 0, offset);
        assert g[0..] == g;
        pos := offset + seek;
      } else {
        SearchContinues(g, offset, top, l, line, buf.Length, strict);
      }
    }

    /**
     The search loop of `TailLine`. The shipped exit test is `l >= line`; `strict` selects
     `l > line`, under which the search always ends at the reference position.
     */
    method SeekBack(line: nat, blockSize: nat, strict: bool) returns (err: Err)
      requires Valid() && line >= 1 && blockSize >= 1
      modifies this`offset, this`pos
      ensures Valid()
      ensures pos == SearchGoal(file[..old(offset)], line, blockSize, strict)
      ensures err == EOF <==> !Stops(Newlines(file[..old(offset)]), line, strict)
    {
      ghost var g := file[..offset];
      var buf := new byte[blockSize];
      var l := 0;
      var done := false;
      err := None;
      SearchBegins(g, line, blockSize, strict);
      while !done
        invariant Valid()
        invariant if done then pos == SearchGoal(g, line, blockSize, strict)
                  else Searching(g, offset, l, line, blockSize, strict)
        invariant done ==> (err == EOF <==> !Stops(Newlines(g), line, strict))
        decreases !done, offset
      {
        l, done, err := SearchBlock(buf, l, line, strict, g);
      }
    }

    /** Prints the last `line` lines, or only the first `lines` of them when `lines` is not zero. */
    method TailLine(line: nat, lines: int, blockSize: nat) returns (out: seq<byte>, err: Err)
      requires Valid() && line >= 1 && blockSize >= 1
      modifies this`offset, this`pos
      ensures Valid()
      ensures var g := file[..old(offset)];
              var start := TailStart(g, line, blockSize);
              && start <= |g|
              && out == (if lines == 0 then file[start..] else FirstLines(file[start..], Max(0, lines)))
              && (err == EOF <==> if lines < 0 then Newlines(g) < line else Newlines(file[start..]) < lines)
    {
      TailStartCount(file[..offset], line, blockSize);
      err := SeekBack(line, blockSize, false);
      if lines == 0 {
        out, err, pos := file[pos..], None, |file|;
      } else if lines > 0 {
        out, err := CopyLines(lines);
      } else {
        out := [];  // the loop over the lines is not entered: the search's own error is returned
      }
    }

    /** Copies `size` bytes, or else `lines` lines, from `offset` on. */
    method Read(offset: int, size: int, lines: int) returns (out: seq<byte>, err: Err)
      requires Valid()
      modifies this`pos
      ensures Valid()
      ensures var from := if offset < 0 then old(pos) else Min(offset, |file|);
              if this.size < offset then out == [] && err == EOF
              else if size > 0 then out == file[from..Min(from + size, |file|)] && err == None
              else out == FirstLines(file[from..], Max(0, lines)) && (err == EOF <==> Newlines(file[from..]) < lines)
    {
      if this.size < offset {
        return [], EOF;
      }
      // a seek to a negative position fails, and its error is ignored
      if offset >= 0 {
        pos := Min(offset, |file|);
      }
      if size > 0 {
        var end := Min(pos + size, |file|);
        out, err, pos := file[pos..end], None, end;
      } else {
        out, err := CopyLines(Max(0, lines));
      }
    }

    /** The loop of `ReadLine`: collects blocks until one holds a line feed, and steps back to that. */
    method CollectBlocks(blockSize: nat) returns (list: seq<seq<byte>>)
      requires Valid() && blockSize >= 1 && offset > 0
      modifies this`offset, this`pos
      ensures Valid()
      ensures offset == PieceStart(file, old(offset)) < old(offset)
      ensures Joined(list) == file[offset..old(offset)]
      ensures forall i :: 0 <= i < |list| ==> |list[i]| <= blockSize
    {
      list := [];
      ghost var from := offset;
      while true
        invariant Valid() && offset <= from
        invariant forall i :: 0 <= i < |list| ==> |list[i]| <= blockSize
        invariant Joined(list) == file[offset..from] && LF !in file[offset..from]
        decreases offset
      {
        ghost var top := offset;
        var buf := new byte[blockSize];
        var block, err := NextBlock(buf);
        if err == EOF {
          break;
        }
        var index := LastIndexByte(block, LF);
        GrowPiece(file, offset, top, from, list, block, Max(0, index));
        if index >= 0 {
          list := list + [block[index..]];
          offset := offset + index;
          pos := offset;
          break;
        } else {
          assert block[0..] == block;
          list := list + [block];
        }
      }
      PieceStartUnique(file, from, offset);
    }

    /** Returns the last line before `offset`, line feed first, and moves `offset` to its start. */
    method ReadLine(blockSize: nat) returns (line: seq<byte>, err: Err)
      requires Valid() && blockSize >= 1
      modifies this`offset, this`pos
      ensures Valid()
      ensures err == EOF <==> old(offset) == 0
      ensures err == EOF ==> line == [] && offset == 0
      ensures err == None ==>
                && offset < old(offset)
                && line == file[offset..old(offset)]
                && Pieces(file, old(offset)) == [line] + Pieces(file, offset)
    {
      if offset == 0 {
        return [], EOF;
      }
      var list := CollectBlocks(blockSize);
      line := Assemble(list, blockSize);
      err := None;
    }
  }

  /** Copies the collected blocks into one line, the last block first. */
  method Assemble(list: seq<seq<byte>>, blockSize: nat) returns (line: seq<byte>)
    requires forall i :: 0 <= i < |list| ==> |list[i]| <= blockSize
    ensures line == Joined(list)
  {
    var last: nat := 0;
    var buf := new byte[|list| * blockSize];
    var i: nat := |list|;
    ghost var room: nat := buf.Length;  // what the blocks still to be copied may need
    assert buf[..0] == [] && [] + Joined(list) == Joined(list);
    while i > 0
      invariant i <= |list| && room == i * blockSize && last + room <= buf.Length
      invariant buf[..last] + JoinedTo(list, i) == Joined(list)
    {
      LessOne(i, blockSize);
      i, room := i - 1, room - blockSize;
      ghost var done, rest := buf[..last], JoinedTo(list, i);
      assert done + (list[i] + rest) == (done + list[i]) + rest;
      CopyInto(buf, last, list[i]);
      last := last + |list[i]|;
    }
    line := buf[..last];
    assert line + [] == line;
  }

  lemma LessOne(i: nat, b: nat)
    requires i > 0
    ensures i * b - b == (i - 1) * b >= 0
  {}

  /** Go's copy into `dst` from `at` on, for a source that fits. */
  method CopyInto(dst: array<byte>, at: nat, src: seq<byte>)
    requires at + |src| <= dst.Length
    modifies dst
    ensures dst[..at + |src|] == old(dst[..at]) + src
    ensures dst[at + |src|..] == old(dst[at + |src|..])
  {
    forall k | 0 <= k < |src| { dst[at + k] := src[k]; }
  }

  /** A block read in front of what is already collected: its bytes from `i` on join up with the rest. */
  lemma GrowPiece(f: seq<byte>, o: nat, top: nat, from: nat, list: seq<seq<byte>>, block: seq<byte>, i: nat)
    requires o <= top <= from <= |f| && block == f[o..top] && i <= |block|
    requires Joined(list) == f[top..from]
    requires LF !in f[top..from] && (i < |block| ==> LF !in block[i + 1..])
    ensures Joined(list + [block[i..]]) == f[o + i..from]
    ensures LF !in block ==> LF !in f[o..from]
    ensures i < |block| ==> LF !in f[o + i + 1..from]
  {
    JoinedSnoc(list, block[i..]);
    assert f[o..from] == block + f[top..from];
    if i < |block| { assert f[o + i + 1..from] == block[i + 1..] + f[top..from]; }
  }

  lemma LastIs(s: seq<byte>, o: nat)
    requires o < |s| && LF !in s[o + 1..] && (s[o] == LF || o == 0)
    ensures Max(0, LastIndexByte(s, LF)) == o
  {
    NoneAfter(s, o);
  }

  lemma NoneAfter(s: seq<byte>, i: nat)
    requires i < |s| && LF !in s[i + 1..]
    ensures forall k :: i < k < |s| ==> s[k] != LF
  {
    forall k | i < k < |s| ensures s[k] != LF { assert s[i + 1..][k - i - 1] == s[k]; }
  }

  lemma PieceStartUnique(f: seq<byte>, from: nat, o: nat)
    requires o < from <= |f| && LF !in f[o + 1..from] && (f[o] == LF || o == 0)
    ensures PieceStart(f, from) == o
  {
    var s := f[..from];
    LastIs(s, o);
    assert s[o + 1..] == f[o + 1..from];
  }

  const READ_BUFFER := 1024

  datatype TailConfig = TailConfig(line: int, lines: int, size: string, offset: string)

  /**
   The command as shipped: the reader starts with both its size and its offset at 0, so a line search
   meets the file's start at once and everything is printed. That is what was asked for exactly when
   the file has no more lines than that. Every positive index lies behind the size and gives nothing;
   any other, negative ones included, stands for the start. A panic is a size that is just "b".
   */
  method RunTail(content: seq<byte>, tail: TailConfig) returns (out: seq<byte>, err: Err, panicked: bool)
    ensures tail.offset == "" && tail.line > 0 && tail.lines == 0 ==> out == content && err == None
    ensures tail.offset == "" && tail.line > 0 && tail.lines == 0 ==>
              (out == content[RefStart(content, tail.line)..] <==> Newlines(content) <= tail.line)
    ensures tail.offset == "" && tail.line > 0 && tail.lines != 0 ==> out == FirstLines(content, Max(0, tail.lines))
    ensures tail.offset == "" && tail.line > 0 && tail.lines != 0 ==>
              (err == EOF <==> tail.lines < 0 || Newlines(content) < tail.lines)
    ensures panicked <==> tail.offset != "" && (tail.offset == "b" || tail.size == "b")
    ensures tail.offset == "" && tail.line <= 0 ==> out == [] && err == None
    ensures tail.offset != "" && !panicked ==>
              var offset, size := Units.ParseCompany(tail.offset).n, Units.ParseCompany(tail.size).n;
              if size == 0 && tail.lines == 0 then out == [] && err == None
              else if offset > 0 then out == [] && err == EOF
              else if size > 0 then out == content[..Min(size, |content|)] && err == None
              else out == FirstLines(content, Max(0, tail.lines)) && (err == EOF <==> Newlines(content) < tail.lines)
  {
    var tFile := new TailFile(content, 0, 0);
    out, err, panicked := [], None, false;
    if tail.offset != "" {
      var offset, size := Units.ParseCompany(tail.offset), Units.ParseCompany(tail.size);
      Units.PanicIff(tail.offset);
      Units.PanicIff(tail.size);
      if offset == Units.Panic || size == Units.Panic {
        return [], None, true;
      }
      if size.n == 0 && tail.lines == 0 {
        return;
      }
      out, err := tFile.Read(offset.n, size.n, tail.lines);
    } else if tail.line > 0 {
      assert content[..0] == [] && content[0..] == content;
      out, err := tFile.TailLine(tail.line, tail.lines, READ_BUFFER);
      RefStartUnique(content, tail.line, 0);
    }
  }
}
