/**
 Literal search and replace: leftmost non-overlapping matching, its agreement with splitting and
 joining, and how it distributes over the lines of a file.
 */
module Matching {
  import opened Bytes

  /** `pat` occurs in `s` at index `i`. */
  predicate At(s: seq<byte>, pat: seq<byte>, i: nat) {
    i + |pat| <= |s| && s[i..i + |pat|] == pat
  }

  /** The first occurrence of `pat` in `s` from index `i` on, or -1. */
  function IndexFrom(s: seq<byte>, pat: seq<byte>, i: nat): (r: int)
    requires pat != []
    ensures -1 <= r
    ensures r >= 0 ==> i <= r && At(s, pat, r) && forall j: nat :: i <= j < r ==> !At(s, pat, j)
    ensures r == -1 ==> forall j: nat :: i <= j ==> !At(s, pat, j)
    decreases |s| - i
  {
    if i + |pat| > |s| then -1 else if At(s, pat, i) then i else IndexFrom(s, pat, i + 1)
  }

  /** Go's bytes.Index. */
  function Index(s: seq<byte>, pat: seq<byte>): (r: int)
    requires pat != []
    ensures -1 <= r
    ensures r >= 0 ==> At(s, pat, r) && forall j: nat :: j < r ==> !At(s, pat, j)
    ensures r == -1 ==> forall j: nat :: !At(s, pat, j)
  {
    IndexFrom(s, pat, 0)
  }

  lemma IndexIs(s: seq<byte>, pat: seq<byte>, i: nat)
    requires pat != [] && At(s, pat, i) && forall j: nat :: j < i ==> !At(s, pat, j)
    ensures Index(s, pat) == i
  {}

  lemma IndexNone(s: seq<byte>, pat: seq<byte>)
    requires pat != [] && forall j: nat :: !At(s, pat, j)
    ensures Index(s, pat) == -1
  {}

  lemma AtIndex(s: seq<byte>, pat: seq<byte>, j: nat, k: nat)
    requires At(s, pat, j) && k < |pat|
    ensures s[j + k] == pat[k]
  {
    assert s[j..j + |pat|][k] == s[j + k];
  }

  /** Go's bytes.Count for a non-empty pattern. */
  function Count(s: seq<byte>, pat: seq<byte>): nat
    requires pat != []
    decreases |s|
  {
    var i := Index(s, pat);
    if i < 0 then 0 else 1 + Count(s[i + |pat|..], pat)
  }

  /** Go's bytes.Replace with no limit, for a non-empty pattern. */
  function Replace(s: seq<byte>, pat: seq<byte>, to: seq<byte>): seq<byte>
    requires pat != []
    decreases |s|
  {
    var i := Index(s, pat);
    if i < 0 then s else s[..i] + to + Replace(s[i + |pat|..], pat, to)
  }

  /** The pieces joined with `sep` between them. */
  function Join(pieces: seq<seq<byte>>, sep: seq<byte>): seq<byte>
    requires pieces != []
  {
    if |pieces| == 1 then pieces[0] else pieces[0] + sep + Join(pieces[1..], sep)
  }

  /** The pieces between the matches. */
  function Split(s: seq<byte>, pat: seq<byte>): (r: seq<seq<byte>>)
    requires pat != []
    ensures r != []
    decreases |s|
  {
    var i := Index(s, pat);
    if i < 0 then [s] else [s[..i]] + Split(s[i + |pat|..], pat)
  }

  /** Each piece ends where the next match of `pat` is first met, and none is left in the last. */
  ghost predicate Leftmost(pieces: seq<seq<byte>>, pat: seq<byte>)
    requires pat != []
  {
    && pieces != []
    && Index(pieces[|pieces| - 1], pat) == -1
    && forall k :: 0 <= k < |pieces| - 1 ==> Index(pieces[k] + pat, pat) == |pieces[k]|
  }

  /** Appending bytes after a match does not change where the first match is. */
  lemma IndexPrefix(a: seq<byte>, b: seq<byte>, pat: seq<byte>)
    requires pat != [] && Index(a, pat) >= 0
    ensures Index(a + b, pat) == Index(a, pat)
  {
    var i := Index(a, pat);
    assert (a + b)[i..i + |pat|] == a[i..i + |pat|];
    forall j: nat | j < i ensures !At(a + b, pat, j) {
      assert (a + b)[j..j + |pat|] == a[j..j + |pat|];
      assert !At(a, pat, j);
    }
    IndexIs(a + b, pat, i);
  }

  /** Splitting is the one way to cut `s` at leftmost matches. */
  lemma {:induction false} SplitUnique(s: seq<byte>, pat: seq<byte>, pieces: seq<seq<byte>>)
    requires pat != []
    ensures pieces == Split(s, pat) <==> Leftmost(pieces, pat) && Join(pieces, pat) == s
    decreases |s|, |pieces|
  {
    SplitIsLeftmost(s, pat);
    if Leftmost(pieces, pat) && Join(pieces, pat) == s {
      if |pieces| > 1 {
        var rest := pieces[1..];
        assert s == (pieces[0] + pat) + Join(rest, pat);
        IndexPrefix(pieces[0] + pat, Join(rest, pat), pat);
        assert s[|pieces[0]| + |pat|..] == Join(rest, pat);
        assert s[..|pieces[0]|] == pieces[0];
        SplitUnique(s[|pieces[0]| + |pat|..], pat, rest);
        assert pieces == [pieces[0]] + rest;
      } else {
        assert pieces == [s];
      }
    }
  }

  lemma {:induction false} SplitIsLeftmost(s: seq<byte>, pat: seq<byte>)
    requires pat != []
    ensures Leftmost(Split(s, pat), pat) && Join(Split(s, pat), pat) == s
    decreases |s|
  {
    var i := Index(s, pat);
    if i >= 0 {
      var rest := s[i + |pat|..];
      SplitIsLeftmost(rest, pat);
      IndexHead(s, pat);
      LeftmostCons(s[..i], Split(rest, pat), pat);
      assert s == s[..i] + pat + rest;
    }
  }

  lemma LeftmostCons(x: seq<byte>, rest: seq<seq<byte>>, pat: seq<byte>)
    requires pat != [] && Leftmost(rest, pat) && Index(x + pat, pat) == |x|
    ensures Leftmost([x] + rest, pat)
    ensures Join([x] + rest, pat) == x + pat + Join(rest, pat)
  {
    assert ([x] + rest)[1..] == rest;
  }

  /** Up to and including its first match, a text still has that match first. */
  lemma IndexHead(s: seq<byte>, pat: seq<byte>)
    requires pat != [] && Index(s, pat) >= 0
    ensures Index(s[..Index(s, pat)] + pat, pat) == Index(s, pat)
  {
    var i := Index(s, pat);
    var head := s[..i + |pat|];
    assert head == s[..i] + pat && head[i..i + |pat|] == pat;
    forall j: nat | j < i ensures !At(head, pat, j) {
      assert head[j..j + |pat|] == s[j..j + |pat|];
      assert !At(s, pat, j);
    }
    IndexIs(head, pat, i);
  }

  /** Replacing is splitting at the matches and rejoining with the new text; no piece contains the pattern. */
  lemma {:induction false} ReplaceIsSplitJoin(s: seq<byte>, pat: seq<byte>, to: seq<byte>)
    requires pat != []
    ensures Replace(s, pat, to) == Join(Split(s, pat), to)
    ensures |Split(s, pat)| == Count(s, pat) + 1
    ensures forall k :: 0 <= k < |Split(s, pat)| ==> Index(Split(s, pat)[k], pat) == -1
    decreases |s|
  {
    var i := Index(s, pat);
    if i >= 0 {
      var rest := s[i + |pat|..];
      ReplaceIsSplitJoin(rest, pat, to);
      assert Split(s, pat)[1..] == Split(rest, pat);
      assert s[..i] + s[i..] == s;
      if Index(s[..i], pat) >= 0 { IndexPrefix(s[..i], s[i..], pat); }
    }
  }

  lemma OneMore(c: nat, i: int, p: int, t: int, l: int)
    ensures i + t + (l + c * (t - p)) == i + p + l + (1 + c) * (t - p)
  {}

  lemma HitLength(s: seq<byte>, pat: seq<byte>, to: seq<byte>)
    requires pat != [] && Index(s, pat) >= 0
    ensures var i := Index(s, pat);
            var rest := s[i + |pat|..];
            && |s| == i + |pat| + |rest| && |Replace(s, pat, to)| == i + |to| + |Replace(rest, pat, to)|
            && Count(s, pat) == 1 + Count(rest, pat)
  {}

  /** Every replacement changes the length by the same amount. */
  lemma {:induction false} ReplaceLength(s: seq<byte>, pat: seq<byte>, to: seq<byte>)
    requires pat != []
    ensures |Replace(s, pat, to)| == |s| + Count(s, pat) * (|to| - |pat|)
    decreases |s|
  {
    var i := Index(s, pat);
    if i >= 0 {
      var rest := s[i + |pat|..];
      ReplaceLength(rest, pat, to);
      HitLength(s, pat, to);
      OneMore(Count(rest, pat), i, |pat|, |to|, |rest|);
    }
  }

  /** Replacing the pattern by itself changes nothing. */
  lemma ReplaceBySelf(s: seq<byte>, pat: seq<byte>)
    requires pat != []
    ensures Replace(s, pat, pat) == s
  {
    ReplaceIsSplitJoin(s, pat, pat);
    SplitIsLeftmost(s, pat);
  }

  /** The count is zero exactly when no replacement text changes anything. */
  lemma CountZeroIff(s: seq<byte>, pat: seq<byte>)
    requires pat != []
    ensures Count(s, pat) == 0 <==> forall to :: to != [] ==> Replace(s, pat, to) == s
  {
    if Count(s, pat) > 0 { CountPositive(s, pat); } else { assert Index(s, pat) < 0; }
  }

  lemma {:induction false} CountPositive(s: seq<byte>, pat: seq<byte>)
    requires pat != [] && Count(s, pat) > 0
    ensures Replace(s, pat, pat + [LF]) != s
  {
    var longer := pat + [LF];
    ReplaceLength(s, pat, longer);
    assert |longer| - |pat| == 1;
    assert |Replace(s, pat, longer)| == |s| + Count(s, pat);
  }

  /** No occurrence of `pat` in `a + b` straddles the cut. */
  ghost predicate CleanCut(a: seq<byte>, b: seq<byte>, pat: seq<byte>) {
    forall j: nat :: j < |a| < j + |pat| ==> !At(a + b, pat, j)
  }

  lemma AtFront(a: seq<byte>, b: seq<byte>, pat: seq<byte>, j: nat)
    requires j + |pat| <= |a|
    ensures At(a + b, pat, j) <==> At(a, pat, j)
  {
    assert (a + b)[j..j + |pat|] == a[j..j + |pat|];
  }

  lemma AtBack(a: seq<byte>, b: seq<byte>, pat: seq<byte>, j: nat)
    ensures At(a + b, pat, |a| + j) <==> At(b, pat, j)
  {
    if j + |pat| <= |b| { assert (a + b)[|a| + j..|a| + j + |pat|] == b[j..j + |pat|]; }
  }

  lemma NotInFront(a: seq<byte>, b: seq<byte>, pat: seq<byte>, j: nat)
    requires pat != [] && Index(a, pat) == -1 && CleanCut(a, b, pat) && j < |a|
    ensures !At(a + b, pat, j)
  {
    if j + |pat| <= |a| { AtFront(a, b, pat, j); }
  }

  /** With no match in `a` and none across the cut, the first match of `a + b` is that of `b`. */
  lemma IndexAfter(a: seq<byte>, b: seq<byte>, pat: seq<byte>)
    requires pat != [] && Index(a, pat) == -1 && CleanCut(a, b, pat)
    ensures Index(a + b, pat) == if Index(b, pat) < 0 then -1 else |a| + Index(b, pat)
  {
    var k := Index(b, pat);
    forall j: nat | k < 0 || j < |a| + k ensures !At(a + b, pat, j) {
      if j < |a| { NotInFront(a, b, pat, j); } else { AtBack(a, b, pat, j - |a|); }
    }
    if k >= 0 {
      AtBack(a, b, pat, k);
      IndexIs(a + b, pat, |a| + k);
    } else {
      IndexNone(a + b, pat);
    }
  }

  lemma CleanCutTail(a: seq<byte>, b: seq<byte>, pat: seq<byte>, i: nat)
    requires i <= |a| && CleanCut(a, b, pat)
    ensures CleanCut(a[i..], b, pat)
  {
    forall j: nat | j < |a[i..]| < j + |pat| ensures !At(a[i..] + b, pat, j) {
      AtBack(a[..i], a[i..] + b, pat, j);
      assert a[..i] + (a[i..] + b) == a + b;
      assert !At(a + b, pat, i + j);
    }
  }

  /** The claim of `ReplaceConcat`. */
  ghost predicate Distributes(a: seq<byte>, b: seq<byte>, pat: seq<byte>, to: seq<byte>)
    requires pat != []
  {
    && Count(a + b, pat) == Count(a, pat) + Count(b, pat)
    && Replace(a + b, pat, to) == Replace(a, pat, to) + Replace(b, pat, to)
  }

  lemma UnfoldHit(s: seq<byte>, pat: seq<byte>, to: seq<byte>, head: seq<byte>, rest: seq<byte>)
    requires pat != [] && Index(s, pat) == |head| && s == head + pat + rest
    ensures Count(s, pat) == 1 + Count(rest, pat)
    ensures Replace(s, pat, to) == head + to + Replace(rest, pat, to)
  {
    assert s[..|head|] == head && s[|head| + |pat|..] == rest;
  }

  lemma UnfoldMiss(s: seq<byte>, pat: seq<byte>, to: seq<byte>)
    requires pat != [] && Index(s, pat) == -1
    ensures Count(s, pat) == 0 && Replace(s, pat, to) == s
  {}

  lemma DistributesHit(head: seq<byte>, rest: seq<byte>, b: seq<byte>, pat: seq<byte>, to: seq<byte>)
    requires pat != [] && Index(head + pat + rest, pat) == |head| == Index(head + pat + rest + b, pat)
    requires Distributes(rest, b, pat, to)
    ensures Distributes(head + pat + rest, b, pat, to)
  {
    Shift(head + pat, rest, b);
    UnfoldHit(head + pat + rest, pat, to, head, rest);
    UnfoldHit(head + pat + rest + b, pat, to, head, rest + b);
    Shift(head + to, Replace(rest, pat, to), Replace(b, pat, to));
  }

  lemma Shift(a: seq<byte>, b: seq<byte>, c: seq<byte>)
    ensures a + b + c == a + (b + c)
  {}

  lemma DistributesMiss(a: seq<byte>, b: seq<byte>, pat: seq<byte>, to: seq<byte>)
    requires pat != [] && Index(a, pat) == -1
    requires Index(a + b, pat) == if Index(b, pat) < 0 then -1 else |a| + Index(b, pat)
    ensures Distributes(a, b, pat, to)
  {
    UnfoldMiss(a, pat, to);
    var k := Index(b, pat);
    if k < 0 {
      UnfoldMiss(b, pat, to);
      UnfoldMiss(a + b, pat, to);
    } else {
      var head, rest := b[..k], b[k + |pat|..];
      assert b == head + pat + rest;
      assert a + b == (a + head) + pat + rest;
      UnfoldHit(b, pat, to, head, rest);
      UnfoldHit(a + b, pat, to, a + head, rest);
      Regroup(a, head, to, Replace(rest, pat, to));
    }
  }

  lemma Regroup(a: seq<byte>, b: seq<byte>, c: seq<byte>, d: seq<byte>)
    ensures (a + b) + c + d == a + (b + c + d)
  {}

  lemma CutAt(s: seq<byte>, pat: seq<byte>, i: nat)
    requires At(s, pat, i)
    ensures s == s[..i] + pat + s[i + |pat|..]
  {}

  /** Matching distributes over a clean cut. */
  lemma {:induction false} ReplaceConcat(a: seq<byte>, b: seq<byte>, pat: seq<byte>, to: seq<byte>)
    requires pat != [] && CleanCut(a, b, pat)
    ensures Distributes(a, b, pat, to)
    decreases |a|
  {
    var i := Index(a, pat);
    if i >= 0 {
      IndexPrefix(a, b, pat);
      CleanCutTail(a, b, pat, i + |pat|);
      ReplaceConcat(a[i + |pat|..], b, pat, to);
      CutAt(a, pat, i);
      DistributesHit(a[..i], a[i + |pat|..], b, pat, to);
    } else {
      IndexAfter(a, b, pat);
      DistributesMiss(a, b, pat, to);
    }
  }
}

module LineReplace {
  import opened Bytes
  import opened Matching

  function DropCR(s: seq<byte>): seq<byte> {
    if s != [] && s[|s| - 1] == CR then s[..|s| - 1] else s
  }

  /**
   bufio's ReadLine over a buffer of `m` bytes: the line without its terminator and the number of
   bytes consumed. A line that does not fit is handed out in parts, a trailing CR being kept back.
   */
  function ReadLine(s: seq<byte>, m: nat): (r: (seq<byte>, nat))
    requires s != [] && m >= 2
    ensures 1 <= r.1 <= |s|
  {
    var i := IndexByte(s[..Min(|s|, m)], LF);
    if i >= 0 then (DropCR(s[..i]), i + 1)
    else if |s| < m then (s, |s|)
    else if s[m - 1] == CR then (s[..m - 1], m - 1)
    else (s[..m], m)
  }

  /** The lines as the buffered reader hands them out, its isPrefix flag ignored. */
  function ReadLines(s: seq<byte>, m: nat): seq<seq<byte>>
    requires m >= 2
  {
    if s == [] then [] else [ReadLine(s, m).0] + ReadLines(s[ReadLine(s, m).1..], m)
  }

  /**
   A read hands out the bytes it consumes, but for a terminator: a CR before LF belongs to that. It
   stops short of a terminator only at the end of the text or of the full buffer, where it keeps back a
   CR that might be half of one.
   */
  lemma {:induction false} ReadLineIs(s: seq<byte>, m: nat)
    requires s != [] && m >= 2
    ensures var (line, n) := ReadLine(s, m);
            && |line| <= n && s[..n] == line + s[|line|..n] && LF !in line
            && (s[|line|..n] == [] || s[|line|..n] == [10] || s[|line|..n] == [13, 10])
            && (s[|line|..n] == [10] ==> line == [] || line[|line| - 1] != 13)
            && (s[|line|..n] == [] && n < |s| ==> if s[m - 1] == 13 then n == m - 1 else n == m)
            && (s[|line|..n] == [] && n == |s| ==> |s| < m || (|s| == m && s[m - 1] != 13))
  {
    var front := s[..Min(|s|, m)];
    var i := IndexByte(front, LF);
    if i >= 0 {
      assert front[..i] == s[..i];
      assert s[i..i + 1] == [LF];
      if i > 0 && s[i - 1] == CR { assert s[i - 1..i + 1] == [CR, LF]; }
    } else if |s| < m {
      assert front == s;
    }
  }

  /** The bytes that each read consumes. */
  function Consumed(s: seq<byte>, m: nat): seq<seq<byte>>
    requires m >= 2
  {
    if s == [] then [] else [s[..ReadLine(s, m).1]] + Consumed(s[ReadLine(s, m).1..], m)
  }

  /** Read after read, the lines and the terminators left out between them are the whole text. */
  lemma {:induction false} ReadsTile(s: seq<byte>, m: nat)
    requires m >= 2
    ensures Flatten(Consumed(s, m)) == s && |Consumed(s, m)| == |ReadLines(s, m)|
    ensures forall k :: 0 <= k < |ReadLines(s, m)| ==> IsLineOf(Consumed(s, m)[k], ReadLines(s, m)[k])
  {
    ConsumedTile(s, m);
    forall k | 0 <= k < |ReadLines(s, m)| ensures IsLineOf(Consumed(s, m)[k], ReadLines(s, m)[k]) {
      LineReadAt(s, m, k);
    }
  }

  lemma {:induction false} ConsumedTile(s: seq<byte>, m: nat)
    requires m >= 2
    ensures Flatten(Consumed(s, m)) == s && |Consumed(s, m)| == |ReadLines(s, m)|
    decreases |s|
  {
    if s != [] {
      var n := ReadLine(s, m).1;
      ConsumedTile(s[n..], m);
      FirstConsumed(s, m);
      FlattenCons(s, n, Consumed(s[n..], m));
    }
  }

  lemma FlattenCons(s: seq<byte>, n: nat, rest: seq<seq<byte>>)
    requires n <= |s| && Flatten(rest) == s[n..]
    ensures Flatten([s[..n]] + rest) == s
  {
    assert ([s[..n]] + rest)[1..] == rest;
    assert s[..n] + s[n..] == s;
  }

  lemma {:induction false} LineReadAt(s: seq<byte>, m: nat, k: nat)
    requires m >= 2 && k < |ReadLines(s, m)| && k < |Consumed(s, m)|
    ensures IsLineOf(Consumed(s, m)[k], ReadLines(s, m)[k])
    decreases k
  {
    FirstConsumed(s, m);
    if k == 0 {
      ReadLineIs(s, m);
    } else {
      LineReadAt(s[ReadLine(s, m).1..], m, k - 1);
    }
  }

  lemma {:induction false} FirstConsumed(s: seq<byte>, m: nat)
    requires s != [] && m >= 2
    ensures var (line, n) := ReadLine(s, m);
            && Consumed(s, m) == [s[..n]] + Consumed(s[n..], m)
            && ReadLines(s, m) == [line] + ReadLines(s[n..], m)
  {}

  /** `line` is what was consumed, without a terminator. */
  predicate IsLineOf(consumed: seq<byte>, line: seq<byte>) {
    consumed == line || consumed == line + [10] || consumed == line + [13, 10]
  }

  /** The length of the first line, terminator included. */
  function FirstLength(s: seq<byte>): (n: nat)
    requires s != []
    ensures 1 <= n <= |s| && LF !in s[..n - 1]
    ensures s[n - 1] == LF || (n == |s| && LF !in s)
  {
    var i := IndexByte(s, LF);
    if i >= 0 then i + 1 else |s|
  }

  lemma FirstLineFeed(s: seq<byte>, i: nat)
    requires i < |s| && s[i] == LF && LF !in s[..i]
    ensures FirstLength(s) == i + 1
  {
    var last: nat := FirstLength(s) - 1;
    if last < i { NotYet(s, i, last); }
    if i < last { NotYet(s, last, i); }
  }

  lemma NotYet(s: seq<byte>, i: nat, k: nat)
    requires k < i <= |s| && LF !in s[..i]
    ensures s[k] != LF
  {
    assert s[..i][k] == s[k];
  }

  /** The lines of a file, terminators included. */
  function RawLines(s: seq<byte>): seq<seq<byte>> {
    if s == [] then [] else [s[..FirstLength(s)]] + RawLines(s[FirstLength(s)..])
  }

  function Body(raw: seq<byte>): seq<byte> {
    if raw != [] && raw[|raw| - 1] == LF then DropCR(raw[..|raw| - 1]) else raw
  }

  function Terminator(raw: seq<byte>): seq<byte> {
    raw[|Body(raw)|..]
  }

  function Bodies(raws: seq<seq<byte>>): seq<seq<byte>> {
    if raws == [] then [] else [Body(raws[0])] + Bodies(raws[1..])
  }

  /** Whether the buffered reader hands the line out whole. */
  predicate Fits(raw: seq<byte>, m: nat) {
    raw != [] &&
    (if raw[|raw| - 1] == LF then |raw| <= m else |raw| < m || (|raw| == m && raw[m - 1] != CR))
  }

  /** The number of matches, line by line. */
  function CountLines(lines: seq<seq<byte>>, pat: seq<byte>): nat
    requires pat != []
  {
    if lines == [] then 0 else Count(lines[0], pat) + CountLines(lines[1..], pat)
  }

  /** What the slow mode writes: every line replaced and ended by CRLF. */
  function SlowText(lines: seq<seq<byte>>, pat: seq<byte>, to: seq<byte>): seq<byte>
    requires pat != []
  {
    if lines == [] then [] else Replace(lines[0], pat, to) + CRLF + SlowText(lines[1..], pat, to)
  }

  /** Every line replaced and ended by the terminator it had. */
  function KeptText(raws: seq<seq<byte>>, pat: seq<byte>, to: seq<byte>): seq<byte>
    requires pat != []
  {
    if raws == [] then []
    else Replace(Body(raws[0]), pat, to) + Terminator(raws[0]) + KeptText(raws[1..], pat, to)
  }

  /** A pattern that can neither cross a line break nor take the CR of one. */
  predicate WithinLine(pat: seq<byte>) {
    pat != [] && LF !in pat && pat[|pat| - 1] != CR
  }

  /** A raw line is its body and one of the three terminators. */
  lemma RawLine(raw: seq<byte>)
    requires raw != [] && LF !in raw[..|raw| - 1]
    ensures raw == Body(raw) + Terminator(raw)
    ensures LF !in Body(raw) && Terminator(raw) in [[], [LF], CRLF]
    ensures Terminator(raw) == [] <==> raw[|raw| - 1] != LF
  {
    var n := |raw| - 1;
    assert raw == raw[..n] + [raw[n]];
    if raw[n] == LF && n > 0 && raw[n - 1] == CR {
      assert raw[..n] == raw[..n - 1] + [CR];
      assert Terminator(raw) == CRLF;
    } else if raw[n] == LF {
      assert Terminator(raw) == [LF];
    } else {
      assert Terminator(raw) == [];
    }
  }

  /** No occurrence of such a pattern meets a terminator. */
  /** Which terminator a line has. */
  lemma TerminatorIs(raw: seq<byte>)
    requires raw != [] && LF !in raw[..|raw| - 1]
    ensures Terminator(raw) == if raw[|raw| - 1] != 10 then []
                               else if |raw| >= 2 && raw[|raw| - 2] == 13 then [13, 10]
                               else [10]
  {
    var n := |raw| - 1;
    if raw[n] == LF {
      var front := raw[..n];
      if n > 0 && raw[n - 1] == CR {
        assert DropCR(front) == raw[..n - 1];
        assert raw[n - 1..] == [CR, LF];
      } else {
        assert DropCR(front) == front;
        assert raw[n..] == [LF];
      }
    }
  }

  lemma TerminatorClean(body: seq<byte>, term: seq<byte>, pat: seq<byte>)
    requires WithinLine(pat) && term in [[], [LF], CRLF]
    ensures CleanCut(body, term, pat) && Index(term, pat) == -1
  {
    forall j: nat | |body| < j + |pat| ensures !At(body + term, pat, j) {
      AvoidsTerminator(body, term, pat, j);
    }
    forall j: nat ensures !At(term, pat, j) {
      AtBack(body, term, pat, j);
    }
    IndexNone(term, pat);
  }

  lemma AvoidsTerminator(body: seq<byte>, term: seq<byte>, pat: seq<byte>, j: nat)
    requires WithinLine(pat) && term in [[], [LF], CRLF] && |body| < j + |pat|
    ensures !At(body + term, pat, j)
  {
    var s := body + term;
    if At(s, pat, j) { AtIndex(s, pat, j, |pat| - 1); }
  }

  /** A line that ends in LF cannot be part of an occurrence that goes on in the next line. */
  lemma LineClean(raw: seq<byte>, rest: seq<byte>, pat: seq<byte>)
    requires WithinLine(pat) && raw != [] && (rest == [] || raw[|raw| - 1] == LF)
    ensures CleanCut(raw, rest, pat)
  {
    var s := raw + rest;
    forall j: nat | j < |raw| < j + |pat| ensures !At(s, pat, j) {
      if At(s, pat, j) { AtIndex(s, pat, j, |raw| - 1 - j); }
    }
  }

  /** Whole-file replacement is line by line replacement under the original terminators. */
  lemma {:induction false} ReplaceByLine(s: seq<byte>, pat: seq<byte>, to: seq<byte>)
    requires WithinLine(pat)
    ensures Replace(s, pat, to) == KeptText(RawLines(s), pat, to)
    ensures Count(s, pat) == CountLines(Bodies(RawLines(s)), pat)
  {
    if s == [] {
      UnfoldMiss(s, pat, to);
    } else {
      var n := FirstLength(s);
      var raw, rest := s[..n], s[n..];
      assert s == raw + rest && raw[..n - 1] == s[..n - 1];
      RawLine(raw);
      LineClean(raw, rest, pat);
      ReplaceConcat(raw, rest, pat, to);
      TerminatorClean(Body(raw), Terminator(raw), pat);
      ReplaceConcat(Body(raw), Terminator(raw), pat, to);
      UnfoldMiss(Terminator(raw), pat, to);
      ReplaceByLine(rest, pat, to);
      FirstAndRest(s);
      assert Replace(s, pat, to) == Replace(Body(raw), pat, to) + Terminator(raw) + KeptText(RawLines(rest), pat, to);
    }
  }

  lemma FirstAndRest(s: seq<byte>)
    requires s != []
    ensures RawLines(s) != [] && RawLines(s)[0] == s[..FirstLength(s)]
    ensures RawLines(s)[1..] == RawLines(s[FirstLength(s)..])
    ensures Bodies(RawLines(s)) != [] && Bodies(RawLines(s))[0] == Body(s[..FirstLength(s)])
    ensures Bodies(RawLines(s))[1..] == Bodies(RawLines(s[FirstLength(s)..]))
  {}

  /** The slow mode counts what the quick mode counts, on every file, exactly for patterns that stay within a line. */
  lemma CountsAgreeIff(pat: seq<byte>)
    requires pat != []
    ensures WithinLine(pat) <==> forall s :: Count(s, pat) == CountLines(Bodies(RawLines(s)), pat)
  {
    if WithinLine(pat) {
      forall s ensures Count(s, pat) == CountLines(Bodies(RawLines(s)), pat) { ReplaceByLine(s, pat, []); }
    } else if LF in pat {
      assert At(pat, pat, 0);
      LinesHoldNoLF(pat, pat);
    } else {
      var s := pat + [LF];
      assert At(s, pat, 0);
      assert s[..|pat|] == pat;
      assert FirstLength(s) == |s| by { assert s[FirstLength(s) - 1] == LF || LF !in s; assert s[|pat|] == LF; }
      FirstAndRest(s);
      assert s[..|s|] == s && s[|s|..] == [];
      assert |Body(s)| < |pat|;
      IndexNone(Body(s), pat);
    }
  }

  lemma {:induction false} LinesHoldNoLF(s: seq<byte>, pat: seq<byte>)
    requires pat != [] && LF in pat
    ensures CountLines(Bodies(RawLines(s)), pat) == 0
  {
    if s != [] {
      var raw := s[..FirstLength(s)];
      assert raw[..|raw| - 1] == s[..|raw| - 1];
      RawLine(raw);
      var k :| 0 <= k < |pat| && pat[k] == LF;
      forall j: nat ensures !At(Body(raw), pat, j) {
        if At(Body(raw), pat, j) { AtIndex(Body(raw), pat, j, k); }
      }
      IndexNone(Body(raw), pat);
      LinesHoldNoLF(s[FirstLength(s)..], pat);
      FirstAndRest(s);
    }
  }

  /** Both modes write the same bytes exactly when every line of the file ends in CRLF. */
  lemma {:induction false} ModesAgreeIff(s: seq<byte>, pat: seq<byte>, to: seq<byte>)
    requires WithinLine(pat)
    ensures SlowText(Bodies(RawLines(s)), pat, to) == Replace(s, pat, to) <==>
            forall raw :: raw in RawLines(s) ==> Terminator(raw) == CRLF
  {
    ReplaceByLine(s, pat, to);
    TextsAgree(s, pat, to);
  }

  lemma {:induction false} TextsAgree(s: seq<byte>, pat: seq<byte>, to: seq<byte>)
    requires pat != []
    ensures |SlowText(Bodies(RawLines(s)), pat, to)| >= |KeptText(RawLines(s), pat, to)|
    ensures if forall raw :: raw in RawLines(s) ==> Terminator(raw) == CRLF
            then SlowText(Bodies(RawLines(s)), pat, to) == KeptText(RawLines(s), pat, to)
            else |SlowText(Bodies(RawLines(s)), pat, to)| > |KeptText(RawLines(s), pat, to)|
  {
    if s != [] {
      var raw, rest := s[..FirstLength(s)], s[FirstLength(s)..];
      assert raw[..|raw| - 1] == s[..|raw| - 1];
      RawLine(raw);
      FirstAndRest(s);
      TextsAgree(rest, pat, to);
      assert RawLines(s) == [raw] + RawLines(rest);
    }
  }

  /** The reader hands out exactly the lines of the file when, and only when, each of them fits its buffer. */
  lemma {:induction false} LinesReadIff(s: seq<byte>, m: nat)
    requires m >= 2
    ensures ReadLines(s, m) == Bodies(RawLines(s)) <==> forall raw :: raw in RawLines(s) ==> Fits(raw, m)
  {
    LinesRead(s, m);
  }

  lemma {:induction false} LinesRead(s: seq<byte>, m: nat)
    requires m >= 2
    ensures |ReadLines(s, m)| >= |Bodies(RawLines(s))|
    ensures if forall raw :: raw in RawLines(s) ==> Fits(raw, m)
            then ReadLines(s, m) == Bodies(RawLines(s))
            else |ReadLines(s, m)| > |Bodies(RawLines(s))|
    decreases |s|
  {
    if s != [] {
      var n := FirstLength(s);
      var raw, rest := s[..n], s[n..];
      var k := ReadLine(s, m).1;
      FirstAndRest(s);
      assert RawLines(s) == [raw] + RawLines(rest);
      LinesRead(s[k..], m);
      FirstRead(s, m);
      if !Fits(raw, m) { CutLine(s, k); }
    }
  }

  /** Reading a line that fits consumes it whole; otherwise it leaves some of it behind. */
  lemma FirstRead(s: seq<byte>, m: nat)
    requires s != [] && m >= 2
    ensures var (n, r) := (FirstLength(s), ReadLine(s, m));
            if Fits(s[..n], m) then r == (Body(s[..n]), n)
            else r.1 < n
  {
    var n := FirstLength(s);
    var front := s[..Min(|s|, m)];
    var i := IndexByte(front, LF);
    if i >= 0 {
      assert front[..i] == s[..i];
      FirstLineFeed(s, i);
      assert s[..n][..n - 1] == s[..i];
    } else if n <= m {
      assert front[n - 1] == s[n - 1];
      assert s[..n] == s;
    }
  }

  /** Cutting bytes off the front of a line, but not all of it, keeps the number of lines. */
  lemma CutLine(s: seq<byte>, k: nat)
    requires s != [] && 1 <= k < FirstLength(s)
    ensures |Bodies(RawLines(s[k..]))| == |Bodies(RawLines(s))|
  {
    var n := FirstLength(s);
    var t := s[k..];
    assert t[..n - k - 1] == s[..n - 1][k..];
    if s[n - 1] == LF { FirstLineFeed(t, n - k - 1); }
    assert t[FirstLength(t)..] == s[n..];
    FirstAndRest(s);
    FirstAndRest(t);
  }

  /**
   The slow mode refines the quick one: for a pattern that stays within a line and lines that fit the
   reader's buffer, both find the same number of matches, so they agree on whether to rewrite the file,
   and both write the same replaced lines, the quick mode under the original terminators and the slow
   mode under CRLF.
   */
  lemma {:induction false} SlowRefinesQuick(s: seq<byte>, pat: seq<byte>, to: seq<byte>, m: nat)
    requires WithinLine(pat) && m >= 2
    requires forall raw :: raw in RawLines(s) ==> Fits(raw, m)
    ensures CountLines(ReadLines(s, m), pat) == Count(s, pat)
    ensures Replace(s, pat, to) == KeptText(RawLines(s), pat, to)
    ensures SlowText(ReadLines(s, m), pat, to) == SlowText(Bodies(RawLines(s)), pat, to)
    ensures Flatten(RawLines(s)) == s
  {
    ReplaceByLine(s, pat, to);
    LinesReadIff(s, m);
    RawLinesTile(s);
  }

  lemma {:induction false} RawLinesTile(s: seq<byte>)
    ensures Flatten(RawLines(s)) == s
  {
    if s != [] {
      RawLinesTile(s[FirstLength(s)..]);
      FirstAndRest(s);
    }
  }

  /** A line holds no line feed before its end, and has one there unless it is the last. */
  predicate IsRawLine(raw: seq<byte>, last: bool) {
    raw != [] && LF !in raw[..|raw| - 1] && (raw[|raw| - 1] == LF || last)
  }

  /** The lines of a file tile it, and each is cut after its first line feed. */
  lemma {:induction false} RawLinesAre(s: seq<byte>)
    ensures Flatten(RawLines(s)) == s
    ensures forall k :: 0 <= k < |RawLines(s)| ==> IsRawLine(RawLines(s)[k], k == |RawLines(s)| - 1)
  {
    RawLinesTile(s);
    forall k | 0 <= k < |RawLines(s)| ensures IsRawLine(RawLines(s)[k], k == |RawLines(s)| - 1) { RawLineAt(s, k); }
  }

  lemma {:induction false} RawLineAt(s: seq<byte>, k: nat)
    requires k < |RawLines(s)|
    ensures IsRawLine(RawLines(s)[k], k == |RawLines(s)| - 1)
    decreases k
  {
    var n := FirstLength(s);
    var rest := RawLines(s[n..]);
    assert RawLines(s) == [s[..n]] + rest;
    if k == 0 {
      assert s[..n][..n - 1] == s[..n - 1];
      if n < |s| { assert rest != []; }
    } else {
      RawLineAt(s[n..], k - 1);
    }
  }

  ghost predicate Nowhere(s: seq<byte>, pat: seq<byte>) {
    forall j: nat :: !At(s, pat, j)
  }

  ghost predicate OnlyAt(s: seq<byte>, pat: seq<byte>, i: nat) {
    forall j: nat :: At(s, pat, j) <==> j == i
  }

  /** A text without the pattern, read in whatever parts, has no matches. */
  lemma {:induction false} NoMatchInParts(s: seq<byte>, pat: seq<byte>, m: nat)
    requires pat != [] && m >= 2 && Nowhere(s, pat)
    ensures CountLines(ReadLines(s, m), pat) == 0
    decreases |s|
  {
    if s != [] {
      var n := ReadLine(s, m).1;
      NoMatchInFront(s, pat, m);
      forall j: nat ensures !At(s[n..], pat, j) { NotInTail(s, pat, n, j); }
      NoMatchInParts(s[n..], pat, m);
      ReadLinesTail(s, m);
    }
  }

  lemma {:induction false} ReadLinesTail(s: seq<byte>, m: nat)
    requires s != [] && m >= 2
    ensures var (line, n) := ReadLine(s, m);
            ReadLines(s, m) != [] && ReadLines(s, m)[0] == line && ReadLines(s, m)[1..] == ReadLines(s[n..], m)
  {}

  /** What is read first is a prefix of the text. */
  lemma {:induction false} NoMatchInFront(s: seq<byte>, pat: seq<byte>, m: nat)
    requires pat != [] && m >= 2 && s != [] && forall j: nat :: j + |pat| <= |ReadLine(s, m).0| ==> !At(s, pat, j)
    ensures Count(ReadLine(s, m).0, pat) == 0
  {
    var line := ReadLine(s, m).0;
    ReadsPrefix(s, m);
    forall j: nat ensures !At(line, pat, j) {
      if j + |pat| <= |line| { AtPrefix(s, |line|, pat, j); }
    }
    IndexNone(line, pat);
  }

  lemma AtPrefix(s: seq<byte>, n: nat, pat: seq<byte>, j: nat)
    requires j + |pat| <= n <= |s|
    ensures At(s[..n], pat, j) <==> At(s, pat, j)
  {
    assert s[..n][j..j + |pat|] == s[j..j + |pat|];
  }

  lemma ReadsPrefix(s: seq<byte>, m: nat)
    requires s != [] && m >= 2
    ensures var (line, n) := ReadLine(s, m); |line| <= n && line == s[..|line|]
  {}

  lemma NotInTail(s: seq<byte>, pat: seq<byte>, n: nat, j: nat)
    requires n <= |s| && !At(s, pat, n + j)
    ensures !At(s[n..], pat, j)
  {
    AtBack(s[..n], s[n..], pat, j);
    assert s[..n] + s[n..] == s;
  }

  /**
   The bytes from `i` to `j` lie inside the line that is read first, or behind what that read
   consumes and inside a later one.
   */
  predicate ReadWhole(s: seq<byte>, m: nat, i: nat, j: nat)
    requires m >= 2 && i <= j
    decreases |s|
  {
    s != [] &&
    var (line, n) := ReadLine(s, m);
    j <= |line| || (i >= n && ReadWhole(s[n..], m, i - n, j - n))
  }

  /**
   A match can be lost, the prefix flag being ignored: in a text with one match, at `i`, the line mode
   counts it exactly when it lies inside one of the lines read, and otherwise counts nothing.
   */
  lemma {:induction false} OneMatchIff(s: seq<byte>, pat: seq<byte>, m: nat, i: nat)
    requires pat != [] && m >= 2 && OnlyAt(s, pat, i)
    ensures Count(s, pat) == 1
    ensures CountLines(ReadLines(s, m), pat) == if ReadWhole(s, m, i, i + |pat|) then 1 else 0
  {
    OneOccurrence(s, pat, i);
    OneMatchCount(s, pat, m, i);
  }

  /** So a match that the end of the first read cuts through is lost. */
  lemma {:induction false} CutMatchIsLost(s: seq<byte>, pat: seq<byte>, m: nat, i: nat)
    requires pat != [] && m >= 2 && s != [] && OnlyAt(s, pat, i)
    requires i < ReadLine(s, m).1 < i + |pat|
    ensures Count(s, pat) == 1 && CountLines(ReadLines(s, m), pat) == 0
  {
    OneMatchIff(s, pat, m, i);
    ReadsPrefix(s, m);
  }

  lemma {:induction false} OneMatchCount(s: seq<byte>, pat: seq<byte>, m: nat, i: nat)
    requires pat != [] && m >= 2 && OnlyAt(s, pat, i)
    ensures CountLines(ReadLines(s, m), pat) == if ReadWhole(s, m, i, i + |pat|) then 1 else 0
    decreases |s|
  {
    assert s != [] by { assert At(s, pat, i); }
    var n := ReadLine(s, m).1;
    if i >= n {
      OneInTail(s, pat, n, i);
      OneMatchCount(s[n..], pat, m, i - n);
      MatchBehind(s, pat, m, i);
    } else {
      MatchHere(s, pat, m, i);
    }
  }

  /** A match behind the first line read is left to the rest. */
  lemma {:induction false} MatchBehind(s: seq<byte>, pat: seq<byte>, m: nat, i: nat)
    requires pat != [] && m >= 2 && s != [] && OnlyAt(s, pat, i) && i >= ReadLine(s, m).1
    ensures var rest, d := s[ReadLine(s, m).1..], i - ReadLine(s, m).1;
            && CountLines(ReadLines(s, m), pat) == CountLines(ReadLines(rest, m), pat)
            && (ReadWhole(s, m, i, i + |pat|) <==> ReadWhole(rest, m, d, d + |pat|))
  {
    ReadsPrefix(s, m);
    CountFirst(s, pat, m);
    MatchInFront(s, pat, m, i);
  }

  /** A match that starts before the end of the first read is found there or nowhere. */
  lemma {:induction false} MatchHere(s: seq<byte>, pat: seq<byte>, m: nat, i: nat)
    requires pat != [] && m >= 2 && s != [] && OnlyAt(s, pat, i) && i < ReadLine(s, m).1
    ensures CountLines(ReadLines(s, m), pat) == if ReadWhole(s, m, i, i + |pat|) then 1 else 0
  {
    var n := ReadLine(s, m).1;
    CountFirst(s, pat, m);
    MatchInFront(s, pat, m, i);
    NoneInTail(s, pat, n, i);
    NoMatchInParts(s[n..], pat, m);
  }

  lemma NoneInTail(s: seq<byte>, pat: seq<byte>, n: nat, i: nat)
    requires i < n <= |s| && OnlyAt(s, pat, i)
    ensures Nowhere(s[n..], pat)
  {
    forall j: nat ensures !At(s[n..], pat, j) { NotInTail(s, pat, n, j); }
  }

  lemma {:induction false} CountFirst(s: seq<byte>, pat: seq<byte>, m: nat)
    requires pat != [] && m >= 2 && s != []
    ensures var (line, n) := ReadLine(s, m);
            CountLines(ReadLines(s, m), pat) == Count(line, pat) + CountLines(ReadLines(s[n..], m), pat)
  {
    ReadLinesTail(s, m);
  }

  /** A match that starts in the first line read is found there if it ends there. */
  lemma {:induction false} MatchInFront(s: seq<byte>, pat: seq<byte>, m: nat, i: nat)
    requires pat != [] && m >= 2 && s != [] && OnlyAt(s, pat, i)
    ensures Count(ReadLine(s, m).0, pat) == if i + |pat| <= |ReadLine(s, m).0| then 1 else 0
  {
    var line := ReadLine(s, m).0;
    ReadsPrefix(s, m);
    if i + |pat| <= |line| {
      forall j: nat ensures At(line, pat, j) <==> j == i {
        if j + |pat| <= |line| { AtPrefix(s, |line|, pat, j); }
      }
      OneOccurrence(line, pat, i);
    } else {
      NoMatchInFront(s, pat, m);
    }
  }

  lemma OneInTail(s: seq<byte>, pat: seq<byte>, n: nat, i: nat)
    requires n <= i && n <= |s| && OnlyAt(s, pat, i)
    ensures OnlyAt(s[n..], pat, i - n)
  {
    forall j: nat ensures At(s[n..], pat, j) <==> j == i - n {
      AtBack(s[..n], s[n..], pat, j);
      assert s[..n] + s[n..] == s;
    }
  }

  lemma OneOccurrence(s: seq<byte>, pat: seq<byte>, i: nat)
    requires pat != [] && OnlyAt(s, pat, i)
    ensures Count(s, pat) == 1
  {
    IndexIs(s, pat, i);
    var rest := s[i + |pat|..];
    forall j: nat ensures !At(rest, pat, j) { NotInTail(s, pat, i + |pat|, j); }
    IndexNone(rest, pat);
  }

  /** One round of the line mode: what it adds to the text and to the count. */
  lemma {:induction false} LineWritten(text: seq<byte>, rest: seq<byte>, pat: seq<byte>, to: seq<byte>, m: nat)
    requires pat != [] && m >= 2 && rest != []
    ensures var (line, n) := ReadLine(rest, m);
            var more := ReadLines(rest[n..], m);
            && CountLines(ReadLines(rest, m), pat) == Count(line, pat) + CountLines(more, pat)
            && text + SlowText(ReadLines(rest, m), pat, to)
               == (text + Replace(line, pat, to) + CRLF) + SlowText(more, pat, to)
  {
    var (line, n) := ReadLine(rest, m);
    CountFirst(rest, pat, m);
    TextFirst(rest, pat, to, m);
    AppendedLine(text, Replace(line, pat, to), SlowText(ReadLines(rest[n..], m), pat, to));
  }

  lemma AppendedLine(text: seq<byte>, line: seq<byte>, more: seq<byte>)
    ensures text + (line + CRLF + more) == (text + line + CRLF) + more
  {}

  lemma {:induction false} TextFirst(s: seq<byte>, pat: seq<byte>, to: seq<byte>, m: nat)
    requires pat != [] && m >= 2 && s != []
    ensures var (line, n) := ReadLine(s, m);
            SlowText(ReadLines(s, m), pat, to) ==
            Replace(line, pat, to) + CRLF + SlowText(ReadLines(s[n..], m), pat, to)
  {
    ReadLinesTail(s, m);
  }

  /** Writing a new file, removing the original and renaming is putting the text in the original's place. */
  lemma Renamed(files: map<string, seq<byte>>, tmp: string, path: string, text: seq<byte>)
    requires tmp != path
    ensures (files[tmp := text] - {path} - {tmp})[path := text] == (files - {tmp})[path := text]
  {}

  datatype Outcome = BadArgs | Missing | Unchanged | Replaced(count: nat)

  /** The files that a run can reach, by path. */
  class Disk {
    var files: map<string, seq<byte>>

    /** The whole-file mode. */
    method QuickRun(path: string, pat: seq<byte>, to: seq<byte>) returns (r: Outcome)
      requires pat != []
      modifies this
      ensures path !in old(files) ==> r == Missing && files == old(files)
      ensures path in old(files) ==>
                var s := old(files)[path];
                if Count(s, pat) == 0 then r == Unchanged && files == old(files)
                else r == Replaced(Count(s, pat)) && files == old(files)[path := Replace(s, pat, to)]
    {
      if path !in files {
        return Missing;
      }
      var buf := files[path];
      var count := Count(buf, pat);
      if count == 0 {
        return Unchanged;
      }
      files := files[path := Replace(buf, pat, to)];
      r := Replaced(count);
    }

    /** One round: appends the line, with its matches replaced and CRLF behind it. */
    method RewriteLine(line: seq<byte>, tmp: string, pat: seq<byte>, to: seq<byte>) returns (i: nat)
      requires pat != [] && tmp in files
      modifies this
      ensures files == old(files)[tmp := old(files)[tmp] + Replace(line, pat, to) + CRLF]
      ensures i == Count(line, pat)
    {
      i := Count(line, pat);
      var written := if i > 0 then Replace(line, pat, to) else line;
      files := files[tmp := files[tmp] + written + CRLF];
    }

    /** The loop of the line mode: writes every line, replaced and ended by CRLF, to the new file `tmp`. */
    method RewriteLines(content: seq<byte>, tmp: string, pat: seq<byte>, to: seq<byte>, m: nat) returns (count: nat)
      requires pat != [] && m >= 2 && tmp in files && files[tmp] == []
      modifies this
      ensures files == old(files)[tmp := SlowText(ReadLines(content, m), pat, to)]
      ensures count == CountLines(ReadLines(content, m), pat)
    {
      var rest := content;
      count := 0;
      ghost var text := [];
      while rest != []
        invariant files == old(files)[tmp := text]
        invariant CountLines(ReadLines(content, m), pat) == count + CountLines(ReadLines(rest, m), pat)
        invariant SlowText(ReadLines(content, m), pat, to) == text + SlowText(ReadLines(rest, m), pat, to)
        decreases |rest|
      {
        LineWritten(text, rest, pat, to, m);
        var (line, consumed) := ReadLine(rest, m);
        var i := RewriteLine(line, tmp, pat, to);
        count := count + i;
        text := text + Replace(line, pat, to) + CRLF;
        rest := rest[consumed..];
      }
      assert text + [] == text;
    }

    /** The line mode: writes a temporary file and renames it over the original if anything matched. */
    method SlowRun(path: string, tmp: string, pat: seq<byte>, to: seq<byte>, m: nat) returns (r: Outcome)
      requires pat != [] && m >= 2 && tmp != path
      modifies this
      ensures path !in old(files) ==> r == Missing && files == old(files) - {tmp}
      ensures path in old(files) ==>
                var lines := ReadLines(old(files)[path], m);
                if CountLines(lines, pat) == 0 then r == Unchanged && files == old(files) - {tmp}
                else
                  && r == Replaced(CountLines(lines, pat))
                  && files == (old(files) - {tmp})[path := SlowText(lines, pat, to)]
    {
      files := files[tmp := []];
      if path !in files {
        files := files - {tmp};
        return Missing;
      }
      var count := RewriteLines(files[path], tmp, pat, to, m);
      if count > 0 {
        var text := files[tmp];
        files := files - {path};
        files := (files - {tmp})[path := text];
        Renamed(old(files), tmp, path, text);
        r := Replaced(count);
      } else {
        files := files - {tmp};
        r := Unchanged;
      }
    }

    /** The argument check and the choice of mode. */
    method Run(path: string, tmp: string, pat: seq<byte>, to: seq<byte>, quick: bool, m: nat) returns (r: Outcome)
      requires m >= 2 && tmp != path
      modifies this
      ensures r == BadArgs <==> pat == [] || to == [] || path == ""
      ensures r == BadArgs ==> files == old(files)
      ensures forall p :: p in old(files) && p != path && p != tmp ==> p in files && files[p] == old(files)[p]
      ensures r != BadArgs && path in old(files) && (quick || WithinLine(pat)) ==>
                var s := old(files)[path];
                path in files && ((quick || forall raw :: raw in RawLines(s) ==> Fits(raw, m)) ==>
                  && r == (if Count(s, pat) == 0 then Unchanged else Replaced(Count(s, pat)))
                  && files[path] == (if Count(s, pat) == 0 || quick then Replace(s, pat, to)
                                     else SlowText(Bodies(RawLines(s)), pat, to)))
    {
      if pat == [] || to == [] || path == "" {
        return BadArgs;
      }
      if path in files {
        CountZeroIff(files[path], pat);
        if WithinLine(pat) && forall raw :: raw in RawLines(files[path]) ==> Fits(raw, m) {
          SlowRefinesQuick(files[path], pat, to, m);
        }
      }
      if quick {
        r := QuickRun(path, pat, to);
      } else {
        r := SlowRun(path, tmp, pat, to, m);
      }
    }
  }
}
