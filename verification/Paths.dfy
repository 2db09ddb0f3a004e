/**
 Paths as the user types them: cleaning, joining and trimming of strings, as filepath.Clean,
 filepath.Join and strings.TrimPrefix do it, and where in the tree a string leads.
 */
module Paths {

  type Path = seq<string>

  const SEP := '/'

  /** A name that stands for itself in a path. */
  predicate Normal(name: string) {
    name != "" && name != "." && name != ".." && SEP !in name
  }

  /** The parts of a string between its separators. */
  function Components(s: string): (r: seq<string>)
    ensures r != []
  {
    if s == "" then [""]
    else
      var rest := Components(s[1..]);
      if s[0] == SEP then [""] + rest else [[s[0]] + rest[0]] + rest[1..]
  }

  /** The parts with separators between them. */
  function Text(parts: seq<string>): string {
    if parts == [] then "" else if |parts| == 1 then parts[0] else parts[0] + [SEP] + Text(parts[1..])
  }

  lemma {:induction false} ComponentsJoin(a: string, b: string)
    ensures Components(a + [SEP] + b) == Components(a) + Components(b)
  {
    if a == "" {
      assert ("" + [SEP] + b)[1..] == b;
    } else {
      assert (a + [SEP] + b)[1..] == a[1..] + [SEP] + b;
      ComponentsJoin(a[1..], b);
    }
  }

  lemma {:induction false} ComponentsPlain(s: string)
    requires SEP !in s
    ensures Components(s) == [s]
  {
    if s != "" {
      ComponentsPlain(s[1..]);
      assert [s[0]] + s[1..] == s;
    }
  }

  lemma {:induction false} ComponentsOfText(parts: seq<string>)
    requires parts != [] && forall i :: 0 <= i < |parts| ==> SEP !in parts[i]
    ensures Components(Text(parts)) == parts
  {
    ComponentsPlain(parts[0]);
    if |parts| > 1 {
      ComponentsOfText(parts[1..]);
      ComponentsJoin(parts[0], Text(parts[1..]));
    } else {
      assert parts == [parts[0]];
    }
  }

  lemma {:induction false} TextOfComponents(s: string)
    ensures Text(Components(s)) == s
    ensures forall i :: 0 <= i < |Components(s)| ==> SEP !in Components(s)[i]
  {
    if s != "" {
      var rest := Components(s[1..]);
      TextOfComponents(s[1..]);
      assert s == [s[0]] + s[1..];
      if s[0] == SEP {
        assert Components(s)[1..] == rest;
      } else {
        TextHead(s[0], rest);
      }
    }
  }

  lemma TextHead(c: char, parts: seq<string>)
    requires parts != []
    ensures Text([[c] + parts[0]] + parts[1..]) == [c] + Text(parts)
  {
    var head, tail := parts[0], parts[1..];
    assert parts == [head] + tail;
    TextCons(head, tail);
    TextCons([c] + head, tail);
    ConcatAssoc([c], head, [SEP] + Text(tail));
  }

  lemma TextCons(head: string, tail: seq<string>)
    ensures Text([head] + tail) == if tail == [] then head else head + ([SEP] + Text(tail))
  {
    var parts := [head] + tail;
    assert parts[0] == head && parts[1..] == tail;
  }

  lemma ConcatAssoc(a: string, b: string, c: string)
    ensures (a + b) + c == a + (b + c)
  {}

  /** The directory that a part of a path leads to. */
  function Enter(at: Path, part: string): Path {
    if part == "" || part == "." then at
    else if part == ".." then (if at == [] then [] else at[..|at| - 1])
    else at + [part]
  }

  function Follow(at: Path, parts: seq<string>): Path {
    if parts == [] then at else Enter(Follow(at, parts[..|parts| - 1]), parts[|parts| - 1])
  }

  predicate Rooted(s: string) {
    s != "" && s[0] == SEP
  }

  /** Where a string leads, from the working directory `cwd`. */
  function Abs(cwd: Path, s: string): Path {
    Follow(if Rooted(s) then [] else cwd, Components(s))
  }

  lemma {:induction false} FollowConcat(at: Path, a: seq<string>, b: seq<string>)
    ensures Follow(at, a + b) == Follow(Follow(at, a), b)
  {
    if b == [] {
      assert a + b == a;
    } else {
      var n := |b| - 1;
      assert (a + b)[..|a| + n] == a + b[..n];
      FollowConcat(at, a, b[..n]);
    }
  }

  lemma {:induction false} FollowNormal(at: Path, names: seq<string>)
    requires forall i :: 0 <= i < |names| ==> Normal(names[i])
    ensures Follow(at, names) == at + names
  {
    if names != [] {
      var n := |names| - 1;
      FollowNormal(at, names[..n]);
      assert names == names[..n] + [names[n]];
    }
  }

  /** A cleaned path: from the root or not, some steps up, then plain names. */
  datatype Cleaned = Cleaned(rooted: bool, ups: nat, names: seq<string>)

  predicate ValidCleaned(c: Cleaned) {
    (c.rooted ==> c.ups == 0) && forall i :: 0 <= i < |c.names| ==> Normal(c.names[i])
  }

  function CleanPart(c: Cleaned, part: string): Cleaned {
    if part == "" || part == "." then c
    else if part != ".." then c.(names := c.names + [part])
    else if c.names != [] then c.(names := c.names[..|c.names| - 1])
    else if c.rooted then c
    else c.(ups := c.ups + 1)
  }

  function CleanParts(c: Cleaned, parts: seq<string>): Cleaned {
    if parts == [] then c else CleanPart(CleanParts(c, parts[..|parts| - 1]), parts[|parts| - 1])
  }

  /** filepath.Clean, up to the spelling. */
  function Clean(s: string): Cleaned {
    CleanParts(Cleaned(Rooted(s), 0, []), Components(s))
  }

  function Ups(n: nat): seq<string> {
    if n == 0 then [] else Ups(n - 1) + [".."]
  }

  function Elements(c: Cleaned): seq<string> {
    Ups(c.ups) + c.names
  }

  /** The spelling of a cleaned path. */
  function Show(c: Cleaned): string {
    if c.rooted then [SEP] + Text(Elements(c))
    else if Elements(c) == [] then "."
    else Text(Elements(c))
  }

  lemma {:induction false} CleanPartsConcat(c: Cleaned, a: seq<string>, b: seq<string>)
    ensures CleanParts(c, a + b) == CleanParts(CleanParts(c, a), b)
  {
    if b == [] {
      assert a + b == a;
    } else {
      var n := |b| - 1;
      assert (a + b)[..|a| + n] == a + b[..n];
      CleanPartsConcat(c, a, b[..n]);
    }
  }

  lemma {:induction false} CleanPartsValid(c: Cleaned, parts: seq<string>)
    requires ValidCleaned(c) && forall i :: 0 <= i < |parts| ==> SEP !in parts[i]
    ensures ValidCleaned(CleanParts(c, parts)) && CleanParts(c, parts).rooted == c.rooted
  {
    if parts != [] {
      CleanPartsValid(c, parts[..|parts| - 1]);
    }
  }

  lemma CleanValid(s: string)
    ensures ValidCleaned(Clean(s)) && Clean(s).rooted == Rooted(s)
  {
    TextOfComponents(s);
    CleanPartsValid(Cleaned(Rooted(s), 0, []), Components(s));
  }

  /** Going up and then down names is what a cleaned path does. */
  lemma FollowElements(at: Path, c: Cleaned)
    requires ValidCleaned(c)
    ensures Follow(at, Elements(c)) == Follow(at, Ups(c.ups)) + c.names
  {
    FollowConcat(at, Ups(c.ups), c.names);
    FollowNormal(Follow(at, Ups(c.ups)), c.names);
  }

  /** Cleaning does not change where a path leads. */
  lemma {:induction false} CleanPartsFollow(at: Path, rooted: bool, parts: seq<string>)
    requires (rooted ==> at == []) && forall i :: 0 <= i < |parts| ==> SEP !in parts[i]
    ensures Follow(at, Elements(CleanParts(Cleaned(rooted, 0, []), parts))) == Follow(at, parts)
  {
    var start := Cleaned(rooted, 0, []);
    if parts != [] {
      var n := |parts| - 1;
      CleanPartsFollow(at, rooted, parts[..n]);
      CleanPartsValid(start, parts[..n]);
      CleanPartsValid(start, parts);
      CleanPartFollows(at, CleanParts(start, parts[..n]), parts[n]);
    }
  }

  lemma CleanPartFollows(at: Path, c: Cleaned, part: string)
    requires ValidCleaned(c) && SEP !in part && (c.rooted ==> at == [])
    ensures Follow(at, Elements(CleanPart(c, part))) == Enter(Follow(at, Elements(c)), part)
  {
    if part == ".." {
      CleanUpFollows(at, c);
    } else if part != "" && part != "." {
      assert Elements(c.(names := c.names + [part])) == Elements(c) + [part];
      FollowSnoc(at, Elements(c), part);
    }
  }

  lemma CleanUpFollows(at: Path, c: Cleaned)
    requires ValidCleaned(c) && (c.rooted ==> at == [])
    ensures Follow(at, Elements(CleanPart(c, ".."))) == Enter(Follow(at, Elements(c)), "..")
  {
    if c.names != [] {
      DropName(at, c.ups, c.names);
    } else if c.rooted {
      assert Elements(c) == [];
    } else {
      assert Elements(c) == Ups(c.ups);
      assert Elements(c.(ups := c.ups + 1)) == Ups(c.ups) + [".."];
      FollowSnoc(at, Ups(c.ups), "..");
    }
  }

  lemma DropName(at: Path, ups: nat, names: seq<string>)
    requires names != [] && forall i :: 0 <= i < |names| ==> Normal(names[i])
    ensures Follow(at, Ups(ups) + names[..|names| - 1]) == Enter(Follow(at, Ups(ups) + names), "..")
  {
    var front, last := names[..|names| - 1], names[|names| - 1];
    assert Ups(ups) + names == Ups(ups) + front + [last];
    FollowSnoc(at, Ups(ups) + front, last);
    var below := Follow(at, Ups(ups) + front);
    assert (below + [last])[..|below|] == below;
  }

  lemma FollowSnoc(at: Path, parts: seq<string>, part: string)
    ensures Follow(at, parts + [part]) == Enter(Follow(at, parts), part)
  {
    assert (parts + [part])[..|parts|] == parts;
  }

  lemma CleanAbs(cwd: Path, s: string)
    ensures Abs(cwd, s) == Follow(if Rooted(s) then [] else cwd, Elements(Clean(s)))
  {
    TextOfComponents(s);
    CleanPartsFollow(if Rooted(s) then [] else cwd, Rooted(s), Components(s));
  }

  predicate AllNormal(names: seq<string>) {
    forall i :: 0 <= i < |names| ==> Normal(names[i])
  }

  lemma {:induction false} UpsPlain(n: nat)
    ensures |Ups(n)| == n && forall i :: 0 <= i < n ==> Ups(n)[i] == ".."
  {
    if n > 0 { UpsPlain(n - 1); }
  }

  /** Every part of a cleaned path is spelled out and holds no separator. */
  lemma ElementsPlain(c: Cleaned)
    requires ValidCleaned(c)
    ensures forall i :: 0 <= i < |Elements(c)| ==> Elements(c)[i] != "" && SEP !in Elements(c)[i]
  {
    UpsPlain(c.ups);
  }

  /** The parts of a cleaned path's spelling; a path from the root starts with an empty one. */
  function Spelling(c: Cleaned): seq<string> {
    (if c.rooted then [""] else []) + Elements(c)
  }

  lemma TextStart(parts: seq<string>)
    requires parts != [] && parts[0] != "" && SEP !in parts[0]
    ensures Text(parts) != "" && Text(parts)[0] != SEP
  {
    var first := parts[0];
    assert first[0] in first;
    assert Text(parts)[0] == first[0];
  }

  lemma ComponentsOfShow(c: Cleaned)
    requires ValidCleaned(c) && Elements(c) != []
    ensures Components(Show(c)) == Spelling(c)
    ensures Show(c) != "" && Rooted(Show(c)) == c.rooted
  {
    ElementsPlain(c);
    ComponentsOfText(Elements(c));
    TextStart(Elements(c));
    if c.rooted { RootedComponents(Text(Elements(c))); }
  }

  lemma RootedComponents(t: string)
    ensures Components([SEP] + t) == [""] + Components(t)
  {
    ComponentsJoin("", t);
    assert "" + [SEP] + t == [SEP] + t;
  }

  lemma {:induction false} CleanUps(rooted: bool, n: nat)
    requires rooted ==> n == 0
    ensures CleanParts(Cleaned(rooted, 0, []), Ups(n)) == Cleaned(rooted, n, [])
  {
    if n > 0 {
      CleanUps(rooted, n - 1);
      CleanSnoc(Cleaned(rooted, 0, []), Ups(n - 1), "..");
    }
  }

  lemma {:induction false} CleanNames(c: Cleaned, names: seq<string>)
    requires AllNormal(names)
    ensures CleanParts(c, names) == c.(names := c.names + names)
  {
    if names != [] {
      var n := |names| - 1;
      CleanNames(c, names[..n]);
      assert c.names + names == c.names + names[..n] + [names[n]];
    } else {
      assert c.names + [] == c.names;
    }
  }

  lemma CleanElements(c: Cleaned)
    requires ValidCleaned(c)
    ensures CleanParts(Cleaned(c.rooted, 0, []), Elements(c)) == c
  {
    CleanUps(c.rooted, c.ups);
    CleanPartsConcat(Cleaned(c.rooted, 0, []), Ups(c.ups), c.names);
    CleanNames(Cleaned(c.rooted, c.ups, []), c.names);
    assert [] + c.names == c.names;
  }

  lemma CleanSpelling(c: Cleaned)
    requires ValidCleaned(c)
    ensures CleanParts(Cleaned(c.rooted, 0, []), Spelling(c)) == c
  {
    var start := Cleaned(c.rooted, 0, []);
    CleanElements(c);
    if c.rooted {
      CleanPartsConcat(start, [""], Elements(c));
      assert [""][..0] == [] && CleanParts(start, [""]) == start;
    } else {
      assert Spelling(c) == Elements(c);
    }
  }

  /** Cleaning what has been cleaned changes nothing. */
  lemma CleanShow(c: Cleaned)
    requires ValidCleaned(c) && Elements(c) != []
    ensures Clean(Show(c)) == c
  {
    ComponentsOfShow(c);
    CleanSpelling(c);
  }

  /** filepath.Join with one name. */
  function JoinPath(path: string, name: string): string {
    Show(Clean(path + [SEP] + name))
  }

  lemma CleanJoin(path: string, name: string)
    requires path != "" && Normal(name)
    ensures Clean(path + [SEP] + name) == Clean(path).(names := Clean(path).names + [name])
  {
    ComponentsJoin(path, name);
    ComponentsPlain(name);
    var start := Cleaned(Rooted(path), 0, []);
    CleanPartsConcat(start, Components(path), [name]);
    CleanNames(CleanParts(start, Components(path)), [name]);
  }

  /** The string under which filepath.Walk visits the path `rel` below `root`. */
  function Visited(root: string, rel: seq<string>): string {
    if rel == [] then root else JoinPath(Visited(root, rel[..|rel| - 1]), rel[|rel| - 1])
  }

  function Below(root: string, rel: seq<string>): Cleaned {
    var c := Clean(root);
    c.(names := c.names + rel)
  }

  lemma BelowValid(root: string, rel: seq<string>)
    requires AllNormal(rel) && rel != []
    ensures ValidCleaned(Below(root, rel)) && Below(root, rel).rooted == Rooted(root)
    ensures Elements(Below(root, rel)) != [] && Elements(Below(root, rel)) == Elements(Clean(root)) + rel
  {
    CleanValid(root);
  }

  /** Below the root the walk cleans what it visits. */
  lemma {:induction false} VisitedIs(root: string, rel: seq<string>)
    requires root != "" && AllNormal(rel) && rel != []
    ensures Visited(root, rel) == Show(Below(root, rel)) != ""
  {
    var n := |rel| - 1;
    var front := rel[..n];
    BelowValid(root, rel);
    ComponentsOfShow(Below(root, rel));
    BelowSnoc(root, front, rel[n]);
    assert rel == front + [rel[n]];
    if front == [] {
      assert Visited(root, front) == root;
      CleanJoin(root, rel[n]);
      assert Below(root, front) == Clean(root);
    } else {
      VisitedIs(root, front);
      BelowValid(root, front);
      CleanShow(Below(root, front));
      CleanJoin(Visited(root, front), rel[n]);
    }
  }

  lemma BelowSnoc(root: string, front: seq<string>, name: string)
    ensures Below(root, front + [name]) == Below(root, front).(names := Below(root, front).names + [name])
    ensures Below(root, []) == Clean(root)
  {
    var names := Clean(root).names;
    assert names + (front + [name]) == names + front + [name] && names + [] == names;
  }

  /** What the walk visits is where it should be. */
  lemma VisitedAbs(cwd: Path, root: string, rel: seq<string>)
    requires root != "" && AllNormal(rel)
    ensures Abs(cwd, Visited(root, rel)) == Abs(cwd, root) + rel
  {
    if rel == [] {
      assert Abs(cwd, root) + [] == Abs(cwd, root);
    } else {
      var c := Below(root, rel);
      VisitedIs(root, rel);
      BelowValid(root, rel);
      ComponentsOfShow(c);
      CleanShow(c);
      CleanAbs(cwd, Show(c));
      CleanAbs(cwd, root);
      var at := if c.rooted then [] else cwd;
      FollowConcat(at, Elements(Clean(root)), rel);
      FollowNormal(Follow(at, Elements(Clean(root))), rel);
    }
  }

  /** strings.TrimPrefix. */
  function TrimPrefix(s: string, prefix: string): string {
    if prefix <= s then s[|prefix|..] else s
  }

  predicate EndsInSep(s: string) {
    s != "" && s[|s| - 1] == SEP
  }

  function WithSep(s: string): (r: string)
    ensures s != "" ==> EndsInSep(r)
  {
    if EndsInSep(s) then s else s + [SEP]
  }

  /** The root is spelled as the walk spells it: clean, up to one separator at the end. */
  predicate Spelled(root: string) {
    root == WithSep(Show(Clean(root)))
  }

  /**
   Where the callback finds the place of `rel` below `target`: the visited path with the root trimmed
   off, appended.
   */
  function Place(cwd: Path, root: string, target: string, rel: seq<string>): Path {
    Abs(cwd, target + TrimPrefix(Visited(root, rel), root))
  }

  /** The directory below which everything but the root is placed. */
  function Base(cwd: Path, root: string, target: string): Path {
    if Spelled(root) then Abs(cwd, target) else Follow(Abs(cwd, target), Elements(Clean(root)))
  }

  lemma SplitSep(s: string) returns (front: string)
    requires EndsInSep(s)
    ensures s == front + [SEP] && front == s[..|s| - 1]
    ensures Components(s) == Components(front) + [""]
  {
    front := s[..|s| - 1];
    ComponentsJoin(front, "");
    assert front + [SEP] + "" == s;
  }

  /** A separator at the end changes neither where a path leads nor what it cleans to. */
  lemma CleanFront(s: string, front: string)
    requires EndsInSep(s) && s == front + [SEP]
    ensures CleanParts(Cleaned(Rooted(s), 0, []), Components(front)) == Clean(s)
    ensures forall cwd :: Abs(cwd, s) == Follow(if Rooted(s) then [] else cwd, Components(front))
  {
    var f := SplitSep(s);
    var start := Cleaned(Rooted(s), 0, []);
    CleanPartsConcat(start, Components(front), [""]);
    assert [""][..0] == [];
    forall cwd ensures Abs(cwd, s) == Follow(if Rooted(s) then [] else cwd, Components(front)) {
      FollowSnoc(if Rooted(s) then [] else cwd, Components(front), "");
    }
  }

  /** Appending to a path that ends in a separator goes on from where it leads. */
  lemma AbsAppend(cwd: Path, target: string, more: string)
    requires EndsInSep(target)
    ensures Abs(cwd, target + more) == Follow(Abs(cwd, target), Components(more))
  {
    var front := SplitSep(target);
    CleanFront(target, front);
    ComponentsJoin(front, more);
    assert target + more == front + [SEP] + more;
    assert Rooted(target + more) == Rooted(target);
    FollowConcat(if Rooted(target) then [] else cwd, Components(front), Components(more));
  }

  /** The front of a cleaned spelling cleans to itself. */
  lemma CleanSpellingFront(c: Cleaned, k: nat)
    requires ValidCleaned(c) && (c.rooted ==> k >= 1) && k <= |Spelling(c)|
    ensures Spelling(CleanParts(Cleaned(c.rooted, 0, []), Spelling(c)[..k])) == Spelling(c)[..k]
  {
    UpsPlain(c.ups);
    var n := if c.rooted then k - 1 else k;
    var d := if n <= c.ups then Cleaned(c.rooted, n, []) else Cleaned(c.rooted, c.ups, c.names[..n - c.ups]);
    if n <= c.ups { UpsFront(c.ups, n); }
    assert Elements(d) == Elements(c)[..n];
    assert Spelling(d) == Spelling(c)[..k];
    CleanSpelling(d);
  }

  lemma UpsFront(n: nat, k: nat)
    requires k <= n && |Ups(n)| == n
    ensures Ups(n)[..k] == Ups(k)
  {
    UpsPlain(n);
    UpsPlain(k);
  }

  /** The root is trimmed off a visited path exactly when it is spelled as the walk does and not just a dot. */
  lemma {:induction false} TrimmedIff(root: string, rel: seq<string>)
    requires EndsInSep(root) && AllNormal(rel) && rel != []
    ensures root <= Visited(root, rel) <==> Spelled(root) && Spelling(Clean(root)) != []
    ensures root <= Visited(root, rel) ==> Visited(root, rel)[|root|..] == Text(rel)
  {
    VisitedIs(root, rel);
    BelowValid(root, rel);
    CleanValid(root);
    if root <= Visited(root, rel) { PrefixIsSpelled(root, rel); }
    if Spelled(root) && Spelling(Clean(root)) != [] { SpelledIsPrefix(root, rel); }
  }

  lemma PrefixIsSpelled(root: string, rel: seq<string>)
    requires EndsInSep(root) && AllNormal(rel) && rel != [] && ValidCleaned(Clean(root))
    requires root <= Visited(root, rel)
    ensures Spelled(root) && Spelling(Clean(root)) != []
  {
    var c, d := Clean(root), Below(root, rel);
    var t := Visited(root, rel);
    VisitedIs(root, rel);
    BelowValid(root, rel);
    ComponentsOfShow(d);
    var front := SplitSep(root);
    assert t == front + [SEP] + t[|root|..];
    ComponentsJoin(front, t[|root|..]);
    var k := |Components(front)|;
    assert Spelling(d)[..k] == Components(front);
    CleanFront(root, front);
    CleanSpellingFront(d, k);
    CleanValid(root);
    assert Spelling(c) == Components(front);
    TextOfComponents(front);
    TextOfSpelling(c);
  }

  /** The spelling of a cleaned path, but for the bare root. */
  lemma TextOfSpelling(c: Cleaned)
    requires ValidCleaned(c) && Spelling(c) != []
    ensures WithSep(Show(c)) == Text(Spelling(c)) + [SEP]
  {
    if Elements(c) == [] {
      assert Spelling(c) == [""] && Show(c) == [SEP];
    } else {
      ShowIsText(c);
      ElementsPlain(c);
      TextEnd(Elements(c));
    }
  }

  lemma {:induction false} TextEnd(parts: seq<string>)
    requires parts != [] && forall i :: 0 <= i < |parts| ==> parts[i] != "" && SEP !in parts[i]
    ensures Text(parts) != "" && Text(parts)[|Text(parts)| - 1] != SEP
  {
    if |parts| > 1 {
      TextEnd(parts[1..]);
    } else {
      var last := parts[0];
      assert last[|last| - 1] in last;
    }
  }

  lemma SpelledIsPrefix(root: string, rel: seq<string>)
    requires EndsInSep(root) && AllNormal(rel) && rel != [] && ValidCleaned(Clean(root))
    requires Spelled(root) && Spelling(Clean(root)) != []
    ensures root <= Visited(root, rel) && Visited(root, rel)[|root|..] == Text(rel)
  {
    VisitedIs(root, rel);
    ShowBelow(Clean(root), rel);
    PrefixOfConcat(root, Text(rel));
  }

  lemma ShowBelow(c: Cleaned, rel: seq<string>)
    requires ValidCleaned(c) && Spelling(c) != [] && rel != []
    ensures Show(c.(names := c.names + rel)) == WithSep(Show(c)) + Text(rel)
  {
    var d := c.(names := c.names + rel);
    assert Elements(d) == Elements(c) + rel;
    assert Spelling(d) == Spelling(c) + rel;
    TextOfSpelling(c);
    ShowIsText(d);
    TextConcat(Spelling(c), rel);
  }

  lemma PrefixOfConcat(a: string, b: string)
    ensures a <= a + b && (a + b)[|a|..] == b
  {}

  lemma ShowIsText(c: Cleaned)
    requires Elements(c) != []
    ensures Show(c) == Text(Spelling(c))
  {
    if c.rooted { assert Spelling(c)[1..] == Elements(c); } else { assert Spelling(c) == Elements(c); }
  }

  lemma {:induction false} TextConcat(a: seq<string>, b: seq<string>)
    requires a != [] && b != []
    ensures Text(a + b) == Text(a) + [SEP] + Text(b)
  {
    if |a| > 1 {
      TextConcat(a[1..], b);
      assert (a + b)[1..] == a[1..] + b;
    } else {
      assert (a + b)[1..] == b;
    }
  }

  /** Where everything below the root is placed, whatever the strings. */
  lemma {:induction false} PlaceIs(cwd: Path, root: string, target: string, rel: seq<string>)
    requires EndsInSep(root) && EndsInSep(target) && AllNormal(rel)
    ensures Place(cwd, root, target, rel) == if rel == [] then Abs(cwd, target) else Base(cwd, root, target) + rel
  {
    if rel == [] {
      assert target + "" == target && TrimPrefix(root, root) == "";
    } else {
      TrimmedIff(root, rel);
      CleanValid(root);
      if root <= Visited(root, rel) {
        PlaceTrimmed(cwd, target, rel);
      } else {
        PlaceUntrimmed(cwd, root, target, rel);
      }
    }
  }

  lemma PlaceTrimmed(cwd: Path, target: string, rel: seq<string>)
    requires EndsInSep(target) && AllNormal(rel) && rel != []
    ensures Abs(cwd, target + Text(rel)) == Abs(cwd, target) + rel
  {
    AbsAppend(cwd, target, Text(rel));
    ComponentsOfText(rel);
    FollowNormal(Abs(cwd, target), rel);
  }

  lemma PlaceUntrimmed(cwd: Path, root: string, target: string, rel: seq<string>)
    requires root != "" && EndsInSep(target) && AllNormal(rel) && rel != []
    ensures Abs(cwd, target + Visited(root, rel)) == Follow(Abs(cwd, target), Elements(Clean(root))) + rel
  {
    var d := Below(root, rel);
    var at := Abs(cwd, target);
    VisitedIs(root, rel);
    BelowValid(root, rel);
    ComponentsOfShow(d);
    AbsAppend(cwd, target, Show(d));
    if d.rooted {
      FollowConcat(at, [""], Elements(d));
      assert [""][..0] == [] && Follow(at, [""]) == at;
    } else {
      assert Spelling(d) == Elements(d);
    }
    FollowConcat(at, Elements(Clean(root)), rel);
    FollowNormal(Follow(at, Elements(Clean(root))), rel);
  }

  /**
   Everything below the root is placed below the target, under the same names, exactly when the root
   is spelled as the walk spells it, or its cleaned form leads from the target back to the target.
   */
  lemma LandsIff(cwd: Path, root: string, target: string)
    requires EndsInSep(root) && EndsInSep(target)
    ensures (forall rel :: AllNormal(rel) ==> Place(cwd, root, target, rel) == Abs(cwd, target) + rel) <==>
            Spelled(root) || Follow(Abs(cwd, target), Elements(Clean(root))) == Abs(cwd, target)
  {
    var at := Abs(cwd, target);
    if Base(cwd, root, target) == at {
      forall rel | AllNormal(rel) ensures Place(cwd, root, target, rel) == at + rel {
        PlaceIs(cwd, root, target, rel);
        assert at + [] == at;
      }
    } else {
      var rel := ["x"];
      PlaceIs(cwd, root, target, rel);
      assert (Base(cwd, root, target) + rel)[..|Base(cwd, root, target)|] == Base(cwd, root, target);
      assert (at + rel)[..|at|] == at;
      assert AllNormal(rel);
    }
  }

  /**
   For a source that does not start with steps up: exactly when it is spelled so, or is the root or
   the working directory.
   */
  lemma LandsIffDown(cwd: Path, root: string, target: string)
    requires EndsInSep(root) && EndsInSep(target) && Clean(root).ups == 0
    ensures (forall rel :: AllNormal(rel) ==> Place(cwd, root, target, rel) == Abs(cwd, target) + rel) <==>
            Spelled(root) || Clean(root).names == []
  {
    LandsIff(cwd, root, target);
    CleanValid(root);
    FollowElements(Abs(cwd, target), Clean(root));
  }

  /** A leading "./" is enough: everything lands one directory too deep, whatever the name and the target. */
  lemma DotSlashLandsDeeper(cwd: Path, name: string, target: string, rel: seq<string>)
    requires Normal(name) && EndsInSep(target) && AllNormal(rel) && rel != []
    ensures Place(cwd, "./" + name + "/", target, rel) == Abs(cwd, target) + [name] + rel
  {
    DotSlashBase(cwd, name, target);
    PlaceIs(cwd, "./" + name + "/", target, rel);
  }

  lemma DotSlashBase(cwd: Path, name: string, target: string)
    requires Normal(name) && EndsInSep(target)
    ensures Base(cwd, "./" + name + "/", target) == Abs(cwd, target) + [name]
  {
    var root, front := "./" + name + "/", "." + [SEP] + name;
    DotSlashCleans(name);
    assert root == front + [SEP];
    CleanFront(root, front);
    assert |WithSep(Show(Clean(root)))| <= |name| + 1 < |root|;
    FollowNormal(Abs(cwd, target), [name]);
  }

  lemma DotSlashCleans(name: string)
    requires Normal(name)
    ensures CleanParts(Cleaned(false, 0, []), Components("." + [SEP] + name)) == Cleaned(false, 0, [name])
    ensures Elements(Cleaned(false, 0, [name])) == [name]
  {
    ComponentsJoin(".", name);
    ComponentsPlain(".");
    ComponentsPlain(name);
    var start := Cleaned(false, 0, []);
    CleanSnoc(start, ["."], name);
    CleanSnoc(start, [], ".");
    assert [] + ["."] == ["."];
  }

  /** A name leads one directory down, without "./" before it or with it. */
  lemma NameAbs(cwd: Path, name: string)
    requires Normal(name)
    ensures Abs(cwd, name + [SEP]) == cwd + [name]
  {
    CleanFront(name + [SEP], name);
    ComponentsPlain(name);
    FollowNormal(cwd, [name]);
  }

  lemma DotNameAbs(cwd: Path, name: string)
    requires Normal(name)
    ensures Abs(cwd, "." + [SEP] + name + [SEP]) == cwd + [name]
  {
    var front := "." + [SEP] + name;
    CleanFront(front + [SEP], front);
    ComponentsJoin(".", name);
    ComponentsPlain(".");
    ComponentsPlain(name);
    FollowConcat(cwd, ["."], [name]);
    FollowSnoc(cwd, [], ".");
    assert [] + ["."] == ["."];
    FollowNormal(cwd, [name]);
  }

  /** Two names with separators after them lead two directories down, and are what the walk would spell. */
  lemma NamesSpelled(cwd: Path, a: string, b: string)
    requires Normal(a) && Normal(b)
    ensures var root := a + [SEP] + b + [SEP];
            EndsInSep(root) && Spelled(root) && Abs(cwd, root) == cwd + [a, b]
  {
    var front, c := a + [SEP] + b, Cleaned(false, 0, [a, b]);
    var root := front + [SEP];
    ComponentsPair(a, b);
    CleanFront(root, front);
    CleanNames(Cleaned(false, 0, []), [a, b]);
    TextPair(a, b);
    assert Clean(root) == c && Show(c) == front;
    assert front[|front| - 1] == b[|b| - 1];
    FollowNormal(cwd, [a, b]);
  }

  lemma ComponentsPair(a: string, b: string)
    requires SEP !in a && SEP !in b
    ensures Components(a + [SEP] + b) == [a, b]
  {
    ComponentsJoin(a, b);
    ComponentsPlain(a);
    ComponentsPlain(b);
  }

  lemma TextPair(a: string, b: string)
    ensures Text([a, b]) == a + [SEP] + b
  {
    TextCons(a, [b]);
    assert [a] + [b] == [a, b] && Text([b]) == b;
  }

  lemma CleanSnoc(c: Cleaned, parts: seq<string>, part: string)
    ensures CleanParts(c, parts + [part]) == CleanPart(CleanParts(c, parts), part)
  {
    assert (parts + [part])[..|parts|] == parts;
  }

  /** The comparison cleans both paths first and so finds every place, whatever was typed. */
  lemma ComparedPlaces(cwd: Path, spath: string, dpath: string, rel: seq<string>)
    requires AllNormal(rel)
    ensures var root, target := Show(Clean(spath)) + [SEP], Show(Clean(dpath)) + [SEP];
            && Abs(cwd, root) == Abs(cwd, spath) && Abs(cwd, target) == Abs(cwd, dpath)
            && Place(cwd, root, target, rel) == Abs(cwd, dpath) + rel
  {
    var root, target := Show(Clean(spath)) + [SEP], Show(Clean(dpath)) + [SEP];
    CleanedRoot(cwd, spath);
    CleanedRoot(cwd, dpath);
    PlaceIs(cwd, root, target, rel);
    assert Abs(cwd, target) + [] == Abs(cwd, target);
  }

  /** A cleaned path with a separator appended. */
  lemma CleanedRoot(cwd: Path, s: string)
    ensures var root := Show(Clean(s)) + [SEP];
            && EndsInSep(root) && Abs(cwd, root) == Abs(cwd, s)
            && (Spelled(root) || Elements(Clean(root)) == [])
  {
    var c := Clean(s);
    var root := Show(c) + [SEP];
    CleanValid(s);
    CleanAbs(cwd, s);
    ShowRooted(c);
    CleanFront(root, Show(c));
    if Elements(c) == [] {
      assert Show(c) == "." || Show(c) == [SEP];
      EmptyShow(c);
      assert Clean(root) == c;
    } else {
      ComponentsOfShow(c);
      CleanSpelling(c);
      assert Clean(root) == c;
      ElementsPlain(c);
      TextEnd(Elements(c));
    }
    CleanAbs(cwd, root);
  }

  lemma ShowRooted(c: Cleaned)
    requires ValidCleaned(c)
    ensures Show(c) != "" && Rooted(Show(c)) == c.rooted
  {
    if Elements(c) != [] { ComponentsOfShow(c); }
  }

  lemma EmptyShow(c: Cleaned)
    requires ValidCleaned(c) && Elements(c) == []
    ensures CleanParts(Cleaned(c.rooted, 0, []), Components(Show(c))) == c
  {
    NoElements(c);
    if c.rooted {
      SepComponents();
      CleanEmpties(c);
    } else {
      ComponentsPlain(".");
      CleanDot(c);
    }
  }

  lemma NoElements(c: Cleaned)
    requires ValidCleaned(c) && Elements(c) == []
    ensures c == Cleaned(c.rooted, 0, [])
  {
    UpsPlain(c.ups);
    assert |Elements(c)| == c.ups + |c.names|;
  }

  lemma SepComponents()
    ensures Components([SEP]) == ["", ""]
  {
    RootedComponents("");
    assert [SEP] + "" == [SEP];
  }

  lemma CleanEmpties(c: Cleaned)
    ensures CleanParts(c, ["", ""]) == c
  {
    CleanSnoc(c, [], "");
    CleanSnoc(c, [""], "");
    assert [] + [""] == [""] && [""] + [""] == ["", ""];
  }

  lemma CleanDot(c: Cleaned)
    ensures CleanParts(c, ["."]) == c
  {
    CleanSnoc(c, [], ".");
    assert [] + ["."] == ["."];
  }
}
