/** File systems as maps from paths to nodes, and what comparing and copying trees means on them. */
module FileTreeSpec {
  import opened Bytes
  import opened Paths

  datatype Node = Dir | File(data: seq<byte>)

  type Tree = map<Path, Node>

  datatype Err = None | NotExist | NotDir | IsDir

  function Parent(p: Path): Path
    requires p != []
  {
    p[..|p| - 1]
  }

  predicate HasDir(fs: Tree, p: Path) {
    p in fs && fs[p].Dir?
  }

  /** The root is a directory and so is the parent of everything else. */
  ghost predicate WellFormed(fs: Tree) {
    HasDir(fs, []) && forall p :: p in fs && p != [] ==> HasDir(fs, Parent(p))
  }

  /** Why a path cannot be opened: it is missing, or it leads through a regular file. */
  function OpenErr(fs: Tree, p: Path): (e: Err)
    ensures e == None <==> p in fs
    ensures e != IsDir
  {
    if p in fs then None
    else if p == [] then NotExist
    else if Parent(p) in fs then (if fs[Parent(p)].Dir? then NotExist else NotDir)
    else OpenErr(fs, Parent(p))
  }

  /** The same for a path with a separator at its end, which only a directory can be opened under. */
  function OpenErrAs(fs: Tree, p: Path, slash: bool): (e: Err)
    ensures e == None ==> p in fs
    ensures e != IsDir
  {
    if slash && p in fs && fs[p].File? then NotDir else OpenErr(fs, p)
  }

  /** Why something that is not a directory cannot be walked. */
  function NoDirErr(fs: Tree, p: Path): (e: Err)
    requires !HasDir(fs, p)
    ensures e != None
  {
    if p in fs then NotDir else OpenErr(fs, p)
  }

  /** os.MkdirAll: creates the missing directories, or fails on a regular file. */
  function MkdirErr(fs: Tree, p: Path): Err {
    if p in fs then (if fs[p].Dir? then None else NotDir)
    else if p == [] then NotExist
    else MkdirErr(fs, Parent(p))
  }

  function Mkdir(fs: Tree, p: Path): Tree {
    if p in fs || p == [] then fs else Mkdir(fs, Parent(p))[p := Dir]
  }

  /** A directory can be made exactly unless a regular file stands there or above, and that is the error. */
  lemma {:induction false} MkdirErrIs(fs: Tree, p: Path)
    requires WellFormed(fs)
    ensures MkdirErr(fs, p) == if exists q :: q in fs && Above(q, p) && fs[q].File? then NotDir else None
  {
    if p in fs {
      PrefixesPresent(fs, p);
    } else {
      MkdirErrIs(fs, Parent(p));
      forall q ensures Above(q, Parent(p)) <==> Above(q, p) && q != p { AboveParent(q, p); }
    }
  }

  /** `q` is `p` or an ancestor of it. */
  predicate Above(q: Path, p: Path) {
    q <= p
  }

  lemma AboveParent(q: Path, p: Path)
    requires p != []
    ensures Above(q, Parent(p)) <==> Above(q, p) && q != p
  {
    if q <= p && q != p { assert q == p[..|q|] == Parent(p)[..|q|]; }
  }

  lemma AboveTotal(a: Path, b: Path, p: Path)
    requires Above(a, p) && Above(b, p) && |a| <= |b|
    ensures Above(a, b)
  {
    assert a == p[..|a|] && b == p[..|b|];
  }

  lemma AboveTrans(a: Path, b: Path, p: Path)
    requires Above(a, b) && Above(b, p)
    ensures Above(a, p)
  {
    assert a == b[..|a|] == p[..|a|];
  }

  lemma AboveSame(a: Path, b: Path)
    requires Above(a, b) && |a| == |b|
    ensures a == b
  {}

  /** The path `p` below `src`, moved below `dst`. */
  function Move(p: Path, src: Path, dst: Path): Path
    requires src <= p
  {
    dst + p[|src|..]
  }

  /** Every path of `order` exists and lies below `src`. */
  predicate AllBelow(fs: Tree, src: Path, order: seq<Path>) {
    forall i :: 0 <= i < |order| ==> src <= order[i] && order[i] in fs
  }

  /** What the walk of a directory visits: every path below it once, a directory before its content. */
  ghost predicate WalkOrder(fs: Tree, src: Path, order: seq<Path>) {
    && (forall p :: p in order <==> p in fs && src <= p)
    && (forall i, j :: 0 <= i < j < |order| ==> order[i] != order[j])
    && (forall i, j :: 0 <= i < |order| && 0 <= j < |order| && order[i] != [] && order[j] == Parent(order[i]) ==> j < i)
  }

  /** Every tree can be walked so. */
  lemma WalkExists(fs: Tree, src: Path) returns (order: seq<Path>)
    ensures WalkOrder(fs, src, order)
  {
    order := ParentsFirst(set p | p in fs && src <= p);
  }

  lemma {:induction false} ParentsFirst(paths: set<Path>) returns (order: seq<Path>)
    ensures forall p :: p in order <==> p in paths
    ensures forall i, j :: 0 <= i < j < |order| ==> order[i] != order[j]
    ensures forall i, j :: 0 <= i < |order| && 0 <= j < |order| && order[i] != [] && order[j] == Parent(order[i]) ==>
              j < i
    decreases |paths|
  {
    if paths == {} {
      order := [];
    } else {
      var deepest := Deepest(paths);
      var before := ParentsFirst(paths - {deepest});
      order := before + [deepest];
      forall i | 0 <= i < |order| ensures order[i] in paths {
        if i < |before| { assert before[i] in before; }
      }
    }
  }

  lemma {:induction false} Deepest(paths: set<Path>) returns (p: Path)
    requires paths != {}
    ensures p in paths && forall q :: q in paths ==> |q| <= |p|
    decreases |paths|
  {
    p :| p in paths;
    if q :| q in paths && |q| > |p| {
      var d := Deepest(paths - {p});
      p := d;
    }
  }

  /** A call of the comparison's handler: whether the path is missing in the target, and the path below the source. */
  datatype Call = Call(add: bool, base: Path)

  /** What is reported for one source path. */
  function Report(fs: Tree, src: Path, dst: Path, p: Path): seq<Call>
    requires src <= p && p in fs
  {
    var t := Move(p, src, dst);
    if t !in fs then [Call(true, p[|src|..])]
    else if fs[t] != fs[p] then [Call(false, p[|src|..])]
    else []
  }

  function Reports(fs: Tree, src: Path, dst: Path, order: seq<Path>): seq<Call>
    requires AllBelow(fs, src, order)
  {
    if order == [] then []
    else Reports(fs, src, dst, order[..|order| - 1]) + Report(fs, src, dst, order[|order| - 1])
  }

  /** Every call reports a missing or different path, every such path is reported, and none is reported twice. */
  lemma {:induction false} ReportsExactly(fs: Tree, src: Path, dst: Path, order: seq<Path>)
    requires AllBelow(fs, src, order)
    requires forall i, j :: 0 <= i < j < |order| ==> order[i] != order[j]
    ensures forall c :: c in Reports(fs, src, dst, order) <==>
              && src + c.base in order
              && (if c.add then dst + c.base !in fs else dst + c.base in fs && fs[dst + c.base] != fs[src + c.base])
    ensures forall i, j :: 0 <= i < j < |Reports(fs, src, dst, order)| ==>
              Reports(fs, src, dst, order)[i].base != Reports(fs, src, dst, order)[j].base
  {
    if order != [] {
      var n := |order| - 1;
      var p, before := order[n], order[..n];
      ReportsExactly(fs, src, dst, before);
      assert order == before + [p];
      assert p !in before;
      assert src + p[|src|..] == p;
      forall c ensures c in Report(fs, src, dst, p) <==>
                && src + c.base == p
                && (if c.add then dst + c.base !in fs else dst + c.base in fs && fs[dst + c.base] != fs[src + c.base])
      {
        if src + c.base == p { assert c.base == p[|src|..]; }
      }
    }
  }

  lemma ReportStep(fs: Tree, src: Path, dst: Path, order: seq<Path>, i: nat)
    requires AllBelow(fs, src, order) && i < |order|
    ensures Reports(fs, src, dst, order[..i + 1]) == Reports(fs, src, dst, order[..i]) + Report(fs, src, dst, order[i])
  {
    assert order[..i + 1][..i] == order[..i];
  }

  /** Of two reports the one whose path the walk visits first comes first. */
  lemma {:induction false} ReportsInOrder(fs: Tree, src: Path, dst: Path, order: seq<Path>, i: nat, j: nat,
                                          a: nat, b: nat)
    requires AllBelow(fs, src, order) && forall k, l :: 0 <= k < l < |order| ==> order[k] != order[l]
    requires i < j < |Reports(fs, src, dst, order)| && a < |order| && b < |order|
    requires order[a] == src + Reports(fs, src, dst, order)[i].base
    requires order[b] == src + Reports(fs, src, dst, order)[j].base
    ensures a < b
  {
    var n := |order| - 1;
    assert Reports(fs, src, dst, order) == Reports(fs, src, dst, order[..n]) + Report(fs, src, dst, order[n]);
    ReportedBefore(fs, src, dst, order, i, a);
    if j < |Reports(fs, src, dst, order[..n])| {
      ReportedBefore(fs, src, dst, order, j, b);
      ReportsInOrder(fs, src, dst, order[..n], i, j, a, b);
    } else {
      assert src + order[n][|src|..] == order[n];
    }
  }

  /** What is reported before the last path comes to its turn has been visited before it. */
  lemma ReportedBefore(fs: Tree, src: Path, dst: Path, order: seq<Path>, i: nat, a: nat)
    requires order != [] && AllBelow(fs, src, order) && forall k, l :: 0 <= k < l < |order| ==> order[k] != order[l]
    requires i < |Reports(fs, src, dst, order[..|order| - 1])| && a < |order|
    requires order[a] == src + Reports(fs, src, dst, order[..|order| - 1])[i].base
    ensures a < |order| - 1
  {
    var front := order[..|order| - 1];
    ReportsExactly(fs, src, dst, front);
    assert Reports(fs, src, dst, front)[i] in Reports(fs, src, dst, front);
    assert order[a] in front;
  }

  /** Nothing is reported exactly when the target holds every source path with the same node. */
  lemma {:induction false} CleanIff(fs: Tree, src: Path, dst: Path, order: seq<Path>)
    requires AllBelow(fs, src, order)
    ensures Reports(fs, src, dst, order) == [] <==>
            forall i :: 0 <= i < |order| ==>
              Move(order[i], src, dst) in fs && fs[Move(order[i], src, dst)] == fs[order[i]]
  {
    if order != [] {
      var n := |order| - 1;
      CleanIff(fs, src, dst, order[..n]);
      assert order == order[..n] + [order[n]];
    }
  }

  /**
   Why a source path's place in the target cannot be opened; the target itself is opened with a
   separator at its end.
   */
  function TargetErr(fs: Tree, src: Path, dst: Path, p: Path): Err
    requires src <= p
  {
    OpenErrAs(fs, Move(p, src, dst), p == src)
  }

  /** Some source path cannot even be looked up in the target, for a regular file stands in the way. */
  ghost predicate Obstructed(fs: Tree, src: Path, dst: Path) {
    exists p :: p in fs && src <= p && TargetErr(fs, src, dst, p) == NotDir
  }

  /** The places of the first `n` paths can be looked up. */
  ghost predicate AllOpen(fs: Tree, src: Path, dst: Path, order: seq<Path>, n: nat)
    requires AllBelow(fs, src, order) && n <= |order|
  {
    forall k :: 0 <= k < n ==> TargetErr(fs, src, dst, order[k]) != NotDir
  }

  lemma AllOpenIff(fs: Tree, src: Path, dst: Path, order: seq<Path>)
    requires WalkOrder(fs, src, order) && AllBelow(fs, src, order)
    ensures AllOpen(fs, src, dst, order, |order|) <==> !Obstructed(fs, src, dst)
  {
    if AllOpen(fs, src, dst, order, |order|) {
      forall p | p in fs && src <= p ensures TargetErr(fs, src, dst, p) != NotDir { assert p in order; }
    }
  }

  /** The first path of the walk whose place cannot be looked up, if there is one; the search starts at `i`. */
  function FirstClosed(fs: Tree, src: Path, dst: Path, order: seq<Path>, i: nat): (r: nat)
    requires AllBelow(fs, src, order) && i <= |order|
    ensures i <= r <= |order|
    ensures forall k :: i <= k < r ==> TargetErr(fs, src, dst, order[k]) != NotDir
    ensures r < |order| ==> TargetErr(fs, src, dst, order[r]) == NotDir
    decreases |order| - i
  {
    if i == |order| || TargetErr(fs, src, dst, order[i]) == NotDir then i else FirstClosed(fs, src, dst, order, i + 1)
  }

  /** Where a search stops that comes to `i`. */
  lemma FirstClosedIs(fs: Tree, src: Path, dst: Path, order: seq<Path>, i: nat)
    requires AllBelow(fs, src, order) && i <= |order| && AllOpen(fs, src, dst, order, i)
    requires i == |order| || TargetErr(fs, src, dst, order[i]) == NotDir
    ensures FirstClosed(fs, src, dst, order, 0) == i
  {}

  /** `p` lies below `src` in the tree. */
  predicate Child(fs: Tree, src: Path, p: Path) {
    p in fs && src <= p && p != src
  }

  /** Neither the target nor a place below `base` where something of the source goes lies in the source. */
  ghost predicate Apart(fs: Tree, src: Path, dst: Path, base: Path) {
    && !(src <= dst)
    && forall p :: Child(fs, src, p) ==> !(src <= Move(p, src, base))
  }

  /** What goes below `base` does not go into the source, so the base itself does not lie there. */
  lemma ApartPlace(fs: Tree, src: Path, dst: Path, base: Path, p: Path)
    requires Apart(fs, src, dst, base) && Child(fs, src, p)
    ensures !(src <= Move(p, src, base)) && !(src <= base)
  {
    MoveBelow(src, src, base, p);
  }

  lemma MoveBelow(a: Path, src: Path, base: Path, p: Path)
    requires src <= p
    ensures a <= base ==> a <= Move(p, src, base)
  {}

  lemma MoveInjective(p: Path, q: Path, src: Path, dst: Path)
    requires src <= p && src <= q && Move(p, src, dst) == Move(q, src, dst)
    ensures p == q
  {
    assert Move(p, src, dst)[|dst|..] == p[|src|..] && Move(q, src, dst)[|dst|..] == q[|src|..];
    assert p == src + p[|src|..] && q == src + q[|src|..];
  }

  /** The nodes at the paths of `order`, put below `dst`. */
  function Graft(fs: Tree, from: Tree, src: Path, dst: Path, order: seq<Path>): Tree
    requires AllBelow(from, src, order)
  {
    if order == [] then fs
    else
      var p := order[|order| - 1];
      Graft(fs, from, src, dst, order[..|order| - 1])[Move(p, src, dst) := from[p]]
  }

  /** A graft has the grafted nodes at their places and changes nothing else. */
  lemma {:induction false} GraftAt(fs: Tree, from: Tree, src: Path, dst: Path, order: seq<Path>)
    requires AllBelow(from, src, order)
    ensures var g := Graft(fs, from, src, dst, order);
            && (forall i :: 0 <= i < |order| ==>
                  Move(order[i], src, dst) in g && g[Move(order[i], src, dst)] == from[order[i]])
            && (forall t :: (forall i :: 0 <= i < |order| ==> Move(order[i], src, dst) != t) ==>
                  (t in g <==> t in fs) && (t in fs ==> g[t] == fs[t]))
  {
    if order != [] {
      var n := |order| - 1;
      var p, before := order[n], order[..n];
      GraftAt(fs, from, src, dst, before);
      assert order == before + [p];
      var g, h := Graft(fs, from, src, dst, order), Graft(fs, from, src, dst, before);
      forall i | 0 <= i < |order|
        ensures Move(order[i], src, dst) in g && g[Move(order[i], src, dst)] == from[order[i]]
      {
        if Move(order[i], src, dst) == Move(p, src, dst) { MoveInjective(p, order[i], src, dst); }
        if i < n { assert order[i] == before[i]; }
      }
      forall t | forall i :: 0 <= i < |order| ==> Move(order[i], src, dst) != t
        ensures (t in g <==> t in fs) && (t in fs ==> g[t] == fs[t])
      {
        assert Move(order[n], src, dst) != t;
        forall i | 0 <= i < n ensures Move(before[i], src, dst) != t { assert before[i] == order[i]; }
      }
    }
  }

  lemma {:induction false} MkdirAt(fs: Tree, p: Path)
    requires WellFormed(fs) && MkdirErr(fs, p) == None
    ensures HasDir(Mkdir(fs, p), p) && WellFormed(Mkdir(fs, p))
    ensures forall q :: q in Mkdir(fs, p) <==> q in fs || Above(q, p)
    ensures forall q :: q in fs ==> Mkdir(fs, p)[q] == fs[q]
    ensures forall q :: q in Mkdir(fs, p) && q !in fs ==> Mkdir(fs, p)[q] == Dir
  {
    if p in fs {
      PrefixesPresent(fs, p);
    } else {
      var up := Parent(p);
      MkdirAt(fs, up);
      forall q ensures Above(q, up) <==> Above(q, p) && q != p { AboveParent(q, p); }
    }
  }

  lemma {:induction false} PrefixesPresent(fs: Tree, p: Path)
    requires WellFormed(fs) && p in fs
    ensures forall q :: Above(q, p) ==> q in fs && (q != p ==> fs[q].Dir?)
  {
    if p != [] {
      PrefixesPresent(fs, Parent(p));
      forall q ensures Above(q, Parent(p)) <==> Above(q, p) && q != p { AboveParent(q, p); }
    }
  }

  lemma {:induction false} OpenErrIs(fs: Tree, p: Path)
    requires WellFormed(fs) && p !in fs
    ensures OpenErr(fs, p) == NotDir <==> exists q :: q in fs && Above(q, p) && fs[q].File?
    ensures OpenErr(fs, p) == NotExist <==> OpenErr(fs, p) != NotDir
  {
    var up := Parent(p);
    forall q ensures Above(q, up) <==> Above(q, p) && q != p { AboveParent(q, p); }
    if up in fs {
      PrefixesPresent(fs, up);
    } else {
      OpenErrIs(fs, up);
    }
  }

  /** A regular file is the target or lies above it, or stands where a non-empty source directory has to go on. */
  ghost predicate FileInTheWay(fs: Tree, src: Path, dst: Path) {
    || (exists q :: q in fs && Above(q, dst) && fs[q].File?)
    || (exists p :: p in fs && src <= p && p != src && FileFaces(fs, src, dst, p))
  }

  /** The target of `p`'s directory is a regular file. */
  predicate FileFaces(fs: Tree, src: Path, dst: Path, p: Path)
    requires src <= p && p != src
  {
    var t := dst + Parent(p)[|src|..];
    t in fs && fs[t].File?
  }

  /**
   The comparison is obstructed exactly when a file is or lies above the target, or faces a non-empty
   source directory.
   */
  lemma ObstructedIff(fs: Tree, src: Path, dst: Path)
    requires WellFormed(fs) && src in fs
    ensures Obstructed(fs, src, dst) <==> FileInTheWay(fs, src, dst)
  {
    if Obstructed(fs, src, dst) {
      var p :| p in fs && src <= p && TargetErr(fs, src, dst, p) == NotDir;
      var t := Move(p, src, dst);
      if t in fs {
        assert t == dst && Above(t, dst);
      } else {
        OpenErrIs(fs, t);
        var q :| q in fs && Above(q, t) && fs[q].File?;
        FoundInTheWay(fs, src, dst, p, q);
      }
    }
    if FileInTheWay(fs, src, dst) { InTheWayObstructs(fs, src, dst); }
  }

  lemma InTheWayObstructs(fs: Tree, src: Path, dst: Path)
    requires WellFormed(fs) && src in fs && FileInTheWay(fs, src, dst)
    ensures Obstructed(fs, src, dst)
  {
    if q :| q in fs && Above(q, dst) && fs[q].File? {
      assert Move(src, src, dst) == dst;
      if q != dst { BelowFile(fs, dst, q); }
    } else {
      var p :| p in fs && src <= p && p != src && FileFaces(fs, src, dst, p);
      MoveParent(p, src, dst);
      BelowFile(fs, Move(p, src, dst), Parent(Move(p, src, dst)));
    }
  }

  /** An empty source directory compared with a regular file: one difference, but the walk fails before reporting it. */
  lemma FileAsTargetObstructs()
    ensures var fs: Tree := map[[] := Dir, ["s"] := Dir, ["d"] := File([])];
            && WellFormed(fs) && WalkOrder(fs, ["s"], [["s"]])
            && Reports(fs, ["s"], ["d"], [["s"]]) == [Call(false, [])]
            && Obstructed(fs, ["s"], ["d"])
  {
    var fs: Tree := map[[] := Dir, ["s"] := Dir, ["d"] := File([])];
    assert Parent(["s"]) == [] && Parent(["d"]) == [];
    assert Move(["s"], ["s"], ["d"]) == ["d"];
    assert Reports(fs, ["s"], ["d"], []) == [] && [["s"]][..0] == [];
    assert ["s"][1..] == [];
    forall p ensures p in [["s"]] <==> p in fs && ["s"] <= p {
      if p in fs && ["s"] <= p { assert p[0] == "s"; }
    }
    assert TargetErr(fs, ["s"], ["d"], ["s"]) == NotDir;
  }

  lemma BelowFile(fs: Tree, p: Path, q: Path)
    requires WellFormed(fs) && q in fs && Above(q, p) && q != p && fs[q].File?
    ensures OpenErr(fs, p) == NotDir
  {
    if p in fs { PrefixesPresent(fs, p); }
    OpenErrIs(fs, p);
  }

  lemma MoveParent(p: Path, src: Path, dst: Path)
    requires src <= p && p != src
    ensures src <= Parent(p) && Move(p, src, dst) != []
    ensures Parent(Move(p, src, dst)) == Move(Parent(p), src, dst) == dst + Parent(p)[|src|..]
  {
    AboveParent(src, p);
    assert Parent(p)[|src|..] == p[|src|..][..|p| - |src| - 1];
  }

  lemma FoundInTheWay(fs: Tree, src: Path, dst: Path, p: Path, q: Path)
    requires WellFormed(fs) && p in fs && src <= p && Move(p, src, dst) !in fs
    requires q in fs && Above(q, Move(p, src, dst)) && fs[q].File?
    ensures FileInTheWay(fs, src, dst)
  {
    var t := Move(p, src, dst);
    if |q| < |dst| {
      assert q == t[..|q|] == dst[..|q|];
    } else {
      var n := |q| - |dst|;
      if |q| == |t| { AboveSame(q, t); }
      var child := p[..|src| + n + 1];
      PrefixesPresent(fs, p);
      assert Above(child, p) && src <= child;
      assert Parent(child)[|src|..] == p[|src|..][..n];
      assert q == t[..|q|] == dst + p[|src|..][..n];
    }
  }

  lemma WalkBelow(fs: Tree, src: Path, order: seq<Path>)
    requires WalkOrder(fs, src, order)
    ensures AllBelow(fs, src, order)
  {
    forall i | 0 <= i < |order| ensures src <= order[i] && order[i] in fs { assert order[i] in order; }
  }

  /** Every call is about a path below `src`. */
  predicate CallsIn(from: Tree, src: Path, calls: seq<Call>) {
    forall i :: 0 <= i < |calls| ==> src + calls[i].base in from
  }

  /** The target with every reported node put in its place. */
  function Overlay(fs: Tree, from: Tree, src: Path, dst: Path, calls: seq<Call>): Tree
    requires CallsIn(from, src, calls)
  {
    if calls == [] then fs
    else
      var c := calls[|calls| - 1];
      Overlay(fs, from, src, dst, calls[..|calls| - 1])[dst + c.base := from[src + c.base]]
  }

  lemma {:induction false} OverlayAt(fs: Tree, from: Tree, src: Path, dst: Path, calls: seq<Call>)
    requires CallsIn(from, src, calls)
    ensures var g := Overlay(fs, from, src, dst, calls);
            && (forall i :: 0 <= i < |calls| ==>
                  dst + calls[i].base in g && g[dst + calls[i].base] == from[src + calls[i].base])
            && (forall t :: (forall i :: 0 <= i < |calls| ==> dst + calls[i].base != t) ==>
                  (t in g <==> t in fs) && (t in fs ==> g[t] == fs[t]))
  {
    if calls != [] {
      var n := |calls| - 1;
      var before := calls[..n];
      OverlayAt(fs, from, src, dst, before);
      var g := Overlay(fs, from, src, dst, calls);
      forall i | 0 <= i < |calls|
        ensures dst + calls[i].base in g && g[dst + calls[i].base] == from[src + calls[i].base]
      {
        if i < n { assert calls[i] == before[i]; }
        if dst + calls[i].base == dst + calls[n].base { AppendCancel(dst, calls[i].base, calls[n].base); }
      }
      forall t | forall i :: 0 <= i < |calls| ==> dst + calls[i].base != t
        ensures (t in g <==> t in fs) && (t in fs ==> g[t] == fs[t])
      {
        assert dst + calls[n].base != t;
        forall i | 0 <= i < n ensures dst + before[i].base != t { assert before[i] == calls[i]; }
      }
    }
  }

  lemma AppendCancel(a: Path, b: Path, c: Path)
    requires a + b == a + c
    ensures b == c
  {
    assert (a + b)[|a|..] == b && (a + c)[|a|..] == c;
  }

  ghost predicate Reported(calls: seq<Call>, base: Path) {
    exists c :: c in calls && c.base == base
  }

  /** A source path is reported exactly when the target has not the same node. */
  lemma ReportedIff(fs: Tree, src: Path, dst: Path, order: seq<Path>, p: Path)
    requires AllBelow(fs, src, order) && src <= p && p in order && p in fs
    requires forall i, j :: 0 <= i < j < |order| ==> order[i] != order[j]
    ensures Reported(Reports(fs, src, dst, order), p[|src|..]) <==>
            !(Move(p, src, dst) in fs && fs[Move(p, src, dst)] == fs[p])
  {
    var calls, base := Reports(fs, src, dst, order), p[|src|..];
    ReportsExactly(fs, src, dst, order);
    assert src + base == p && dst + base == Move(p, src, dst);
    assert Call(true, base) in calls <==> dst + base !in fs;
    assert Call(false, base) in calls <==> dst + base in fs && fs[dst + base] != fs[p];
  }

  lemma OverlayPlace(fs: Tree, src: Path, dst: Path, calls: seq<Call>, base: Path)
    requires CallsIn(fs, src, calls)
    requires src + base in fs
    requires Reported(calls, base) || (dst + base in fs && fs[dst + base] == fs[src + base])
    ensures var g := Overlay(fs, fs, src, dst, calls);
            dst + base in g && g[dst + base] == fs[src + base]
  {
    OverlayAt(fs, fs, src, dst, calls);
    if Reported(calls, base) {
      var c :| c in calls && c.base == base;
      var k :| 0 <= k < |calls| && calls[k] == c;
    } else {
      forall k | 0 <= k < |calls| ensures dst + calls[k].base != dst + base {
        assert calls[k] in calls;
        if dst + calls[k].base == dst + base { AppendCancel(dst, calls[k].base, base); }
      }
    }
  }

  /** The overlay of the differences between source and target. */
  ghost function Overlaid(fs: Tree, src: Path, dst: Path, order: seq<Path>): Tree
    requires AllBelow(fs, src, order) && Distinct(order)
  {
    CallsExist(fs, src, dst, order);
    Overlay(fs, fs, src, dst, Reports(fs, src, dst, order))
  }

  predicate Distinct(order: seq<Path>) {
    forall i, j :: 0 <= i < j < |order| ==> order[i] != order[j]
  }

  lemma CallsExist(fs: Tree, src: Path, dst: Path, order: seq<Path>)
    requires AllBelow(fs, src, order) && Distinct(order)
    ensures CallsIn(fs, src, Reports(fs, src, dst, order))
  {
    var calls := Reports(fs, src, dst, order);
    ReportsExactly(fs, src, dst, order);
    forall i | 0 <= i < |calls| ensures src + calls[i].base in fs { assert calls[i] in calls; }
  }

  /** The overlay holds the source's node at the place of every source path. */
  lemma OverlaidNode(fs: Tree, src: Path, dst: Path, order: seq<Path>, p: Path)
    requires AllBelow(fs, src, order) && Distinct(order) && p in order && src <= p && p in fs
    ensures var g, t := Overlaid(fs, src, dst, order), Move(p, src, dst); t in g && g[t] == fs[p]
  {
    var base := p[|src|..];
    ReportedIff(fs, src, dst, order, p);
    assert src + base == p;
    CallsExist(fs, src, dst, order);
    OverlayPlace(fs, src, dst, Reports(fs, src, dst, order), base);
  }

  /** The overlay is as the target was everywhere else. */
  lemma OverlaidElsewhere(fs: Tree, src: Path, dst: Path, order: seq<Path>, t: Path)
    requires AllBelow(fs, src, order) && Distinct(order)
    requires dst <= t ==> Move(t, dst, src) !in fs
    ensures var g := Overlaid(fs, src, dst, order); (t in g <==> t in fs) && (t in fs ==> g[t] == fs[t])
  {
    var calls := Reports(fs, src, dst, order);
    CallsExist(fs, src, dst, order);
    OverlayAt(fs, fs, src, dst, calls);
    forall i | 0 <= i < |calls| ensures dst + calls[i].base != t {
      MoveAppended(calls[i].base, src, dst);
    }
  }

  /** `q` would hang below a file: its directory in the target is to be replaced by a file of the source. */
  predicate LosesDirectory(fs: Tree, src: Path, dst: Path, q: Path) {
    && q != [] && dst <= Parent(q)
    && var p := Move(Parent(q), dst, src);
       p in fs && fs[p].File?
  }

  /** The target can be put where it is, and no file of the source takes the place of a non-empty directory. */
  ghost predicate OverlayFits(fs: Tree, src: Path, dst: Path) {
    && (if dst == [] then HasDir(fs, src) else HasDir(fs, Parent(dst)))
    && forall q :: q in fs ==> !LosesDirectory(fs, src, dst, q)
  }

  /** The overlay is a tree exactly when it fits. */
  lemma {:induction false} OverlaidWellFormedIff(fs: Tree, src: Path, dst: Path, order: seq<Path>)
    requires WellFormed(fs) && src in fs && WalkOrder(fs, src, order) && AllBelow(fs, src, order)
    ensures WellFormed(Overlaid(fs, src, dst, order)) <==> OverlayFits(fs, src, dst)
  {
    var g := Overlaid(fs, src, dst, order);
    if OverlayFits(fs, src, dst) {
      OverlaidRoot(fs, src, dst, order);
      forall q | q in g && q != [] ensures HasDir(g, Parent(q)) {
        if dst <= q && Move(q, dst, src) in fs {
          PlacedHasDir(fs, src, dst, order, q);
        } else {
          OverlaidElsewhere(fs, src, dst, order, q);
          KeptHasDir(fs, src, dst, order, q);
        }
      }
    } else if WellFormed(g) {
      MisfitHasNoDir(fs, src, dst, order);
    }
  }

  lemma OverlaidRoot(fs: Tree, src: Path, dst: Path, order: seq<Path>)
    requires WellFormed(fs) && src in fs && WalkOrder(fs, src, order) && AllBelow(fs, src, order)
    ensures HasDir(Overlaid(fs, src, dst, order), []) <==> (dst == [] ==> HasDir(fs, src))
  {
    if dst == [] {
      OverlaidNode(fs, src, dst, order, src);
      assert Move(src, src, dst) == [];
    } else {
      OverlaidElsewhere(fs, src, dst, order, []);
    }
  }

  lemma MoveAppended(base: Path, src: Path, dst: Path)
    ensures dst <= dst + base && Move(dst + base, dst, src) == src + base
  {
    assert (dst + base)[|dst|..] == base;
  }

  lemma MoveBack(t: Path, src: Path, dst: Path)
    requires dst <= t
    ensures src <= Move(t, dst, src) && Move(Move(t, dst, src), src, dst) == t
  {
    assert (src + t[|dst|..])[|src|..] == t[|dst|..] && dst + t[|dst|..] == t;
  }

  /** What is put in place has its directory: the target's own, or that of the source. */
  lemma PlacedHasDir(fs: Tree, src: Path, dst: Path, order: seq<Path>, q: Path)
    requires WellFormed(fs) && src in fs && WalkOrder(fs, src, order) && AllBelow(fs, src, order)
    requires q != [] && dst <= q && Move(q, dst, src) in fs && (dst != [] ==> HasDir(fs, Parent(dst)))
    ensures HasDir(Overlaid(fs, src, dst, order), Parent(q))
  {
    var p := Move(q, dst, src);
    MoveBack(q, src, dst);
    if p == src {
      assert q == dst;
      OverlaidElsewhere(fs, src, dst, order, Parent(dst));
    } else {
      AboveParent(src, p);
      MoveParent(p, src, dst);
      OverlaidNode(fs, src, dst, order, Parent(p));
    }
  }

  /** What stays keeps its directory. */
  lemma KeptHasDir(fs: Tree, src: Path, dst: Path, order: seq<Path>, q: Path)
    requires WellFormed(fs) && WalkOrder(fs, src, order) && AllBelow(fs, src, order)
    requires q in fs && q != [] && !LosesDirectory(fs, src, dst, q)
    ensures HasDir(Overlaid(fs, src, dst, order), Parent(q))
  {
    var up := Parent(q);
    if dst <= up && Move(up, dst, src) in fs {
      MoveBack(up, src, dst);
      OverlaidNode(fs, src, dst, order, Move(up, dst, src));
    } else {
      OverlaidElsewhere(fs, src, dst, order, up);
    }
  }

  lemma MisfitHasNoDir(fs: Tree, src: Path, dst: Path, order: seq<Path>)
    requires WellFormed(fs) && src in fs && WalkOrder(fs, src, order) && AllBelow(fs, src, order)
    requires WellFormed(Overlaid(fs, src, dst, order))
    ensures OverlayFits(fs, src, dst)
  {
    var g := Overlaid(fs, src, dst, order);
    OverlaidRoot(fs, src, dst, order);
    OverlaidNode(fs, src, dst, order, src);
    assert Move(src, src, dst) == dst;
    if dst != [] { OverlaidElsewhere(fs, src, dst, order, Parent(dst)); }
    forall q | q in fs ensures !LosesDirectory(fs, src, dst, q) {
      if LosesDirectory(fs, src, dst, q) {
        MoveBack(Parent(q), src, dst);
        OverlaidNode(fs, src, dst, order, Move(Parent(q), dst, src));
        OverlaidKeeps(fs, src, dst, order, q);
      }
    }
  }

  /** Nothing disappears. */
  lemma OverlaidKeeps(fs: Tree, src: Path, dst: Path, order: seq<Path>, q: Path)
    requires WalkOrder(fs, src, order) && AllBelow(fs, src, order) && q in fs
    ensures q in Overlaid(fs, src, dst, order)
  {
    if dst <= q && Move(q, dst, src) in fs {
      MoveBack(q, src, dst);
      OverlaidNode(fs, src, dst, order, Move(q, dst, src));
    } else {
      OverlaidElsewhere(fs, src, dst, order, q);
    }
  }

  lemma MoveToRoot(t: Path, dst: Path, src: Path)
    requires dst <= t
    ensures Move(t, dst, src) == src <==> t == dst
  {
    if Move(t, dst, src) == src { assert |t| == |dst|; }
  }

  /** Nothing goes to a path of the source. */
  lemma NotAPlace(fs: Tree, src: Path, dst: Path, t: Path)
    requires Apart(fs, src, dst, dst) && src <= t && dst <= t
    ensures Move(t, dst, src) !in fs
  {
    var q := Move(t, dst, src);
    MoveBack(t, src, dst);
    MoveToRoot(t, dst, src);
    if Child(fs, src, q) { ApartPlace(fs, src, dst, dst, q); }
  }

  /**
   A second comparison, with the reported nodes in place, walks the same paths, meets no obstruction
   and reports nothing.
   */
  lemma OverlayIsClean(fs: Tree, src: Path, dst: Path, order: seq<Path>)
    requires HasDir(fs, src) && Apart(fs, src, dst, dst) && WalkOrder(fs, src, order) && AllBelow(fs, src, order)
    ensures var g := Overlaid(fs, src, dst, order);
            && HasDir(g, src) && WalkOrder(g, src, order) && AllBelow(g, src, order)
            && !Obstructed(g, src, dst) && Reports(g, src, dst, order) == []
  {
    var g := Overlaid(fs, src, dst, order);
    forall p | src <= p ensures (p in g <==> p in fs) && (p in fs ==> g[p] == fs[p]) {
      if dst <= p { NotAPlace(fs, src, dst, p); }
      OverlaidElsewhere(fs, src, dst, order, p);
    }
    forall i | 0 <= i < |order|
      ensures Move(order[i], src, dst) in g && g[Move(order[i], src, dst)] == fs[order[i]]
    {
      OverlaidNode(fs, src, dst, order, order[i]);
    }
    CleanIff(g, src, dst, order);
    forall p | p in g && src <= p ensures TargetErr(g, src, dst, p) != NotDir { OverlaidNode(fs, src, dst, order, p); }
  }
}
