/** What copying a tree does to a file system, wherever the copies land. */
module CopyTree {
  import opened Paths
  import opened FileTreeSpec

  lemma PutWellFormed(fs: Tree, p: Path, n: Node)
    requires WellFormed(fs) && (if p in fs then fs[p].Dir? ==> n.Dir? else HasDir(fs, Parent(p)))
    ensures WellFormed(fs[p := n])
  {}

  /** A path is merely missing exactly when its directory can be made. */
  lemma {:induction false} MissingParent(fs: Tree, p: Path)
    requires WellFormed(fs) && p !in fs
    ensures OpenErr(fs, p) == NotExist <==> MkdirErr(fs, Parent(p)) == None
  {
    if Parent(p) !in fs { MissingParent(fs, Parent(p)); }
  }

  /** Copying to `t` makes the missing directories above it; only a directory can go to the root, which is one. */
  function Put(fs: Tree, t: Path, n: Node): Tree {
    if t == [] then fs else Mkdir(fs, Parent(t))[t := n]
  }

  /** The target and the directory for the copies are there. */
  function Prepared(fs: Tree, dst: Path, base: Path): Tree {
    Mkdir(Mkdir(fs, dst), base)
  }

  /** The target of `p` is missing or of the same kind. */
  predicate SameKind(m: Tree, fs: Tree, src: Path, base: Path, p: Path)
    requires src <= p && p in fs
  {
    var t := Move(p, src, base);
    t in m ==> (m[t].Dir? <==> fs[p].Dir?)
  }

  /**
   The tree `src` can be copied to `dst`, with its content landing below `base`: no regular file is met
   where a directory is needed, nor the other way round. An empty source needs no `base`.
   */
  ghost predicate Compatible(fs: Tree, src: Path, dst: Path, base: Path) {
    && HasDir(fs, src) && MkdirErr(fs, dst) == None
    && forall p :: Child(fs, src, p) ==>
         MkdirErr(Mkdir(fs, dst), base) == None && SameKind(Prepared(fs, dst, base), fs, src, base, p)
  }

  /** The tree after a successful copy. */
  function Copied(fs: Tree, src: Path, dst: Path, base: Path, order: seq<Path>): Tree
    requires AllBelow(fs, src, order)
  {
    if |order| <= 1 then Mkdir(fs, dst) else Graft(Prepared(fs, dst, base), fs, src, base, order[1..])
  }

  /** A walk that can be copied from: the source is a directory, apart from where the copies go. */
  ghost predicate Walkable(fs: Tree, src: Path, dst: Path, base: Path, order: seq<Path>) {
    && WellFormed(fs) && HasDir(fs, src) && Apart(fs, src, dst, base)
    && WalkOrder(fs, src, order) && AllBelow(fs, src, order) && MkdirErr(fs, dst) == None
  }

  /** The walk has visited the directory of a path before the path. */
  lemma ParentEarlier(fs: Tree, src: Path, order: seq<Path>, i: nat) returns (j: nat)
    requires WellFormed(fs) && WalkOrder(fs, src, order) && AllBelow(fs, src, order) && i < |order| && order[i] != src
    ensures j < i && order[j] == Parent(order[i]) && src <= order[j] && HasDir(fs, order[j])
  {
    AboveParent(src, order[i]);
    assert Parent(order[i]) in order;
    j :| 0 <= j < |order| && order[j] == Parent(order[i]);
  }

  /** The walk starts with the source and then visits what is below it. */
  lemma WalkHead(fs: Tree, src: Path, order: seq<Path>)
    requires WellFormed(fs) && src in fs && WalkOrder(fs, src, order) && AllBelow(fs, src, order)
    ensures order != [] && order[0] == src
    ensures forall i :: 1 <= i < |order| ==> Child(fs, src, order[i])
    ensures AllBelow(fs, src, order[1..])
  {
    assert src in order;
    if order[0] != src {
      var j := ParentEarlier(fs, src, order, 0);
    }
  }

  /** The prepared tree: nothing new but the directories on the way to `dst` and `base`. */
  lemma PreparedAt(fs: Tree, dst: Path, base: Path)
    requires WellFormed(fs) && MkdirErr(fs, dst) == None && MkdirErr(Mkdir(fs, dst), base) == None
    ensures var m := Prepared(fs, dst, base);
            && WellFormed(m) && HasDir(m, dst) && HasDir(m, base)
            && (forall t :: t in m <==> t in fs || Above(t, dst) || Above(t, base))
            && (forall t :: t in fs ==> m[t] == fs[t])
            && (forall t :: t in m && t !in fs ==> m[t] == Dir)
  {
    MkdirAt(fs, dst);
    MkdirAt(Mkdir(fs, dst), base);
  }

  /** What is put below `base` changes nothing in the source. */
  lemma SourceInGraft(fs: Tree, src: Path, dst: Path, base: Path, kids: seq<Path>, p: Path)
    requires WellFormed(fs) && Apart(fs, src, dst, base) && AllBelow(fs, src, kids)
    requires forall i :: 0 <= i < |kids| ==> Child(fs, src, kids[i])
    requires MkdirErr(fs, dst) == None && MkdirErr(Mkdir(fs, dst), base) == None && src <= p && p in fs
    ensures var g := Graft(Prepared(fs, dst, base), fs, src, base, kids); p in g && g[p] == fs[p]
  {
    GraftAt(Prepared(fs, dst, base), fs, src, base, kids);
    PreparedAt(fs, dst, base);
    forall i | 0 <= i < |kids| ensures Move(kids[i], src, base) != p {
      ApartPlace(fs, src, dst, base, kids[i]);
    }
  }

  lemma DeeperIsNotAbove(p: Path, src: Path, base: Path)
    requires src <= p && p != src
    ensures Move(p, src, base) != [] && !Above(Move(p, src, base), base)
  {
    var t := Move(p, src, base);
    assert p == src + p[|src|..];
    if Above(t, base) { AboveSame(base, t); }
  }

  lemma WalkFront(fs: Tree, src: Path, order: seq<Path>, i: nat)
    requires WellFormed(fs) && src in fs && WalkOrder(fs, src, order) && AllBelow(fs, src, order) && 1 <= i <= |order|
    ensures AllBelow(fs, src, order[..i]) && order[..i][1..] == order[1..i] && AllBelow(fs, src, order[1..i])
  {}

  /** What copying one more path of the walk does: it fails, or the copy has grown by it. */
  ghost predicate StepCopies(g: Tree, fs: Tree, src: Path, dst: Path, base: Path, order: seq<Path>, i: nat)
    requires 1 <= i < |order| && AllBelow(fs, src, order) && AllBelow(fs, src, order[..i + 1])
    requires Child(fs, src, order[i])
  {
    var p := order[i];
    var t := Move(p, src, base);
    && p in g && g[p] == fs[p] && p != t
    && (Fits(g, t, fs[p]) <==> KidFits(fs, src, dst, base, p))
    && (Fits(g, t, fs[p]) ==> Put(g, t, fs[p]) == Copied(fs, src, dst, base, order[..i + 1]))
  }

  /** A node can be copied to `t`. */
  predicate Fits(g: Tree, t: Path, n: Node) {
    if t in g then (g[t].Dir? <==> n.Dir?) else t != [] && MkdirErr(g, Parent(t)) == None
  }

  /** Why a node cannot be copied to `t`: a directory is made, a file is opened and written. */
  function PutErr(g: Tree, t: Path, n: Node): Err {
    if n.Dir? then MkdirErr(g, t)
    else if t in g then (if g[t].Dir? then IsDir else None)
    else if OpenErr(g, t) == NotExist then None
    else OpenErr(g, t)
  }

  lemma PutErrFits(g: Tree, t: Path, n: Node)
    requires WellFormed(g)
    ensures PutErr(g, t, n) == None <==> Fits(g, t, n)
  {
    if t !in g { MissingParent(g, t); }
  }

  /** The first path below the source: it is copied into the base, which is made if need be. */
  lemma FirstStep(fs: Tree, src: Path, dst: Path, base: Path, order: seq<Path>)
    requires Walkable(fs, src, dst, base, order) && |order| > 1
    ensures AllBelow(fs, src, order[..2]) && Child(fs, src, order[1])
    ensures StepCopies(Mkdir(fs, dst), fs, src, dst, base, order, 1)
  {
    WalkHead(fs, src, order);
    WalkFront(fs, src, order, 2);
    var p, g := order[1], Mkdir(fs, dst);
    var t := Move(p, src, base);
    MkdirAt(fs, dst);
    ApartPlace(fs, src, dst, base, p);
    DeeperIsNotAbove(p, src, base);
    var j := ParentEarlier(fs, src, order, 1);
    MoveParent(p, src, base);
    assert Parent(t) == base + src[|src|..] == base;
    if MkdirErr(g, base) == None { MkdirAt(g, base); }
    if Fits(g, t, fs[p]) {
      assert order[1..2] == [] + [p];
      GraftMore(Prepared(fs, dst, base), fs, src, base, [], p);
    }
  }

  /** The later ones: the directory they are copied into is there already. */
  lemma LaterStep(fs: Tree, src: Path, dst: Path, base: Path, order: seq<Path>, i: nat)
    requires Walkable(fs, src, dst, base, order) && 1 < i < |order|
    requires MkdirErr(Mkdir(fs, dst), base) == None
    ensures AllBelow(fs, src, order[..i]) && AllBelow(fs, src, order[..i + 1]) && Child(fs, src, order[i])
    ensures StepCopies(Copied(fs, src, dst, base, order[..i]), fs, src, dst, base, order, i)
  {
    WalkHead(fs, src, order);
    WalkFront(fs, src, order, i);
    var p, kids := order[i], order[1..i];
    var t, g := Move(p, src, base), Graft(Prepared(fs, dst, base), fs, src, base, kids);
    SourceInGraft(fs, src, dst, base, kids, p);
    ApartPlace(fs, src, dst, base, p);
    DeeperIsNotAbove(p, src, base);
    NotYetCopied(fs, src, dst, base, order, i);
    ParentCopied(fs, src, dst, base, order, i);
    PutInPlace(g, t, fs[p]);
    CopiedMore(fs, src, dst, base, order, i);
  }

  lemma CopiedMore(fs: Tree, src: Path, dst: Path, base: Path, order: seq<Path>, i: nat)
    requires 1 < i < |order| && AllBelow(fs, src, order)
    ensures AllBelow(fs, src, order[..i]) && AllBelow(fs, src, order[..i + 1])
    ensures Copied(fs, src, dst, base, order[..i + 1]) ==
            Copied(fs, src, dst, base, order[..i])[Move(order[i], src, base) := fs[order[i]]]
  {
    assert order[..i][1..] == order[1..i] && order[..i + 1][1..] == order[1..i] + [order[i]];
    GraftMore(Prepared(fs, dst, base), fs, src, base, order[1..i], order[i]);
  }

  lemma PutInPlace(g: Tree, t: Path, n: Node)
    requires t != [] && HasDir(g, Parent(t))
    ensures Put(g, t, n) == g[t := n]
    ensures Fits(g, t, n) <==> (t in g ==> (g[t].Dir? <==> n.Dir?))
  {}

  lemma GraftMore(m: Tree, from: Tree, src: Path, base: Path, kids: seq<Path>, p: Path)
    requires AllBelow(from, src, kids) && src <= p && p in from
    ensures AllBelow(from, src, kids + [p])
    ensures Graft(m, from, src, base, kids + [p]) == Graft(m, from, src, base, kids)[Move(p, src, base) := from[p]]
  {
    assert (kids + [p])[..|kids|] == kids;
  }

  /** Before its turn, the place of a path is as it was prepared. */
  lemma NotYetCopied(fs: Tree, src: Path, dst: Path, base: Path, order: seq<Path>, i: nat)
    requires WalkOrder(fs, src, order) && AllBelow(fs, src, order) && 1 <= i < |order| && AllBelow(fs, src, order[1..i])
    ensures var m := Prepared(fs, dst, base);
            var t, g := Move(order[i], src, base), Graft(m, fs, src, base, order[1..i]);
            (t in g <==> t in m) && (t in m ==> g[t] == m[t])
  {
    var p, kids := order[i], order[1..i];
    GraftAt(Prepared(fs, dst, base), fs, src, base, kids);
    forall k | 0 <= k < |kids| ensures Move(kids[k], src, base) != Move(p, src, base) {
      assert kids[k] == order[k + 1];
      if Move(kids[k], src, base) == Move(p, src, base) { MoveInjective(kids[k], p, src, base); }
    }
  }

  lemma ParentCopied(fs: Tree, src: Path, dst: Path, base: Path, order: seq<Path>, i: nat)
    requires Walkable(fs, src, dst, base, order) && 1 < i < |order| && AllBelow(fs, src, order[1..i])
    requires MkdirErr(Mkdir(fs, dst), base) == None && order[i] != src
    ensures Move(order[i], src, base) != []
    ensures HasDir(Graft(Prepared(fs, dst, base), fs, src, base, order[1..i]), Parent(Move(order[i], src, base)))
  {
    var p, kids := order[i], order[1..i];
    var j := ParentEarlier(fs, src, order, i);
    MoveParent(p, src, base);
    GraftAt(Prepared(fs, dst, base), fs, src, base, kids);
    if j == 0 {
      WalkHead(fs, src, order);
      PreparedAt(fs, dst, base);
      assert base + src[|src|..] == base;
      forall k | 0 <= k < |kids| ensures Move(kids[k], src, base) != base {
        assert kids[k] == order[k + 1];
        DeeperIsNotAbove(kids[k], src, base);
      }
    } else {
      assert kids[j - 1] == Parent(p);
    }
  }

  /** The `i`-th path of the walk can be copied. */
  ghost predicate KidFits(fs: Tree, src: Path, dst: Path, base: Path, p: Path)
    requires src <= p && p in fs
  {
    MkdirErr(Mkdir(fs, dst), base) == None && SameKind(Prepared(fs, dst, base), fs, src, base, p)
  }

  /** The first `n` paths of the walk can be copied. */
  ghost predicate AllFit(fs: Tree, src: Path, dst: Path, base: Path, order: seq<Path>, n: nat)
    requires AllBelow(fs, src, order) && n <= |order|
  {
    forall k :: 1 <= k < n ==> KidFits(fs, src, dst, base, order[k])
  }

  lemma AllFitStep(fs: Tree, src: Path, dst: Path, base: Path, order: seq<Path>, i: nat)
    requires AllBelow(fs, src, order) && i < |order|
    ensures AllFit(fs, src, dst, base, order, i + 1) <==>
            AllFit(fs, src, dst, base, order, i) && (i == 0 || KidFits(fs, src, dst, base, order[i]))
  {}

  lemma CompatibleIff(fs: Tree, src: Path, dst: Path, base: Path, order: seq<Path>)
    requires Walkable(fs, src, dst, base, order)
    ensures Compatible(fs, src, dst, base) <==> AllFit(fs, src, dst, base, order, |order|)
  {
    WalkHead(fs, src, order);
    if AllFit(fs, src, dst, base, order, |order|) {
      forall p | Child(fs, src, p) ensures KidFits(fs, src, dst, base, p) {
        assert p in order;
        var k :| 0 <= k < |order| && order[k] == p;
      }
    }
  }

  /** The first path of the walk that cannot be copied, if there is one; the search starts at `i`. */
  ghost function FirstMisfit(fs: Tree, src: Path, dst: Path, base: Path, order: seq<Path>, i: nat): (r: nat)
    requires AllBelow(fs, src, order) && i <= |order|
    ensures i <= r <= |order|
    ensures forall k :: i <= k < r && k >= 1 ==> KidFits(fs, src, dst, base, order[k])
    ensures r < |order| ==> r >= 1 && !KidFits(fs, src, dst, base, order[r])
    decreases |order| - i
  {
    if i == |order| || (i >= 1 && !KidFits(fs, src, dst, base, order[i])) then i
    else FirstMisfit(fs, src, dst, base, order, i + 1)
  }

  /** Where a search stops that comes to `i`. */
  lemma FirstMisfitIs(fs: Tree, src: Path, dst: Path, base: Path, order: seq<Path>, i: nat)
    requires AllBelow(fs, src, order) && i <= |order| && AllFit(fs, src, dst, base, order, i)
    requires i == |order| || (i >= 1 && !KidFits(fs, src, dst, base, order[i]))
    ensures FirstMisfit(fs, src, dst, base, order, 0) == i
  {}

  /** Any step of the walk; the first copies the source itself, to the target, which is there already. */
  lemma WalkStep(fs: Tree, src: Path, dst: Path, base: Path, order: seq<Path>, i: nat)
    requires Walkable(fs, src, dst, base, order) && i < |order|
    requires AllFit(fs, src, dst, base, order, i)
    ensures AllBelow(fs, src, order[..i]) && AllBelow(fs, src, order[..i + 1])
    ensures src <= order[i] && order[i] in fs && (order[i] == src <==> i == 0)
    ensures var g, p := Copied(fs, src, dst, base, order[..i]), order[i];
            var t := if p == src then dst else Move(p, src, base);
            && p in g && g[p] == fs[p] && p != t
            && (Fits(g, t, fs[p]) <==> i == 0 || KidFits(fs, src, dst, base, p))
            && (Fits(g, t, fs[p]) ==> Put(g, t, fs[p]) == Copied(fs, src, dst, base, order[..i + 1]))
  {
    WalkHead(fs, src, order);
    if i == 0 {
      MkdirAt(fs, dst);
    } else if i == 1 {
      FirstStep(fs, src, dst, base, order);
    } else {
      assert KidFits(fs, src, dst, base, order[1]);
      LaterStep(fs, src, dst, base, order, i);
    }
  }

  /** `t` is the place of something below the source. */
  predicate Lands(fs: Tree, src: Path, base: Path, t: Path) {
    base <= t && t != base && Move(t, base, src) in fs
  }

  /** The node at `t` is as it was, or `t` is a new directory on the way to the copies. */
  predicate OnTheWay(g: Tree, fs: Tree, dst: Path, base: Path, t: Path) {
    && (t in fs ==> t in g && g[t] == fs[t])
    && (t in g && t !in fs ==> g[t] == Dir && (Above(t, dst) || Above(t, base)))
  }

  /**
   After a copy everything of the source is at its place below `base` and as it was in the source;
   nothing else has changed but for new directories on the way.
   */
  lemma {:induction false} CopiedAt(fs: Tree, src: Path, dst: Path, base: Path, order: seq<Path>)
    requires Walkable(fs, src, dst, base, order) && Compatible(fs, src, dst, base)
    ensures var g := Copied(fs, src, dst, base, order);
            && HasDir(g, dst)
            && (forall p :: Child(fs, src, p) ==> Move(p, src, base) in g && g[Move(p, src, base)] == fs[p])
            && (forall t :: !Lands(fs, src, base, t) ==> OnTheWay(g, fs, dst, base, t))
  {
    var g := Copied(fs, src, dst, base, order);
    WalkHead(fs, src, order);
    CompatibleIff(fs, src, dst, base, order);
    forall p | Child(fs, src, p) ensures Move(p, src, base) in g && g[Move(p, src, base)] == fs[p] {
      KidCopied(fs, src, dst, base, order, p);
    }
    forall t | !Lands(fs, src, base, t) ensures OnTheWay(g, fs, dst, base, t) {
      RestStays(fs, src, dst, base, order, t);
    }
    if |order| > 1 { TargetStays(fs, src, dst, base, order); } else { MkdirAt(fs, dst); }
  }

  lemma KidCopied(fs: Tree, src: Path, dst: Path, base: Path, order: seq<Path>, p: Path)
    requires Walkable(fs, src, dst, base, order) && Child(fs, src, p)
    ensures var g, t := Copied(fs, src, dst, base, order), Move(p, src, base); t in g && g[t] == fs[p]
  {
    WalkHead(fs, src, order);
    assert p in order;
    var k :| 0 <= k < |order| && order[k] == p;
    PartPlaced(fs, src, dst, base, order, |order|, k);
    assert order[..|order|] == order;
  }

  lemma RestStays(fs: Tree, src: Path, dst: Path, base: Path, order: seq<Path>, t: Path)
    requires Walkable(fs, src, dst, base, order) && AllFit(fs, src, dst, base, order, |order|)
    requires !Lands(fs, src, base, t)
    ensures OnTheWay(Copied(fs, src, dst, base, order), fs, dst, base, t)
  {
    WalkHead(fs, src, order);
    forall k | 1 <= k < |order| ensures Move(order[k], src, base) != t { KidLands(fs, src, base, order[k]); }
    PartElsewhere(fs, src, dst, base, order, |order|, t);
    assert order[..|order|] == order;
  }

  lemma KidLands(fs: Tree, src: Path, base: Path, p: Path)
    requires Child(fs, src, p)
    ensures Lands(fs, src, base, Move(p, src, base))
  {
    DeeperIsNotAbove(p, src, base);
    MoveBack(p, base, src);
  }

  /** The target stays a directory, even where a copy lands on it. */
  lemma TargetStays(fs: Tree, src: Path, dst: Path, base: Path, order: seq<Path>)
    requires Walkable(fs, src, dst, base, order) && |order| > 1
    requires AllFit(fs, src, dst, base, order, |order|)
    ensures HasDir(Copied(fs, src, dst, base, order), dst)
  {
    var kids, m := order[1..], Prepared(fs, dst, base);
    WalkHead(fs, src, order);
    assert KidFits(fs, src, dst, base, order[1]);
    PreparedAt(fs, dst, base);
    if k :| 0 <= k < |kids| && Move(kids[k], src, base) == dst {
      KidCopied(fs, src, dst, base, order, kids[k]);
      assert KidFits(fs, src, dst, base, order[k + 1]);
    } else {
      GraftAt(m, fs, src, base, kids);
    }
  }

  /** A copy leaves the source as it was, so it can be walked in the same order. */
  lemma SourceStays(fs: Tree, src: Path, dst: Path, base: Path, order: seq<Path>)
    requires Walkable(fs, src, dst, base, order) && Compatible(fs, src, dst, base)
    ensures var g := Copied(fs, src, dst, base, order);
            && (forall p :: src <= p ==> (p in g <==> p in fs) && (p in fs ==> g[p] == fs[p]))
            && WalkOrder(g, src, order) && AllBelow(g, src, order)
  {
    CompatibleIff(fs, src, dst, base, order);
    PartlyCopied(fs, src, dst, base, order, |order|);
    assert order[..|order|] == order;
  }

  /**
   A copy that stops after the first `n` paths has put those where they go. All other places are as
   before but for new directories on the way, and so is everything in the source.
   */
  lemma {:induction false} PartlyCopied(fs: Tree, src: Path, dst: Path, base: Path, order: seq<Path>, n: nat)
    requires Walkable(fs, src, dst, base, order) && n <= |order| && AllFit(fs, src, dst, base, order, n)
    ensures AllBelow(fs, src, order[..n])
    ensures var g := Copied(fs, src, dst, base, order[..n]);
            && (forall k :: 1 <= k < n ==>
                  Move(order[k], src, base) in g && g[Move(order[k], src, base)] == fs[order[k]])
            && (forall t :: (forall k :: 1 <= k < n ==> Move(order[k], src, base) != t) ==>
                  OnTheWay(g, fs, dst, base, t))
            && (forall p :: src <= p ==> (p in g <==> p in fs) && (p in fs ==> g[p] == fs[p]))
  {
    WalkHead(fs, src, order);
    var g := Copied(fs, src, dst, base, order[..n]);
    forall k | 1 <= k < n ensures Move(order[k], src, base) in g && g[Move(order[k], src, base)] == fs[order[k]] {
      PartPlaced(fs, src, dst, base, order, n, k);
    }
    forall t | forall k :: 1 <= k < n ==> Move(order[k], src, base) != t ensures OnTheWay(g, fs, dst, base, t) {
      PartElsewhere(fs, src, dst, base, order, n, t);
    }
    forall p | src <= p ensures (p in g <==> p in fs) && (p in fs ==> g[p] == fs[p]) {
      PartSource(fs, src, dst, base, order, n, p);
    }
  }

  lemma {:induction false} PartPlaced(fs: Tree, src: Path, dst: Path, base: Path, order: seq<Path>, n: nat, k: nat)
    requires Walkable(fs, src, dst, base, order) && 1 <= k < n <= |order|
    ensures AllBelow(fs, src, order[..n])
    ensures var g, t := Copied(fs, src, dst, base, order[..n]), Move(order[k], src, base);
            t in g && g[t] == fs[order[k]]
  {
    var kids := order[..n][1..];
    GraftAt(Prepared(fs, dst, base), fs, src, base, kids);
    assert kids[k - 1] == order[k];
  }

  lemma {:induction false} PartElsewhere(fs: Tree, src: Path, dst: Path, base: Path, order: seq<Path>, n: nat, t: Path)
    requires Walkable(fs, src, dst, base, order) && n <= |order| && AllFit(fs, src, dst, base, order, n)
    requires forall k :: 1 <= k < n ==> Move(order[k], src, base) != t
    ensures AllBelow(fs, src, order[..n])
    ensures OnTheWay(Copied(fs, src, dst, base, order[..n]), fs, dst, base, t)
  {
    MkdirAt(fs, dst);
    if n > 1 {
      var kids := order[..n][1..];
      assert KidFits(fs, src, dst, base, order[1]);
      PreparedAt(fs, dst, base);
      var g, m := Graft(Prepared(fs, dst, base), fs, src, base, kids), Prepared(fs, dst, base);
      assert (t in g <==> t in m) && (t in m ==> g[t] == m[t]) by {
        forall k | 0 <= k < |kids| ensures Move(kids[k], src, base) != t { assert kids[k] == order[k + 1]; }
        GraftAt(m, fs, src, base, kids);
      }
    }
  }

  lemma {:induction false} PartSource(fs: Tree, src: Path, dst: Path, base: Path, order: seq<Path>, n: nat, p: Path)
    requires Walkable(fs, src, dst, base, order) && n <= |order| && AllFit(fs, src, dst, base, order, n) && src <= p
    ensures AllBelow(fs, src, order[..n])
    ensures var g := Copied(fs, src, dst, base, order[..n]); (p in g <==> p in fs) && (p in fs ==> g[p] == fs[p])
  {
    WalkHead(fs, src, order);
    MkdirAt(fs, dst);
    if Above(p, dst) { AboveTrans(src, p, dst); }
    if n > 1 {
      ApartPlace(fs, src, dst, base, order[1]);
      if Above(p, base) { AboveTrans(src, p, base); }
      forall k | 1 <= k < n ensures Move(order[k], src, base) != p { ApartPlace(fs, src, dst, base, order[k]); }
      PartElsewhere(fs, src, dst, base, order, n, p);
    }
  }

  /** A tree copied to where it belongs compares clean, and nothing obstructs the comparison. */
  lemma {:induction false} CopiedIsClean(fs: Tree, src: Path, dst: Path, order: seq<Path>)
    requires Walkable(fs, src, dst, dst, order) && Compatible(fs, src, dst, dst)
    ensures var g := Copied(fs, src, dst, dst, order);
            && WalkOrder(g, src, order) && AllBelow(g, src, order)
            && Reports(g, src, dst, order) == [] && !Obstructed(g, src, dst)
  {
    var g := Copied(fs, src, dst, dst, order);
    CopiedAt(fs, src, dst, dst, order);
    SourceStays(fs, src, dst, dst, order);
    forall p | p in fs && src <= p ensures Move(p, src, dst) in g && g[Move(p, src, dst)] == fs[p] {
      assert p == src ==> Move(p, src, dst) == dst;
    }
    CleanIff(g, src, dst, order);
  }

  /** The source has a regular file. */
  ghost predicate HasFile(fs: Tree, src: Path) {
    exists p :: p in fs && src <= p && fs[p].File?
  }

  /**
   Copied to a place other than a target that did not exist, a tree with a file does not compare
   clean: the target could have the file only from another file of the source, higher or deeper, and so on.
   */
  lemma {:induction false} MisplacedFile(fs: Tree, src: Path, dst: Path, base: Path, order: seq<Path>, p: Path,
                                         depth: nat)
    requires Walkable(fs, src, dst, base, order) && Compatible(fs, src, dst, base)
    requires base != dst && dst !in fs && p in fs && src <= p && fs[p].File?
    requires forall q :: q in fs ==> |q| <= depth
    ensures AllBelow(Copied(fs, src, dst, base, order), src, order)
    ensures Reports(Copied(fs, src, dst, base, order), src, dst, order) != []
    decreases if |base| > |dst| then |p| else depth - |p|
  {
    var g, t := Copied(fs, src, dst, base, order), Move(p, src, dst);
    CopiedAt(fs, src, dst, base, order);
    SourceStays(fs, src, dst, base, order);
    CleanIff(g, src, dst, order);
    assert p in order;
    if t in g && g[t] == fs[p] {
      if t in fs { PrefixesPresent(fs, t); }
      assert !OnTheWay(g, fs, dst, base, t);
      if |base| == |dst| { AboveTotal(base, dst, t); }
      MoveBack(t, src, base);
      var q := Move(t, base, src);
      assert Child(fs, src, q);
      MisplacedFile(fs, src, dst, base, order, q, depth);
    }
  }

  lemma Depth(fs: Tree) returns (depth: nat)
    ensures forall q :: q in fs ==> |q| <= depth
  {
    if fs.Keys != {} {
      var deepest := Deepest(fs.Keys);
      depth := |deepest|;
    } else {
      depth := 0;
    }
  }

  /**
   A source with a file, copied to a target that did not exist, compares clean exactly when the source
   was typed as the walk spells it, or leads from the target back to the target; for a source without
   leading steps up the latter means the root or the working directory.
   */
  lemma {:induction false} CleanCopyIff(fs: Tree, cwd: Path, src: string, dst: string, order: seq<Path>)
    requires EndsInSep(src) && EndsInSep(dst)
    requires var s, d, b := Abs(cwd, src), Abs(cwd, dst), Base(cwd, src, dst);
             Walkable(fs, s, d, b, order) && Compatible(fs, s, d, b) && HasFile(fs, s) && d !in fs
    ensures var s, d := Abs(cwd, src), Abs(cwd, dst);
            var g := Copied(fs, s, d, Base(cwd, src, dst), order);
            && AllBelow(g, s, order)
            && (Reports(g, s, d, order) == [] <==> Spelled(src) || Follow(d, Elements(Clean(src))) == d)
            && (Clean(src).ups == 0 ==> (Reports(g, s, d, order) == [] <==> Spelled(src) || Clean(src).names == []))
  {
    var s, d, b := Abs(cwd, src), Abs(cwd, dst), Base(cwd, src, dst);
    CleanValid(src);
    FollowElements(d, Clean(src));
    assert |d + Clean(src).names| == |d| ==> Clean(src).names == [];
    assert d + [] == d;
    if b == d {
      CopiedIsClean(fs, s, d, order);
    } else {
      var p :| p in fs && s <= p && fs[p].File?;
      var depth := Depth(fs);
      MisplacedFile(fs, s, d, b, order, p, depth);
    }
  }

  /** A directory `a`, in it a directory `b`, in that one empty file `x`. */
  function OneFileDeep(a: string, b: string, x: string): Tree {
    map[[] := Dir, [a] := Dir, [a, b] := Dir, [a, b, x] := File([])]
  }

  /** `src` is a directory with nothing in it but the file `x`, and can go to `dst`, which has no `x`. */
  ghost predicate Single(fs: Tree, src: Path, dst: Path, x: string) {
    && WellFormed(fs) && HasDir(fs, src) && HasDir(fs, dst) && !(src <= dst) && !(src <= dst + [x])
    && src + [x] in fs && fs[src + [x]].File? && dst + [x] !in fs
    && forall p :: Child(fs, src, p) ==> p == src + [x]
  }

  lemma CopySingle(fs: Tree, src: Path, dst: Path, x: string)
    requires Single(fs, src, dst, x)
    ensures var order := [src, src + [x]];
            && Walkable(fs, src, dst, dst, order) && Compatible(fs, src, dst, dst)
            && Copied(fs, src, dst, dst, order) == fs[dst + [x] := fs[src + [x]]]
  {
    SingleOrder(fs, src, x);
    SingleFits(fs, src, dst, x);
    SingleCopied(fs, src, dst, x);
  }

  lemma SingleFits(fs: Tree, src: Path, dst: Path, x: string)
    requires Single(fs, src, dst, x)
    ensures Apart(fs, src, dst, dst) && Compatible(fs, src, dst, dst)
  {
    MoveAppended([x], dst, src);
    assert Mkdir(fs, dst) == fs && Prepared(fs, dst, dst) == fs;
  }

  lemma SingleCopied(fs: Tree, src: Path, dst: Path, x: string)
    requires Single(fs, src, dst, x) && AllBelow(fs, src, [src, src + [x]])
    ensures Copied(fs, src, dst, dst, [src, src + [x]]) == fs[dst + [x] := fs[src + [x]]]
  {
    var p := src + [x];
    MoveAppended([x], dst, src);
    assert [src, p][1..] == [] + [p];
    assert Mkdir(fs, dst) == fs && Prepared(fs, dst, dst) == fs;
    GraftMore(fs, fs, src, dst, [], p);
  }

  lemma SingleOrder(fs: Tree, src: Path, x: string)
    requires src in fs && src + [x] in fs && forall p :: Child(fs, src, p) ==> p == src + [x]
    ensures WalkOrder(fs, src, [src, src + [x]]) && AllBelow(fs, src, [src, src + [x]])
  {
    var order := [src, src + [x]];
    assert order[0] == src && order[1] == src + [x] && Parent(src + [x]) == src;
    forall p ensures p in order <==> p in fs && src <= p {
      if p in fs && src <= p && p != src { assert Child(fs, src, p); }
    }
    if src != [] { assert |Parent(src)| < |src|; }
  }

  /** The target may hold the source: with "a/b/" as source and "a/" as target, "a/b/x" goes to "a/x". */
  lemma CopyUp(a: string, b: string, x: string)
    requires Normal(a) && Normal(b) && Normal(x) && x != b
    ensures var fs, src, dst, order := OneFileDeep(a, b, x), a + [SEP] + b + [SEP], a + [SEP], [[a, b], [a, b] + [x]];
            var s, d := Abs([], src), Abs([], dst);
            && d < s == [a, b] && Base([], src, dst) == d
            && Walkable(fs, s, d, d, order) && Compatible(fs, s, d, d)
            && Copied(fs, s, d, d, order) == fs[d + [x] := File([])] && d + [x] !in fs
            && AllBelow(fs[d + [x] := File([])], s, order)
            && Reports(fs[d + [x] := File([])], s, d, order) == []
  {
    var fs := OneFileDeep(a, b, x);
    NamesSpelled([], a, b);
    NameAbs([], a);
    DeepTree(a, b, x);
    CopySingle(fs, [a, b], [a], x);
    CopiedIsClean(fs, [a, b], [a], [[a, b], [a, b] + [x]]);
    assert [] + [a] == [a] && [] + [a, b] == [a, b];
  }

  lemma DeepTree(a: string, b: string, x: string)
    requires x != b
    ensures var fs := OneFileDeep(a, b, x);
            && WellFormed(fs) && HasDir(fs, [a, b]) && HasDir(fs, [a]) && [a] < [a, b]
            && !([a, b] <= [a]) && !([a, b] <= [a] + [x])
            && [a, b] + [x] in fs && fs[[a, b] + [x]] == File([]) && [a] + [x] !in fs
            && forall p :: Child(fs, [a, b], p) ==> p == [a, b] + [x]
  {
    var fs := OneFileDeep(a, b, x);
    assert Parent([a]) == [] && Parent([a, b]) == [a] && Parent([a, b, x]) == [a, b];
    assert [a, b] + [x] == [a, b, x] && [a] + [x] == [a, x];
    assert [a, x][1] != [a, b][1];
    forall p | Child(fs, [a, b], p) ensures p == [a, b, x] { assert |p| >= 2; }
  }

  /** A directory `a` holding one empty file `x`. */
  function OneFile(a: string, x: string): Tree {
    map[[] := Dir, [a] := Dir, [a, x] := File([])]
  }

  /** Such copies exist: with "./a/" as source and "d/" as target, "a/x" goes to "d/a/x", and "d/x" is missing. */
  lemma DotSlashCopy(a: string, d: string, x: string)
    requires Normal(a) && Normal(d) && Normal(x) && a != d && x != a
    ensures var fs, src, dst, order := OneFile(a, x), "./" + a + "/", d + "/", [[a], [a, x]];
            var s, t, b := Abs([], src), Abs([], dst), Base([], src, dst);
            && s == [a] && t == [d] && b == [d, a]
            && Walkable(fs, s, t, b, order) && Compatible(fs, s, t, b) && HasFile(fs, s) && t !in fs
            && AllBelow(Copied(fs, s, t, b, order), s, order)
            && Call(true, [x]) in Reports(Copied(fs, s, t, b, order), s, t, order)
  {
    var fs := OneFile(a, x);
    DotSlashPlaces(a, d);
    SmallTree(a, d, x);
    assert [a, x] in fs && fs[[a, x]].File? && [a] <= [a, x];
    assert [a] + [x] == [a, x] == [[a], [a, x]][1];
    MissedFile(fs, [a], [d], [d, a], [[a], [a, x]], x);
  }

  /** A file that the copy put elsewhere is reported as missing. */
  lemma MissedFile(fs: Tree, src: Path, dst: Path, base: Path, order: seq<Path>, name: string)
    requires Walkable(fs, src, dst, base, order) && Compatible(fs, src, dst, base) && src + [name] in order
    requires dst + [name] !in fs && |base| == |dst| + 1 && base[|dst|] != name
    ensures AllBelow(Copied(fs, src, dst, base, order), src, order)
    ensures Call(true, [name]) in Reports(Copied(fs, src, dst, base, order), src, dst, order)
  {
    var g, t := Copied(fs, src, dst, base, order), dst + [name];
    SourceStays(fs, src, dst, base, order);
    CopiedAt(fs, src, dst, base, order);
    assert t[|dst|] == name;
    assert OnTheWay(g, fs, dst, base, t);
    ReportsExactly(g, src, dst, order);
  }

  lemma SmallTree(a: string, d: string, x: string)
    requires a != d
    ensures Walkable(OneFile(a, x), [a], [d], [d, a], [[a], [a, x]])
    ensures Compatible(OneFile(a, x), [a], [d], [d, a])
  {
    var fs := OneFile(a, x);
    var order: seq<Path> := [[a], [a, x]];
    assert Parent([a]) == [] && Parent([a, x]) == [a] && Parent([d]) == [] && Parent([d, a]) == [d];
    assert [a][0] != [d][0] && [d, a][0] != [a][0];
    assert order[0] == [a] && order[1] == [a, x];
    forall p ensures p in order <==> p in fs && [a] <= p {
      if p in fs && [a] <= p { assert p != []; }
    }
    assert Mkdir(fs, [d]) == fs[[d] := Dir];
    forall p | Child(fs, [a], p) ensures !([a] <= Move(p, [a], [d, a])) { assert Move(p, [a], [d, a])[0] == d; }
    PreparedAt(fs, [d], [d, a]);
    forall p | Child(fs, [a], p) ensures KidFits(fs, [a], [d], [d, a], p) {
      assert p == [a, x] && Move(p, [a], [d, a])[0] == d && |Move(p, [a], [d, a])| == 3;
    }
  }

  lemma DotSlashPlaces(a: string, d: string)
    requires Normal(a) && Normal(d)
    ensures var src, dst := "./" + a + "/", d + "/";
            Abs([], src) == [a] && Abs([], dst) == [d] && Base([], src, dst) == [d, a]
  {
    var src, dst := "./" + a + "/", d + "/";
    assert src == "." + [SEP] + a + [SEP] && dst == d + [SEP];
    DotNameAbs([], a);
    NameAbs([], d);
    DotSlashBase([], a, dst);
    assert [d] + [a] == [d, a];
  }
}
