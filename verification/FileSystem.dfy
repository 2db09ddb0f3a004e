/** The file operations behind `compare` and `-copyto`: comparing and copying trees on disk. */
module FileTree {
  import opened Paths
  import opened FileTreeSpec
  import opened CopyTree
  import Readers
  import Compare

  /** What directories list are names. */
  ghost predicate Named(order: seq<Path>) {
    forall i :: 0 <= i < |order| ==> AllNormal(order[i])
  }

  lemma NamedBelow(p: Path, n: nat)
    requires AllNormal(p) && n <= |p|
    ensures AllNormal(p[n..])
  {}

  class FileSystem {
    var fs: Tree
    const cwd: Path     // the working directory
    const dirSize: nat  // what Stat reports as the size of a directory

    ghost predicate Valid()
      reads this
    {
      WellFormed(fs)
    }

    function Size(p: Path): nat
      requires p in fs
      reads this
    {
      match fs[p] case Dir => dirSize case File(data) => |data|
    }

    /** A reader over an opened path; reading a directory fails. */
    method Open(p: Path) returns (r: Readers.Reader)
      requires p in fs
      ensures fresh(r) && r.fails == fs[p].Dir?
      ensures r.chunks == if fs[p].Dir? then [] else Readers.FileChunks(fs[p].data, Compare.BUFFER)
    {
      match fs[p]
      case Dir => r := new Readers.Reader([], true);
      case File(data) => r := new Readers.Reader(Readers.FileChunks(data, Compare.BUFFER), false);
    }

    /**
     Compares two paths: directories match each other, files match when their bytes are the same.
     With `slash` the second is opened with a separator at its end.
     */
    method Comparefile(spath: Path, dpath: Path, slash: bool) returns (match': bool, err: Err)
      ensures err == if OpenErr(fs, spath) != None then OpenErr(fs, spath) else OpenErrAs(fs, dpath, slash)
      ensures err == None ==> spath in fs && dpath in fs && (match' <==> fs[spath] == fs[dpath])
      ensures err != None ==> !match'
    {
      if OpenErr(fs, spath) != None {
        return false, OpenErr(fs, spath);
      }
      if OpenErrAs(fs, dpath, slash) != None {
        return false, OpenErrAs(fs, dpath, slash);
      }
      if fs[dpath].Dir? && fs[spath].Dir? {
        return true, None;
      }
      if Size(spath) != Size(dpath) {
        return false, None;
      }
      var sFile := Open(spath);
      var dFile := Open(dpath);
      if fs[spath].File? { Readers.FileChunksTile(fs[spath].data, Compare.BUFFER); }
      if fs[dpath].File? { Readers.FileChunksTile(fs[dpath].data, Compare.BUFFER); }
      match' := Compare.Comparebyte(sFile, dFile);
      err := None;
    }

    /** The callback of the walk: the source path `root` is compared with its place in the target. */
    method CompareOne(root: Path, place: Path, base: Path) returns (calls: seq<Call>, err: Err)
      requires root in fs
      ensures err == if OpenErrAs(fs, place, base == []) == NotDir then NotDir else None
      ensures calls == if err != None then []
                       else if place !in fs then [Call(true, base)]
                       else if fs[place] != fs[root] then [Call(false, base)]
                       else []
    {
      var match';
      match', err := Comparefile(root, place, base == []);
      if err != None {
        if err == NotExist {
          return [Call(true, base)], None;
        }
        return [], err;
      }
      calls := if !match' then [Call(match', base)] else [];
    }

    /**
     The callback on the strings of the walk: the root is trimmed off what is visited, the rest
     appended to the target.
     */
    method CompareVisited(spath: string, dpath: string, p: Path) returns (calls: seq<Call>, err: Err)
      requires var s := Abs(cwd, spath); s <= p && p in fs && AllNormal(p[|s|..])
      ensures var s, d := Abs(cwd, spath), Abs(cwd, dpath);
              && err == (if TargetErr(fs, s, d, p) == NotDir then NotDir else None)
              && calls == if err == None then Report(fs, s, d, p) else []
    {
      var root, target := Show(Clean(spath)) + [SEP], Show(Clean(dpath)) + [SEP];
      var base := p[|Abs(cwd, spath)|..];
      ComparedPlaces(cwd, spath, dpath, base);
      VisitedAbs(cwd, root, base);
      var visited := Visited(root, base);
      var place := target + TrimPrefix(visited, root);
      assert Abs(cwd, visited) == Abs(cwd, spath) + base == p;
      calls, err := CompareOne(Abs(cwd, visited), Abs(cwd, place), base);
    }

    /**
     Walks the source and reports what is missing or different in the target to a handler, whose
     calls are collected. Without an obstruction exactly the differences are reported; otherwise the
     walk stops with an error at the first path whose place is obstructed, with all differences before
     it reported. Both paths are cleaned first, so that every visited path is compared with its own
     place, however the two were typed.
     */
    method ComparePath(spath: string, dpath: string, order: seq<Path>) returns (calls: seq<Call>, err: Err)
      requires Valid() && WalkOrder(fs, Abs(cwd, spath), order) && Named(order)
      ensures var s, d := Abs(cwd, spath), Abs(cwd, dpath);
              && AllBelow(fs, s, order)
              && (err == None <==> HasDir(fs, s) && !Obstructed(fs, s, d))
              && if !HasDir(fs, s) then err == NoDirErr(fs, s) && calls == []
                 else
                   var i := FirstClosed(fs, s, d, order, 0);
                   calls == Reports(fs, s, d, order[..i]) && err == if i < |order| then NotDir else None
    {
      var s := Abs(cwd, spath);
      ghost var d := Abs(cwd, dpath);
      WalkBelow(fs, s, order);
      AllOpenIff(fs, s, d, order);
      calls := [];
      if !HasDir(fs, s) {
        return [], NoDirErr(fs, s);
      }
      for i := 0 to |order|
        invariant calls == Reports(fs, s, d, order[..i])
        invariant AllOpen(fs, s, d, order, i)
      {
        ReportStep(fs, s, d, order, i);
        NamedBelow(order[i], |s|);
        var found;
        found, err := CompareVisited(spath, dpath, order[i]);
        if err != None {
          FirstClosedIs(fs, s, d, order, i);
          return;
        }
        calls := calls + found;
      }
      FirstClosedIs(fs, s, d, order, |order|);
      err := None;
    }

    /** Opens a file for writing: creates it in an existing directory, or truncates it. */
    method OpenForWrite(dst: Path) returns (err: Err)
      requires Valid()
      modifies this
      ensures Valid()
      ensures err == if dst in old(fs) then (if old(fs)[dst].Dir? then IsDir else None)
                     else if HasDir(old(fs), Parent(dst)) then None else OpenErr(old(fs), dst)
      ensures fs == if err == None then old(fs)[dst := File([])] else old(fs)
    {
      if dst in fs {
        if fs[dst].Dir? {
          return IsDir;
        }
      } else if !HasDir(fs, Parent(dst)) {
        return OpenErr(fs, dst);
      }
      PutWellFormed(fs, dst, File([]));
      fs := fs[dst := File([])];
      err := None;
    }

    /**
     Copies a file, creating the target's directory and trying once more if it is missing. The target
     is truncated first: a directory as source leaves an empty file and an error, and copying a file
     onto itself empties it.
     */
    method Copy(src: Path, dst: Path) returns (err: Err)
      requires Valid()
      modifies this
      ensures Valid()
      ensures src !in old(fs) ==> err == OpenErr(old(fs), src) && fs == old(fs)
      ensures src in old(fs) && HasDir(old(fs), dst) ==> err == IsDir && fs == old(fs)
      ensures src in old(fs) && OpenErr(old(fs), dst) == NotDir ==> err == NotDir && fs == old(fs)
      ensures src in old(fs) && !HasDir(old(fs), dst) && OpenErr(old(fs), dst) != NotDir ==>
                && err == (if old(fs)[src].Dir? then IsDir else None)
                && fs == Mkdir(old(fs), Parent(dst))
                         [dst := if src == dst || old(fs)[src].Dir? then File([]) else old(fs)[src]]
    {
      if src !in fs {
        return OpenErr(fs, src);
      }
      ghost var before := fs;
      var retried := false;
      while true
        invariant Valid() && before == old(fs) && src in fs && fs[src] == before[src]
        invariant !retried ==> fs == before
        invariant retried ==> OpenErr(before, dst) == NotExist && fs == Mkdir(before, Parent(dst))
        invariant retried ==> HasDir(fs, Parent(dst)) && dst !in fs
        decreases !retried
      {
        err := OpenForWrite(dst);
        if err == None {
          break;
        }
        if err == NotExist && !retried {
          MissingParent(fs, dst);
          err := MkdirErr(fs, Parent(dst));
          if err == None {
            MkdirAt(fs, Parent(dst));
            AboveParent(dst, dst);
            fs := Mkdir(fs, Parent(dst));
            retried := true;
            continue;
          }
        }
        return;
      }
      if fs[src].Dir? {
        return IsDir;
      }
      PutWellFormed(fs, dst, fs[src]);
      fs := fs[dst := fs[src]];
    }

    /** Copies one path of the walk to its place. */
    method CopyOne(path: Path, ndst: Path) returns (err: Err)
      requires Valid() && path in fs && path != ndst
      modifies this
      ensures Valid()
      ensures err == PutErr(old(fs), ndst, old(fs)[path])
      ensures err == None <==> Fits(old(fs), ndst, old(fs)[path])
      ensures fs == if err == None then Put(old(fs), ndst, old(fs)[path]) else old(fs)
    {
      PutErrFits(fs, ndst, fs[path]);
      if ndst !in fs { MissingParent(fs, ndst); }
      if fs[path].Dir? {
        err := MkdirErr(fs, ndst);
        if err == None {
          MkdirAt(fs, ndst);
          fs := Mkdir(fs, ndst);
        }
      } else {
        err := Copy(path, ndst);
      }
    }

    /**
     The callback on the strings of the walk: the source is trimmed off what is visited, the rest
     appended to the target.
     */
    method CopyVisited(src: string, dst: string, p: Path) returns (err: Err)
      requires Valid() && EndsInSep(src) && EndsInSep(dst)
      requires var s := Abs(cwd, src); s <= p && p in fs && AllNormal(p[|s|..])
      requires Landing(src, dst, p) != p
      modifies this
      ensures Valid()
      ensures err == PutErr(old(fs), Landing(src, dst, p), old(fs)[p])
      ensures err == None <==> Fits(old(fs), Landing(src, dst, p), old(fs)[p])
      ensures fs == if err == None then Put(old(fs), Landing(src, dst, p), old(fs)[p]) else old(fs)
    {
      var rel := p[|Abs(cwd, src)|..];
      VisitedAbs(cwd, src, rel);
      PlaceIs(cwd, src, dst, rel);
      var path := Visited(src, rel);
      var ndst := dst + TrimPrefix(path, src);
      assert Abs(cwd, path) == Abs(cwd, src) + rel == p;
      err := CopyOne(Abs(cwd, path), Abs(cwd, ndst));
    }

    /** Where a path of the source is copied to. */
    ghost function Landing(src: string, dst: string, p: Path): Path
      requires Abs(cwd, src) <= p
    {
      if p == Abs(cwd, src) then Abs(cwd, dst) else Move(p, Abs(cwd, src), Base(cwd, src, dst))
    }

    /** The first `i` paths of the walk of `before` have been copied. */
    ghost predicate Walked(src: string, dst: string, order: seq<Path>, i: nat, before: Tree)
      requires AllBelow(before, Abs(cwd, src), order) && i <= |order|
      reads this
    {
      var s, d, b := Abs(cwd, src), Abs(cwd, dst), Base(cwd, src, dst);
      && AllBelow(before, s, order[..i])
      && fs == Copied(before, s, d, b, order[..i])
      && AllFit(before, s, d, b, order, i)
    }

    /** One step of the walk of `CopyDir`; when it fails, it has changed nothing, and the path is the first misfit. */
    method CopyNext(src: string, dst: string, order: seq<Path>, i: nat, ghost before: Tree) returns (err: Err)
      requires Valid() && EndsInSep(src) && EndsInSep(dst) && Named(order) && i < |order|
      requires Walkable(before, Abs(cwd, src), Abs(cwd, dst), Base(cwd, src, dst), order)
      requires Walked(src, dst, order, i, before)
      modifies this
      ensures Valid()
      ensures err == None ==> Walked(src, dst, order, i + 1, before)
      ensures err != None ==>
                Walked(src, dst, order, i, before) && err == PutErr(fs, Landing(src, dst, order[i]), before[order[i]])
      ensures err != None ==> FirstMisfit(before, Abs(cwd, src), Abs(cwd, dst), Base(cwd, src, dst), order, 0) == i
    {
      ghost var s, d, b := Abs(cwd, src), Abs(cwd, dst), Base(cwd, src, dst);
      WalkStep(before, s, d, b, order, i);
      AllFitStep(before, s, d, b, order, i);
      NamedBelow(order[i], |s|);
      err := CopyVisited(src, dst, order[i]);
      if err != None { FirstMisfitIs(before, s, d, b, order, i); }
    }

    /** How the walk of `CopyDir` ends: at the first path that does not fit, or with everything copied. */
    ghost predicate CopyEnds(src: string, dst: string, order: seq<Path>, before: Tree, err: Err)
      requires AllBelow(before, Abs(cwd, src), order)
      reads this
    {
      var s, d, b := Abs(cwd, src), Abs(cwd, dst), Base(cwd, src, dst);
      var i := FirstMisfit(before, s, d, b, order, 0);
      && AllBelow(before, s, order[..i]) && fs == Copied(before, s, d, b, order[..i])
      && (err == None <==> i == |order|)
      && (err != None ==> err == PutErr(fs, Landing(src, dst, order[i]), before[order[i]]))
    }

    /** The walk of `CopyDir`: every path of the source is copied in turn, until one cannot be. */
    method CopyWalk(src: string, dst: string, order: seq<Path>, ghost before: Tree) returns (err: Err)
      requires Valid() && EndsInSep(src) && EndsInSep(dst) && Named(order)
      requires Walkable(before, Abs(cwd, src), Abs(cwd, dst), Base(cwd, src, dst), order)
      requires fs == Mkdir(before, Abs(cwd, dst))
      modifies this
      ensures Valid() && CopyEnds(src, dst, order, before, err)
      ensures err == None <==> Compatible(before, Abs(cwd, src), Abs(cwd, dst), Base(cwd, src, dst))
    {
      ghost var s, d, b := Abs(cwd, src), Abs(cwd, dst), Base(cwd, src, dst);
      CompatibleIff(before, s, d, b, order);
      for i := 0 to |order|
        invariant Valid() && Walked(src, dst, order, i, before)
      {
        err := CopyNext(src, dst, order, i, before);
        if err != None {
          return;
        }
      }
      FirstMisfitIs(before, s, d, b, order, |order|);
      err := None;
    }

    /**
     How a copy ends. It succeeds exactly when no file meets a directory where the copies land, and
     then everything below the source is below that landing place. When it fails, what had its turn
     before the first path that does not fit has been copied, and nothing else has been done.
     */
    ghost predicate CopyDone(src: string, dst: string, order: seq<Path>, before: Tree, err: Err)
      reads this
    {
      var s, d, b := Abs(cwd, src), Abs(cwd, dst), Base(cwd, src, dst);
      && AllBelow(before, s, order)
      && (err == None <==> Compatible(before, s, d, b))
      && (err == None ==> fs == Copied(before, s, d, b, order))
      && if MkdirErr(before, d) != None then err == MkdirErr(before, d) && fs == before
         else if !HasDir(before, s) then fs == Mkdir(before, d) && !HasDir(fs, s) && err == NoDirErr(fs, s)
         else CopyEnds(src, dst, order, before, err)
    }

    /** `CopyDir` for paths that end in separators. */
    method CopyBelow(src: string, dst: string, order: seq<Path>) returns (err: Err)
      requires Valid() && EndsInSep(src) && EndsInSep(dst) && Named(order) && WalkOrder(fs, Abs(cwd, src), order)
      requires Apart(fs, Abs(cwd, src), Abs(cwd, dst), Base(cwd, src, dst))
      modifies this
      ensures Valid() && CopyDone(src, dst, order, old(fs), err)
    {
      var s, d := Abs(cwd, src), Abs(cwd, dst);
      ghost var before := fs;
      WalkBelow(fs, s, order);
      err := MkdirErr(fs, d);
      if err != None {
        return;
      }
      MkdirAt(fs, d);
      fs := Mkdir(fs, d);
      if !HasDir(fs, s) {
        err := NoDirErr(fs, s);
        return;
      }
      err := CopyWalk(src, dst, order, before);
      assert order[..|order|] == order;
    }

    /**
     Copies everything below `src` to `dst`, walking the source in `order`; an empty string panics. The
     landing place is the target, if `src` is spelled as the walk spells it, else it is where the
     cleaned `src` leads from the target.
     */
    method CopyDir(src: string, dst: string, order: seq<Path>) returns (panicked: bool, err: Err)
      requires Valid() && Named(order)
      requires src != "" && dst != "" ==>
                 && WalkOrder(fs, Abs(cwd, WithSep(src)), order)
                 && Apart(fs, Abs(cwd, WithSep(src)), Abs(cwd, WithSep(dst)), Base(cwd, WithSep(src), WithSep(dst)))
      modifies this
      ensures Valid()
      ensures panicked <==> src == "" || dst == ""
      ensures panicked ==> fs == old(fs)
      ensures !panicked ==> CopyDone(WithSep(src), WithSep(dst), order, old(fs), err)
    {
      if src == "" || dst == "" {
        return true, None;
      }
      panicked := false;
      err := CopyBelow(WithSep(src), WithSep(dst), order);
    }
  }
}
