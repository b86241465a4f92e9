/** The file store behaves like the in-memory one: exactly when, call by call,
    and over whole runs. */
module BlobSimulation {
  import opened Text
  import opened Keys
  import opened FileSystem
  import opened Blob

  // ------------------------------------------------------------------
  // Trees that represent a memory
  // ------------------------------------------------------------------

  ghost predicate HoldsObject(env: Env, t: Tree, k: string, o: MemoryObject) {
    && Target(env, k) in t && t[Target(env, k)] == File(o.data)
    && Sidecar(env, k) in t && t[Sidecar(env, k)].File?
    && o.info == Labelled(k, |o.data|, env.codec.decode(t[Sidecar(env, k)].data))
  }

  /** Every object is there with its metadata, no other file lies below the objects directory, and nothing but files
      lies below the metadata directory. */
  ghost predicate Faithful(env: Env, t: Tree, m: Memory) {
    && (forall k :: k in m ==> Acceptable(k) && HoldsObject(env, t, k, m[k]))
    && (forall p :: p in t && t[p].File? && ObjectsDir(env.root) < p ==> exists k :: k in m && p == Target(env, k))
    && CanBeDir(t, ObjectsDir(env.root)) && CanBeDir(t, MetadataDir(env.root))
    && (forall p :: p in t && MetadataDir(env.root) < p ==> t[p].File?)
  }

  /** The key of a stored object is a proper segment-prefix of `k`. */
  ghost predicate Clash(m: Memory, k: string) {
    exists j :: j in m && Split(j, '/') < Split(k, '/')
  }

  /** A directory has the path that the object would have. */
  predicate Shadowed(env: Env, t: Tree, k: string) {
    Target(env, k) in t && t[Target(env, k)].Dir?
  }

  // ------------------------------------------------------------------
  // Paths
  // ------------------------------------------------------------------

  lemma TargetsOrdered(env: Env, a: string, b: string)
    ensures Target(env, a) < Target(env, b) <==> Split(a, '/') < Split(b, '/')
    ensures Target(env, a) == Target(env, b) <==> a == b
    ensures ObjectsDir(env.root) < Target(env, a)
  {
    ObjectPaths(env.root, a, b);
    var d := ObjectsDir(env.root);
    hide Split;
    var x, y := Split(a, '/'), Split(b, '/');
    assert Target(env, a) == d + x && Target(env, b) == d + y;
    if x < y {
      assert (d + y)[..|d + x|] == d + x;
    }
    if d + x < d + y {
      assert x == (d + x)[|d|..] && x == (d + y)[|d|..|d + x|];
      assert x == y[..|x|];
    }
  }

  lemma SidecarAway(env: Env, k: string, j: string)
    ensures MetadataDir(env.root) < Sidecar(env, k) && Parent(Sidecar(env, k)) == MetadataDir(env.root)
    ensures !(ObjectsDir(env.root) <= Sidecar(env, k)) && !(MetadataDir(env.root) <= Target(env, j))
    ensures Sidecar(env, k) != Target(env, j)
    ensures !(Target(env, j) <= MetadataDir(env.root)) && !(Sidecar(env, k) <= ObjectsDir(env.root))
  {
    hide Split;
    ObjectsAndMetadata(env.root, j, env.sums.key(k));
    var r := |env.root| + 1;
    assert ObjectsDir(env.root)[r] == "objects" && MetadataDir(env.root)[r] == "metadata";
    assert Target(env, j)[r] == "objects" && Sidecar(env, k)[r] == "metadata";
  }

  lemma MetadataElsewhere(env: Env, k: string, p: Path)
    requires MetadataDir(env.root) < p
    ensures !(p <= TargetDir(env, k))
  {
    hide Split;
    var r := |env.root| + 1;
    assert p[r] == MetadataDir(env.root)[r] == "metadata";
    assert Target(env, k)[r] == "objects";
    assert forall i :: 0 <= i < |TargetDir(env, k)| ==> TargetDir(env, k)[i] == Target(env, k)[i];
  }

  /** A prefix of an object's path leads into the objects directory or lies below it. */
  lemma PrefixOfTarget(env: Env, k: string, q: Path)
    requires q <= Target(env, k)
    ensures q <= ObjectsDir(env.root) || ObjectsDir(env.root) < q
  {
    var d, whole := ObjectsDir(env.root), Target(env, k);
    assert q == whole[..|q|] && d == whole[..|d|];
    if |q| <= |d| {
      assert q == d[..|q|];
    } else {
      assert d == q[..|d|];
    }
  }

  // ------------------------------------------------------------------
  // Stat and Get
  // ------------------------------------------------------------------

  lemma BlockedIffClash(env: Env, t: Tree, m: Memory, k: string)
    requires Faithful(env, t, m)
    ensures Blocked(t, Target(env, k)) <==> Clash(m, k)
  {
    var p := Target(env, k);
    hide Split, ObjectPath, HoldsObject;
    if Blocked(t, p) {
      var i :| 0 <= i < |p| && p[..i] in t && t[p[..i]].File?;
      var q := p[..i];
      PrefixOfTarget(env, k, q);
      assert q !in Prefixes(ObjectsDir(env.root));
      var j :| j in m && q == Target(env, j);
      TargetsOrdered(env, j, k);
    }
    if Clash(m, k) {
      var j :| j in m && Split(j, '/') < Split(k, '/');
      TargetsOrdered(env, j, k);
      var q := Target(env, j);
      assert HoldsObject(env, t, j, m[j]);
      FileAt(env, t, j, m[j]);
      assert p[..|q|] == q;
    }
  }

  lemma FileAt(env: Env, t: Tree, k: string, o: MemoryObject)
    requires HoldsObject(env, t, k, o)
    ensures Target(env, k) in t && t[Target(env, k)] == File(o.data)
  {
  }

  /** Without a clash, what lies at an object's path is the object, a directory or nothing. */
  lemma TargetIs(env: Env, t: Tree, m: Memory, k: string)
    requires Faithful(env, t, m) && !Clash(m, k)
    ensures Resolve(t, Target(env, k)) ==
            if k in m then Ok(File(m[k].data)) else if Target(env, k) in t then Ok(Dir) else Err(NotExist)
  {
    hide Split, Target, CanBeDir, ObjectsDir, MetadataDir, Acceptable, Blocked, Clash;
    BlockedIffClash(env, t, m, k);
    if Target(env, k) in t && t[Target(env, k)].File? {
      TargetsOrdered(env, k, k);
      var j :| j in m && Target(env, k) == Target(env, j);
      TargetsOrdered(env, j, k);
    }
  }

  lemma SidecarReachable(env: Env, t: Tree, m: Memory, k: string)
    requires Faithful(env, t, m)
    ensures !Blocked(t, Sidecar(env, k))
    ensures Sidecar(env, k) in t ==> t[Sidecar(env, k)].File?
  {
    var p, d := Sidecar(env, k), MetadataDir(env.root);
    SidecarAway(env, k, k);
    hide ObjectPath, HoldsObject;
    forall i | 0 <= i < |p| && p[..i] in t
      ensures t[p[..i]].Dir?
    {
      assert p[..i] == d[..i];
      assert p[..i] in Prefixes(d);
    }
  }

  lemma MetadataOf(env: Env, t: Tree, m: Memory, k: string)
    requires Faithful(env, t, m) && k in m
    ensures Labelled(k, |m[k].data|, ReadMetadata(env, t, k)) == m[k].info
  {
    SidecarReachable(env, t, m, k);
    hide Split, ObjectPath, Blocked;
    assert HoldsObject(env, t, k, m[k]);
  }

  /** Stat and Get answer as the in-memory store does if and only if no stored key is a proper segment-prefix. */
  lemma ReadsAgree(env: Env, t: Tree, m: Memory, k: string)
    requires Faithful(env, t, m) && Acceptable(k)
    ensures FileOp(env, t, Op.Stat(false, k)).1 == MemoryOp(env, m, Op.Stat(false, k)).1 <==> !Clash(m, k)
    ensures FileOp(env, t, Op.Get(false, k)).1 == MemoryOp(env, m, Op.Get(false, k)).1 <==> !Clash(m, k)
  {
    hide Split, NormalizeKey, Blocked, Faithful, Clash, Acceptable, Target, Sidecar, ReadMetadata, Labelled;
    NormalizeExact(k);
    if Clash(m, k) {
      BlockedIffClash(env, t, m, k);
      assert FileStat(env, t, false, k) == Err(StatFailed);
    } else {
      StatIs(env, t, m, k);
    }
  }

  /** Without a clash Stat and Get tell what the memory holds. */
  lemma StatIs(env: Env, t: Tree, m: Memory, k: string)
    requires Faithful(env, t, m) && Acceptable(k) && !Clash(m, k)
    ensures FileStat(env, t, false, k) == if k in m then Ok(m[k].info) else Err(NotFound)
    ensures FileGet(env, t, false, k) == if k in m then Ok((m[k].data, m[k].info)) else Err(NotFound)
  {
    NormalizeExact(k);
    TargetIs(env, t, m, k);
    if k in m {
      MetadataOf(env, t, m, k);
      assert HoldsObject(env, t, k, m[k]);
      assert m[k].info.key == k;
    }
    hide Split, NormalizeKey, Resolve, Clash, ReadMetadata, Acceptable, Faithful, Target, HoldsObject, Labelled;
  }

  // ------------------------------------------------------------------
  // Put
  // ------------------------------------------------------------------

  lemma ParentMakeable(env: Env, t: Tree, m: Memory, k: string)
    requires Faithful(env, t, m)
    ensures CanBeDir(t, TargetDir(env, k)) <==> !Clash(m, k)
  {
    BlockedIffClash(env, t, m, k);
    var p, d := Target(env, k), TargetDir(env, k);
    hide Split, ObjectPath, Faithful, Clash;
    if CanBeDir(t, d) {
      forall i | 0 <= i < |p| && p[..i] in t
        ensures t[p[..i]].Dir?
      {
        assert p[..i] == d[..i];
        assert p[..i] in Prefixes(d);
      }
    }
    if !Blocked(t, p) {
      forall q | q in Prefixes(d) && q in t
        ensures t[q].Dir?
      {
        assert q == d[..|q|] && q == p[..|q|];
      }
    }
  }

  /** The temporary name is new and is not the object's own. */
  predicate TempOk(env: Env, t: Tree, k: string, temp: Path) {
    temp !in t && temp != Target(env, k) && temp != [] && Parent(temp) == TargetDir(env, k)
  }

  /** Where everything is after a Put. */
  lemma PutTreeAt(env: Env, t: Tree, k: string, body: seq<byte>, ct: string, temp: Path, p: Path)
    requires TempOk(env, t, k, temp)
    ensures var t' := PutTree(env, t, k, body, ct, temp);
            if p == Target(env, k) then p in t' && t'[p] == File(body)
            else if p == Sidecar(env, k) then p in t' && t'[p] == File(env.codec.encode(Described(env, k, body, ct)))
            else if p in t then p in t' && t'[p] == t[p]
            else p in t' ==> t'[p] == Dir && (p <= TargetDir(env, k) || p <= MetadataDir(env.root))
  {
    SidecarAway(env, k, k);
    TempAway(env, k, temp);
    hide Split, Target, Sidecar, TargetDir, MetadataDir, ObjectsDir, Described, Prefixes;
    var t1, t' := Replaced(env, t, k, body, temp), PutTree(env, t, k, body, ct, temp);
    var dirs := WithDirs(t, TargetDir(env, k));
    assert p == Target(env, k) ==> p in t1 && t1[p] == File(body);
    assert p != Target(env, k) && p in t ==> p in t1 && t1[p] == t[p];
    assert p != Target(env, k) && p !in t && p in t1 ==> p in dirs && t1[p] == dirs[p];
    hide Replaced;
  }

  lemma TempAway(env: Env, k: string, temp: Path)
    requires temp != [] && Parent(temp) == TargetDir(env, k)
    ensures ObjectsDir(env.root) < temp && temp != Sidecar(env, k)
  {
    TargetsOrdered(env, k, k);
    SidecarAway(env, k, k);
    hide Split, MetadataPath;
    var d, p := ObjectsDir(env.root), Target(env, k);
    assert |p| > |d| && d == p[..|d|];
    assert d == Parent(p)[..|d|];
    assert temp[..|temp| - 1] == Parent(p);
    assert d == temp[..|d|];
  }

  /** No two keys in play share a metadata file. */
  ghost predicate SumsDiffer(env: Env, keys: set<string>) {
    forall a, b :: a in keys && b in keys && env.sums.key(a) == env.sums.key(b) ==> a == b
  }

  /** A key with a different sum has a different sidecar. */
  lemma SidecarsDiffer(env: Env, a: string, b: string)
    requires Sidecar(env, a) == Sidecar(env, b)
    ensures env.sums.key(a) == env.sums.key(b)
  {
    assert Sidecar(env, a)[|MetadataDir(env.root)|] == env.sums.key(a);
    assert Sidecar(env, b)[|MetadataDir(env.root)|] == env.sums.key(b);
  }

  lemma OtherObjectKept(env: Env, t: Tree, m: Memory, k: string, body: seq<byte>, ct: string, temp: Path, j: string)
    requires Faithful(env, t, m) && TempOk(env, t, k, temp) && SumsDiffer(env, m.Keys + {k})
    requires j in m && j != k
    ensures HoldsObject(env, PutTree(env, t, k, body, ct, temp), j, m[j])
  {
    TargetsOrdered(env, j, k);
    SidecarAway(env, k, j);
    SidecarAway(env, j, k);
    if Sidecar(env, j) == Sidecar(env, k) {
      SidecarsDiffer(env, j, k);
    }
    PutTreeAt(env, t, k, body, ct, temp, Target(env, j));
    PutTreeAt(env, t, k, body, ct, temp, Sidecar(env, j));
    assert HoldsObject(env, t, j, m[j]);
    hide PutTree, Split, ObjectPath, MetadataPath, Faithful, TempOk;
  }

  lemma NewObjectHeld(env: Env, t: Tree, k: string, body: seq<byte>, ct: string, temp: Path)
    requires TempOk(env, t, k, temp)
    ensures HoldsObject(env, PutTree(env, t, k, body, ct, temp), k, MemoryObject(body, Described(env, k, body, ct)))
            <==> Survives(env.codec, Described(env, k, body, ct))
  {
    SidecarAway(env, k, k);
    PutTreeAt(env, t, k, body, ct, temp, Target(env, k));
    PutTreeAt(env, t, k, body, ct, temp, Sidecar(env, k));
    hide PutTree, Split, ObjectPath, MetadataPath, TempOk;
  }

  lemma PutDirsKept(env: Env, t: Tree, m: Memory, k: string, body: seq<byte>, ct: string, temp: Path)
    requires Faithful(env, t, m) && TempOk(env, t, k, temp)
    ensures var t' := PutTree(env, t, k, body, ct, temp);
            && CanBeDir(t', ObjectsDir(env.root)) && CanBeDir(t', MetadataDir(env.root))
            && (forall p :: p in t' && MetadataDir(env.root) < p ==> t'[p].File?)
  {
    var t' := PutTree(env, t, k, body, ct, temp);
    SidecarAway(env, k, k);
    TargetsOrdered(env, k, k);
    hide PutTree, Split, ObjectPath, MetadataPath, TempOk, HoldsObject, ObjectsDir, MetadataDir;
    forall q | q in t' && (q in Prefixes(ObjectsDir(env.root)) || q in Prefixes(MetadataDir(env.root)))
      ensures t'[q].Dir?
    {
      PutTreeAt(env, t, k, body, ct, temp, q);
    }
    forall p | p in t' && MetadataDir(env.root) < p
      ensures t'[p].File?
    {
      PutTreeAt(env, t, k, body, ct, temp, p);
      MetadataElsewhere(env, k, p);
    }
  }

  lemma PutFilesKnown(env: Env, t: Tree, m: Memory, m': Memory, k: string, body: seq<byte>, ct: string, temp: Path,
                      p: Path)
    requires Faithful(env, t, m) && TempOk(env, t, k, temp) && m'.Keys == m.Keys + {k}
    requires var t' := PutTree(env, t, k, body, ct, temp); p in t' && t'[p].File? && ObjectsDir(env.root) < p
    ensures exists j :: j in m' && p == Target(env, j)
  {
    hide PutTree, Split, ObjectPath, MetadataPath, TempOk, HoldsObject, Acceptable, CanBeDir, Described, ObjectsDir;
    SidecarAway(env, k, k);
    PutTreeAt(env, t, k, body, ct, temp, p);
    if p == Target(env, k) {
      assert k in m';
    } else {
      var j :| j in m && p == Target(env, j);
      assert j in m';
    }
  }

  /** A successful Put leaves a faithful tree for the updated memory if and only if the metadata survives the codec. */
  lemma PutKeepsFaithful(env: Env, t: Tree, m: Memory, k: string, body: seq<byte>, ct: string, temp: Path)
    requires Faithful(env, t, m) && Acceptable(k) && SumsDiffer(env, m.Keys + {k})
    requires TempOk(env, t, k, temp)
    ensures Faithful(env, PutTree(env, t, k, body, ct, temp), m[k := MemoryObject(body, Described(env, k, body, ct))])
            <==> Survives(env.codec, Described(env, k, body, ct))
  {
    hide PutTree, Split, ObjectPath, MetadataPath, TempOk, HoldsObject, Acceptable, CanBeDir, Described, ObjectsDir,
      MetadataDir, SumsDiffer, Survives;
    var t', m' := PutTree(env, t, k, body, ct, temp), m[k := MemoryObject(body, Described(env, k, body, ct))];
    PutDirsKept(env, t, m, k, body, ct, temp);
    NewObjectHeld(env, t, k, body, ct, temp);
    assert k in m' && m'[k] == MemoryObject(body, Described(env, k, body, ct));
    forall j | j in m'
      ensures Acceptable(j) && (j != k ==> HoldsObject(env, t', j, m'[j]))
    {
      if j != k {
        OtherObjectKept(env, t, m, k, body, ct, temp, j);
      }
    }
    assert m'.Keys == m.Keys + {k};
    forall p | p in t' && t'[p].File? && ObjectsDir(env.root) < p
      ensures exists j :: j in m' && p == Target(env, j)
    {
      PutFilesKnown(env, t, m, m', k, body, ct, temp, p);
    }
  }

  /** New directories on the way to an object do not disturb a faithful tree. */
  lemma DirsKeepFaithful(env: Env, t: Tree, m: Memory, k: string)
    requires Faithful(env, t, m)
    ensures Faithful(env, WithDirs(t, TargetDir(env, k)), m)
  {
    hide Split, Target, Sidecar, Acceptable, ObjectsDir, MetadataDir, TargetDir, HoldsObject, Prefixes;
    var t' := WithDirs(t, TargetDir(env, k));
    forall p | p in t' && MetadataDir(env.root) < p
      ensures t'[p].File?
    {
      MetadataElsewhere(env, k, p);
    }
    forall j | j in m
      ensures HoldsObject(env, t', j, m[j])
    {
      DirsKeepObject(env, t, k, j, m[j]);
    }
  }

  lemma DirsKeepObject(env: Env, t: Tree, k: string, j: string, o: MemoryObject)
    requires HoldsObject(env, t, j, o)
    ensures HoldsObject(env, WithDirs(t, TargetDir(env, k)), j, o)
  {
    hide Target, Sidecar, TargetDir, Prefixes, Labelled;
  }

  /** What Put does to a faithful tree, case by case. */
  lemma PutOutcome(env: Env, t: Tree, m: Memory, k: string, body: seq<byte>, ct: string, temp: Draw)
    requires Faithful(env, t, m) && Acceptable(k)
    ensures FileOp(env, t, Put(k, body, true, ct, temp)) ==
            if Clash(m, k) then (t, Failed(ParentFailed))
            else if Shadowed(env, t, k) then (WithDirs(t, TargetDir(env, k)), Failed(ReplaceFailed))
            else (PutTree(env, t, k, body, ct, TempPath(TargetDir(env, k), temp)), Stored(Described(env, k, body, ct)))
  {
    hide Split, NormalizeKey, PutTree, Clash, Acceptable, TargetDir, TempPath, Replaced, HoldsObject, Target, Sidecar,
      Described;
    NormalizeExact(k);
    ParentMakeable(env, t, m, k);
    SidecarReachable(env, t, m, k);
  }

  /** Put stores the object if and only if no stored key is a proper segment-prefix of its key and no directory
      stands in its place; then the tree is faithful to the updated memory if and only if the metadata survives the
      codec. */
  lemma PutAgrees(env: Env, t: Tree, m: Memory, k: string, body: seq<byte>, ct: string, temp: Draw)
    requires Faithful(env, t, m) && Acceptable(k) && SumsDiffer(env, m.Keys + {k})
    requires TempOk(env, t, k, TempPath(TargetDir(env, k), temp))
    ensures var (t', a) := FileOp(env, t, Put(k, body, true, ct, temp));
            var (m', b) := MemoryOp(env, m, Put(k, body, true, ct, temp));
            && (a == b <==> !Clash(m, k) && !Shadowed(env, t, k))
            && (a == b ==> (Faithful(env, t', m') <==> Survives(env.codec, Described(env, k, body, ct))))
  {
    hide Split, NormalizeKey, PutTree, Clash, Acceptable, TempOk, TargetDir, TempPath, FileOp, Faithful, Shadowed,
      Survives, SumsDiffer, Described;
    NormalizeExact(k);
    PutOutcome(env, t, m, k, body, ct, temp);
    PutKeepsFaithful(env, t, m, k, body, ct, TempPath(TargetDir(env, k), temp));
  }

  /** A Put whose body cannot be read to its end changes nothing in either store. */
  lemma BrokenPutAgrees(env: Env, t: Tree, m: Memory, k: string, body: seq<byte>, ct: string, temp: Draw)
    requires Faithful(env, t, m) && Acceptable(k) && !Clash(m, k)
    ensures var (t', a) := FileOp(env, t, Put(k, body, false, ct, temp));
            var (m', b) := MemoryOp(env, m, Put(k, body, false, ct, temp));
            a == b == Failed(CopyFailed) && m' == m && t' == WithDirs(t, TargetDir(env, k)) && Faithful(env, t', m')
  {
    NormalizeExact(k);
    ParentMakeable(env, t, m, k);
    DirsKeepFaithful(env, t, m, k);
    hide Split, NormalizeKey, PutTree, Clash, Acceptable, TargetDir, TempPath, Replaced, Faithful;
  }

  // ------------------------------------------------------------------
  // Delete
  // ------------------------------------------------------------------

  lemma OtherObjectLeft(env: Env, t: Tree, m: Memory, k: string, j: string)
    requires Faithful(env, t, m) && SumsDiffer(env, m.Keys + {k}) && j in m && j != k
    ensures HoldsObject(env, t - {Target(env, k), Sidecar(env, k)}, j, m[j])
  {
    hide Split, Target, Sidecar, Acceptable, CanBeDir, ObjectsDir, MetadataDir;
    TargetsOrdered(env, j, k);
    SidecarAway(env, k, j);
    SidecarAway(env, j, k);
    if Sidecar(env, j) == Sidecar(env, k) {
      SidecarsDiffer(env, j, k);
    }
    assert HoldsObject(env, t, j, m[j]);
  }

  /** Taking away an object and its sidecar leaves a faithful tree for the memory without it. */
  lemma RemovalKeepsFaithful(env: Env, t: Tree, m: Memory, k: string)
    requires Faithful(env, t, m) && SumsDiffer(env, m.Keys + {k})
    ensures Faithful(env, t - {Target(env, k), Sidecar(env, k)}, m - {k})
  {
    var t', m' := t - {Target(env, k), Sidecar(env, k)}, m - {k};
    hide Split, ObjectPath, MetadataPath, Acceptable, HoldsObject, SumsDiffer, ObjectsDir, MetadataDir, Sidecar;
    forall j | j in m'
      ensures HoldsObject(env, t', j, m'[j])
    {
      OtherObjectLeft(env, t, m, k, j);
    }
    forall p | p in t' && t'[p].File? && ObjectsDir(env.root) < p
      ensures exists j :: j in m' && p == Target(env, j)
    {
      var j :| j in m && p == Target(env, j);
      assert j in m';
    }
  }

  /** What FileDelete does when nothing is in the way. */
  lemma DeleteRemovesBoth(env: Env, t: Tree, k: string)
    requires RemoveError(t, Target(env, k)) == None || RemoveError(t, Target(env, k)) == Some(NotExist)
    requires !Blocked(t, Sidecar(env, k)) && (Sidecar(env, k) in t ==> t[Sidecar(env, k)].File?)
    requires Target(env, k) != Sidecar(env, k)
    ensures FileDelete(env, t, k) == (t - {Target(env, k), Sidecar(env, k)}, Deleted)
  {
    var p, q := Target(env, k), Sidecar(env, k);
    UnblockedWithout(t, p, q);
    hide Blocked, Target, Sidecar, IsEmptyDir;
    assert t - {p} - {q} == t - {p, q};
    assert p !in t ==> t - {p, q} == t - {q};
    assert q !in t ==> t - {p, q} == t - {p};
    assert p !in t && q !in t ==> t - {p, q} == t;
  }

  /** Delete succeeds, as it always does in memory, if and only if no stored key is a proper segment-prefix of its
      key and no directory with anything in it stands in its place; then the tree is faithful to the reduced memory. */
  lemma DeleteAgrees(env: Env, t: Tree, m: Memory, k: string)
    requires Faithful(env, t, m) && Acceptable(k) && SumsDiffer(env, m.Keys + {k})
    ensures var (t', a) := FileOp(env, t, Op.Delete(false, k));
            var (m', b) := MemoryOp(env, m, Op.Delete(false, k));
            && (a == b <==> !Clash(m, k) && (Shadowed(env, t, k) ==> IsEmptyDir(t, Target(env, k))))
            && (a == b ==> Faithful(env, t', m') && t' == t - {Target(env, k), Sidecar(env, k)})
  {
    hide Split, NormalizeKey, Clash, Acceptable, Faithful, Target, Sidecar, Blocked, IsEmptyDir, SumsDiffer;
    NormalizeExact(k);
    BlockedIffClash(env, t, m, k);
    RemovalKeepsFaithful(env, t, m, k);
    SidecarReachable(env, t, m, k);
    SidecarAway(env, k, k);
    if !Clash(m, k) {
      TargetIs(env, t, m, k);
      if Shadowed(env, t, k) ==> IsEmptyDir(t, Target(env, k)) {
        DeleteRemovesBoth(env, t, k);
      }
    }
  }

  lemma UnblockedWithout(t: Tree, p: Path, q: Path)
    requires !Blocked(t, q)
    ensures !Blocked(t - {p}, q)
  {
  }

  /** What the rename changes: a new file at the target and no other. */
  lemma ReplacedAt(env: Env, t: Tree, k: string, body: seq<byte>, temp: Path)
    requires TempOk(env, t, k, temp)
    ensures var t' := Replaced(env, t, k, body, temp);
            && Target(env, k) in t' && t'[Target(env, k)] == File(body)
            && (forall p :: p in t && p != Target(env, k) ==> p in t' && t'[p] == t[p])
            && (forall p :: p in t' && t'[p].File? && p != Target(env, k) ==> p in t && t[p].File?)
  {
    hide Split, ObjectPath, Prefixes;
  }

  lemma UnblockedReplaced(env: Env, t: Tree, k: string, body: seq<byte>, temp: Path)
    requires TempOk(env, t, k, temp)
    ensures !Blocked(t, Target(env, k)) ==> !Blocked(Replaced(env, t, k, body, temp), Target(env, k))
    ensures !Blocked(t, Sidecar(env, k)) ==> !Blocked(Replaced(env, t, k, body, temp), Sidecar(env, k))
  {
    ReplacedAt(env, t, k, body, temp);
    SidecarAway(env, k, k);
    var p, q := Target(env, k), Sidecar(env, k);
    hide Replaced, Target, Sidecar, TempOk;
    assert forall i :: 0 <= i < |q| ==> q[..i] <= Parent(q);
    assert forall i :: 0 <= i < |q| ==> q[..i] != p;
    assert forall i :: 0 <= i < |p| ==> p[..i] != p;
  }

  // ------------------------------------------------------------------
  // Whole runs
  // ------------------------------------------------------------------

  /** The keys a run uses: none is a proper segment-prefix of another, and no two share a sum. */
  ghost predicate Usable(env: Env, keys: set<string>) {
    && (forall k :: k in keys ==> Acceptable(k))
    && (forall a, b :: a in keys && b in keys ==> !(Split(a, '/') < Split(b, '/')))
    && SumsDiffer(env, keys)
  }

  /** A temporary name that is neither a key of the run nor on the way to one: it is free throughout. */
  ghost predicate FreshTemp(env: Env, keys: set<string>, temp: Path) {
    forall k :: k in keys ==> !(temp <= Target(env, k))
  }

  /** A call made on the tree `t`: its key is among the keys if it is acceptable at all; the temporary name of a Put
      is free and not the object's own, and the metadata of what it stores survives the codec. */
  ghost predicate OpOk(env: Env, keys: set<string>, t: Tree, op: Op) {
    && (Acceptable(op.key) ==> op.key in keys)
    && (op.Put? && op.key in keys ==>
          && TempOk(env, t, op.key, TempPath(TargetDir(env, op.key), op.temp))
          && (op.complete ==> Survives(env.codec, Described(env, op.key, op.body, op.contentType))))
  }

  /** Every call of a run is such a call on the tree that the ones before it leave. */
  ghost predicate RunOk(env: Env, keys: set<string>, t: Tree, ops: seq<Op>)
    decreases |ops|
  {
    ops == [] || (OpOk(env, keys, t, ops[0]) && RunOk(env, keys, FileOp(env, t, ops[0]).0, ops[1..]))
  }

  /** Every directory below the objects directory is on the way to a key. */
  ghost predicate DirsLead(env: Env, keys: set<string>, t: Tree) {
    forall p :: p in t && t[p].Dir? && ObjectsDir(env.root) < p ==> exists k :: k in keys && p < Target(env, k)
  }

  ghost predicate RunInv(env: Env, keys: set<string>, t: Tree, m: Memory) {
    Faithful(env, t, m) && m.Keys <= keys && DirsLead(env, keys, t)
  }

  lemma NoClash(env: Env, keys: set<string>, t: Tree, m: Memory, k: string)
    requires Usable(env, keys) && RunInv(env, keys, t, m) && k in keys
    ensures !Clash(m, k) && !Shadowed(env, t, k)
  {
    hide Split, Target, Faithful;
    if Shadowed(env, t, k) {
      TargetsOrdered(env, k, k);
      var j :| j in keys && Target(env, k) < Target(env, j);
      TargetsOrdered(env, k, j);
    }
  }

  lemma TempIsOk(env: Env, keys: set<string>, t: Tree, m: Memory, k: string, temp: Draw)
    requires RunInv(env, keys, t, m) && k in keys
    requires FreshTemp(env, keys, TempPath(TargetDir(env, k), temp))
    ensures TempOk(env, t, k, TempPath(TargetDir(env, k), temp))
  {
    var p := TempPath(TargetDir(env, k), temp);
    assert Parent(p) == TargetDir(env, k);
    TempAway(env, k, p);
    assert !(p <= Target(env, k));
    hide Split, ObjectPath, HoldsObject, CanBeDir, ObjectsDir, MetadataDir, TargetDir, TempPath;
  }

  lemma DirsStillLead(env: Env, keys: set<string>, t: Tree, k: string)
    requires DirsLead(env, keys, t) && k in keys
    ensures DirsLead(env, keys, WithDirs(t, TargetDir(env, k)))
  {
    var t' := WithDirs(t, TargetDir(env, k));
    TargetsOrdered(env, k, k);
    hide Split, ObjectPath, ObjectsDir;
    forall p | p in t' && t'[p].Dir? && ObjectsDir(env.root) < p
      ensures exists j :: j in keys && p < Target(env, j)
    {
      if p !in t {
        assert p <= TargetDir(env, k);
        assert p < Target(env, k) by { BelowParent(p, Target(env, k)); }
      } else {
        var j :| j in keys && p < Target(env, j);
      }
    }
  }

  lemma BelowParent(p: Path, q: Path)
    requires q != [] && p <= Parent(q)
    ensures p < q
  {
  }

  lemma PutDirsLead(env: Env, keys: set<string>, t: Tree, k: string, body: seq<byte>, ct: string, temp: Path)
    requires DirsLead(env, keys, t) && k in keys && TempOk(env, t, k, temp)
    ensures DirsLead(env, keys, PutTree(env, t, k, body, ct, temp))
  {
    var t' := PutTree(env, t, k, body, ct, temp);
    SidecarAway(env, k, k);
    hide PutTree, Split, ObjectPath, TempOk, Described;
    forall p | p in t' && t'[p].Dir? && ObjectsDir(env.root) < p
      ensures exists j :: j in keys && p < Target(env, j)
    {
      PutTreeAt(env, t, k, body, ct, temp, p);
      if p in t {
        var j :| j in keys && p < Target(env, j);
      } else if p <= TargetDir(env, k) {
        BelowParent(p, Target(env, k));
      } else {
        ObjectsNotOnTheWay(env, p);
      }
    }
  }

  lemma ObjectsNotOnTheWay(env: Env, p: Path)
    requires ObjectsDir(env.root) < p
    ensures !(p <= MetadataDir(env.root))
  {
    var r := |env.root| + 1;
    assert p[r] == ObjectsDir(env.root)[r] == "objects" && MetadataDir(env.root)[r] == "metadata";
  }

  lemma StepSimulates(env: Env, keys: set<string>, t: Tree, m: Memory, op: Op)
    requires Usable(env, keys) && RunInv(env, keys, t, m) && OpOk(env, keys, t, op)
    ensures var (t', a) := FileOp(env, t, op); var (m', b) := MemoryOp(env, m, op);
            a == b && RunInv(env, keys, t', m')
  {
    hide Split, Acceptable, Clash, Faithful, Target, HoldsObject, FilePut, FileDelete, FileStat, NormalizeKey, DirsLead,
      TempOk, Shadowed, Survives, IsEmptyDir;
    NormalizeExact(op.key);
    if Acceptable(op.key) {
      var k := op.key;
      NoClash(env, keys, t, m, k);
      assert SumsDiffer(env, m.Keys + {k});
      match op
      case Put(_, body, complete, ct, temp) =>
        if complete {
          PutAgrees(env, t, m, k, body, ct, temp);
          PutOutcome(env, t, m, k, body, ct, temp);
          PutDirsLead(env, keys, t, k, body, ct, TempPath(TargetDir(env, k), temp));
        } else {
          BrokenPutAgrees(env, t, m, k, body, ct, temp);
          DirsStillLead(env, keys, t, k);
        }
      case Get(cancelled, _) => ReadsAgree(env, t, m, k); CancelledReads(env, t, m, k);
      case Stat(cancelled, _) => ReadsAgree(env, t, m, k); CancelledReads(env, t, m, k);
      case Delete(cancelled, _) =>
        DeleteAgrees(env, t, m, k);
        FewerDirsLead(env, keys, t, {Target(env, k), Sidecar(env, k)});
    } else {
      RejectedAlike(env, t, m, op);
    }
  }

  lemma CancelledReads(env: Env, t: Tree, m: Memory, k: string)
    ensures FileOp(env, t, Op.Get(true, k)) == (t, Failed(Cancelled))
            && MemoryOp(env, m, Op.Get(true, k)) == (m, Failed(Cancelled))
    ensures FileOp(env, t, Op.Stat(true, k)) == (t, Failed(Cancelled))
            && MemoryOp(env, m, Op.Stat(true, k)) == (m, Failed(Cancelled))
    ensures FileOp(env, t, Op.Get(false, k)).0 == t && FileOp(env, t, Op.Stat(false, k)).0 == t
  {
  }

  lemma FewerDirsLead(env: Env, keys: set<string>, t: Tree, gone: set<Path>)
    requires DirsLead(env, keys, t)
    ensures DirsLead(env, keys, t - gone)
  {
  }

  lemma RejectedAlike(env: Env, t: Tree, m: Memory, op: Op)
    requires NormalizeKey(op.key).Err?
    ensures FileOp(env, t, op).0 == t && MemoryOp(env, m, op).0 == m && FileOp(env, t, op).1 == MemoryOp(env, m, op).1
  {
    hide NormalizeKey;
  }

  function FileRun(env: Env, t: Tree, ops: seq<Op>): seq<Answer>
    decreases |ops|
  {
    if ops == [] then [] else var (t', a) := FileOp(env, t, ops[0]); [a] + FileRun(env, t', ops[1..])
  }

  function MemoryRun(env: Env, m: Memory, ops: seq<Op>): seq<Answer>
    decreases |ops|
  {
    if ops == [] then [] else var (m', a) := MemoryOp(env, m, ops[0]); [a] + MemoryRun(env, m', ops[1..])
  }

  /** Over any run with prefix-free keys the two stores give the same answers: bodies, sizes, content types, ETags,
      and every refusal. */
  lemma {:induction false} RunSimulates(env: Env, keys: set<string>, t: Tree, m: Memory, ops: seq<Op>)
    requires Usable(env, keys) && RunInv(env, keys, t, m) && RunOk(env, keys, t, ops)
    ensures FileRun(env, t, ops) == MemoryRun(env, m, ops)
    decreases |ops|
  {
    hide Usable, RunInv, OpOk, FileOp, MemoryOp;
    if ops != [] {
      StepSimulates(env, keys, t, m, ops[0]);
      var (t', a) := FileOp(env, t, ops[0]);
      var (m', b) := MemoryOp(env, m, ops[0]);
      RunSimulates(env, keys, t', m', ops[1..]);
    }
  }

  /** A store whose directories can be made and hold nothing yet. */
  ghost predicate NeverUsed(env: Env, t: Tree) {
    && CanBeDir(t, ObjectsDir(env.root)) && CanBeDir(t, MetadataDir(env.root))
    && (forall p :: p in t ==> !(ObjectsDir(env.root) < p) && !(MetadataDir(env.root) < p))
  }

  /** A root whose store has never been used represents the empty memory. */
  lemma FreshStore(env: Env, keys: set<string>, t: Tree)
    requires NeverUsed(env, t)
    ensures RunInv(env, keys, t, map[])
  {
  }
}
