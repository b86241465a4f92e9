/** What one call of the file store (blobx/file.go) means for the next, on
    every directory tree: foreign files, stale metadata and clashing keys
    included. */
module BlobLaws {
  import opened Text
  import opened Keys
  import opened FileSystem
  import opened Blob
  import B = BlobSimulation

  /** The new directories and the removals of a call do not show at `p`. */
  predicate SameAt(t: Tree, t': Tree, p: Path) {
    Resolve(t', p) == Resolve(t, p) || (Resolve(t, p) == Err(NotExist) && Resolve(t', p) == Ok(Dir))
  }

  lemma SameAnswers(env: Env, t: Tree, t': Tree, j: string)
    requires Acceptable(j) && SameAt(t, t', Target(env, j))
             && Resolve(t', Sidecar(env, j)) == Resolve(t, Sidecar(env, j))
    ensures FileStat(env, t', false, j) == FileStat(env, t, false, j)
    ensures FileGet(env, t', false, j) == FileGet(env, t, false, j)
  {
    NormalizeExact(j);
    hide Split, NormalizeKey, Acceptable, Target, Sidecar, Resolve;
  }

  /** Whether anything is in the way of `p` depends only on the files above it. */
  lemma SameWay(t: Tree, t': Tree, p: Path)
    requires forall q :: q < p ==> (q in t && t[q].File? <==> q in t' && t'[q].File?)
    ensures Blocked(t, p) <==> Blocked(t', p)
  {
    forall i | 0 <= i < |p|
      ensures p[..i] in t && t[p[..i]].File? <==> p[..i] in t' && t'[p[..i]].File?
    {
      assert p[..i] < p;
    }
  }

  lemma ClearWay(t: Tree, p: Path)
    requires forall q :: q < p && q in t ==> t[q].Dir?
    ensures !Blocked(t, p)
  {
    forall i | 0 <= i < |p| && p[..i] in t
      ensures t[p[..i]].Dir?
    {
      assert p[..i] < p;
    }
  }

  lemma Above(q: Path, p: Path)
    requires q < p
    ensures p != [] && q <= Parent(p)
  {
  }

  // ------------------------------------------------------------------
  // After a Put
  // ------------------------------------------------------------------

  /** A Put that reports success has done it in full. */
  lemma StoredMeans(env: Env, t: Tree, k: string, body: seq<byte>, complete: bool, ct: string, temp: Path)
    requires FilePut(env, t, k, body, complete, ct, temp).1.Stored?
    ensures FilePut(env, t, k, body, complete, ct, temp).0 == PutTree(env, t, k, body, ct, temp)
    ensures CanBeDir(t, TargetDir(env, k)) && CanBeDir(t, MetadataDir(env.root))
  {
    hide PutTree, Replaced, CanBeDir;
  }

  lemma TargetClear(env: Env, t: Tree, k: string, body: seq<byte>, ct: string, temp: Path)
    requires B.TempOk(env, t, k, temp) && CanBeDir(t, TargetDir(env, k))
    ensures !Blocked(PutTree(env, t, k, body, ct, temp), Target(env, k))
  {
    var t', p := PutTree(env, t, k, body, ct, temp), Target(env, k);
    B.SidecarAway(env, k, k);
    hide PutTree, Split, ObjectPath, MetadataPath, B.TempOk, Described;
    forall q | q < p && q in t'
      ensures t'[q].Dir?
    {
      Above(q, p);
      B.PutTreeAt(env, t, k, body, ct, temp, q);
      if q == Sidecar(env, k) {
        B.MetadataElsewhere(env, k, q);
      }
      assert q in Prefixes(TargetDir(env, k));
    }
    ClearWay(t', p);
  }

  lemma SidecarClear(env: Env, t: Tree, k: string, body: seq<byte>, ct: string, temp: Path)
    requires B.TempOk(env, t, k, temp) && CanBeDir(t, MetadataDir(env.root))
    ensures !Blocked(PutTree(env, t, k, body, ct, temp), Sidecar(env, k))
  {
    var t', p := PutTree(env, t, k, body, ct, temp), Sidecar(env, k);
    B.SidecarAway(env, k, k);
    hide PutTree, Split, ObjectPath, MetadataPath, B.TempOk, Described, MetadataDir, ObjectsDir;
    forall q | q < p && q in t'
      ensures t'[q].Dir?
    {
      Above(q, p);
      B.PutTreeAt(env, t, k, body, ct, temp, q);
      assert q in Prefixes(MetadataDir(env.root));
    }
    ClearWay(t', p);
  }

  /** A name drawn for the temporary file of `k` on the tree `t`. */
  predicate DrawnFor(env: Env, t: Tree, k: string, temp: Path) {
    temp !in t && temp != [] && Parent(temp) == TargetDir(env, k)
  }

  lemma KeptAfterPut(env: Env, t: Tree, k: string, body: seq<byte>, ct: string, temp: Path)
    requires Acceptable(k) && B.TempOk(env, t, k, temp)
    requires CanBeDir(t, TargetDir(env, k)) && CanBeDir(t, MetadataDir(env.root))
    ensures FileGet(env, PutTree(env, t, k, body, ct, temp), false, k)
            == Ok((body, Labelled(k, |body|, env.codec.decode(env.codec.encode(Described(env, k, body, ct))))))
  {
    NormalizeExact(k);
    TargetClear(env, t, k, body, ct, temp);
    SidecarClear(env, t, k, body, ct, temp);
    B.PutTreeAt(env, t, k, body, ct, temp, Target(env, k));
    B.PutTreeAt(env, t, k, body, ct, temp, Sidecar(env, k));
    B.SidecarAway(env, k, k);
    hide PutTree, Split, NormalizeKey, Acceptable, Target, Sidecar, Blocked, B.TempOk, CanBeDir, Described, Labelled;
  }

  /** The last thing that Put does is to remove the temporary name. */
  lemma LostAfterPut(env: Env, t: Tree, k: string, body: seq<byte>, ct: string)
    requires Acceptable(k) && CanBeDir(t, TargetDir(env, k))
    ensures FileGet(env, PutTree(env, t, k, body, ct, Target(env, k)), false, k) == Err(NotFound)
  {
    NormalizeExact(k);
    var p := Target(env, k);
    var t' := PutTree(env, t, k, body, ct, p);
    B.SidecarAway(env, k, k);
    hide Split, ObjectPath, MetadataPath, Described, NormalizeKey, Acceptable;
    forall q | q < p && q in t'
      ensures t'[q].Dir?
    {
      Above(q, p);
      assert q in Prefixes(TargetDir(env, k));
      if q == Sidecar(env, k) {
        B.MetadataElsewhere(env, k, q);
      }
    }
    ClearWay(t', p);
  }

  /** What Get returns after a Put that reports success, whatever the tree, the codec and the name drawn: the body
      with its size and what the codec makes of its metadata, unless the name drawn was the object's own; then
      nothing. */
  lemma PutThenGet(env: Env, t: Tree, k: string, body: seq<byte>, complete: bool, ct: string, temp: Path)
    requires Acceptable(k) && DrawnFor(env, t, k, temp) && FilePut(env, t, k, body, complete, ct, temp).1.Stored?
    ensures var info := Described(env, k, body, ct); var after := FilePut(env, t, k, body, complete, ct, temp).0;
            && FileGet(env, after, false, k) ==
               (if temp == Target(env, k) then Err(NotFound)
                else Ok((body, Labelled(k, |body|, env.codec.decode(env.codec.encode(info))))))
            && (FileGet(env, after, false, k) == Ok((body, Object(k, |body|, ct, env.sums.body(body))))
                <==> temp != Target(env, k) && Survives(env.codec, info))
  {
    StoredMeans(env, t, k, body, complete, ct, temp);
    if temp == Target(env, k) {
      LostAfterPut(env, t, k, body, ct);
    } else {
      KeptAfterPut(env, t, k, body, ct, temp);
    }
    hide FilePut, FileGet, PutTree, Acceptable, CanBeDir, Target, Labelled;
  }

  // ------------------------------------------------------------------
  // Keys that a Put can lose
  // ------------------------------------------------------------------

  function LastSegment(k: string): string {
    Split(k, '/')[|Split(k, '/')| - 1]
  }

  /** An object whose own name could be drawn for its temporary file. */
  predicate LooksTemporary(k: string) {
    IsTempName(LastSegment(k))
  }

  lemma LastOfTarget(env: Env, k: string)
    ensures Target(env, k) == TargetDir(env, k) + [LastSegment(k)]
  {
    var p := Target(env, k);
    assert p[|p| - 1] == LastSegment(k);
    assert p == p[..|p| - 1] + [p[|p| - 1]];
  }

  /** Some name makes the temporary path the object's own if and only if the key looks temporary. */
  lemma OwnNameDrawable(env: Env, k: string)
    ensures (exists name: Draw :: TempPath(TargetDir(env, k), name) == Target(env, k)) <==> LooksTemporary(k)
  {
    LastOfTarget(env, k);
    var dir, last := TargetDir(env, k), LastSegment(k);
    hide TargetDir, Target, LastSegment, TempName, IsTempName;
    if LooksTemporary(k) {
      var n := DrawOf(last);
      assert TempPath(dir, n) == Target(env, k);
    }
    if n: Draw :| TempPath(dir, n) == Target(env, k) {
      TempNameIs(n);
      assert Target(env, k)[|dir|] == last && TempPath(dir, n)[|dir|] == TempName(n);
    }
  }

  /** Nothing in the tree keeps a Put of `k` from succeeding. */
  predicate CanStore(env: Env, t: Tree, k: string) {
    && CanBeDir(t, TargetDir(env, k)) && !B.Shadowed(env, t, k)
    && CanBeDir(t, MetadataDir(env.root)) && !(Sidecar(env, k) in t && t[Sidecar(env, k)].Dir?)
  }

  /** Drawing `name`, Put reports that the object is stored, and the next Get does not find it. */
  ghost predicate Loses(env: Env, t: Tree, k: string, body: seq<byte>, ct: string, name: Draw) {
    && TempPath(TargetDir(env, k), name) !in t
    && (var (t', a) := FileOp(env, t, Put(k, body, true, ct, name));
        a.Stored? && FileOp(env, t', Op.Get(false, k)).1 == Failed(NotFound))
  }

  lemma LosesMeans(env: Env, t: Tree, k: string, body: seq<byte>, ct: string, name: Draw)
    requires Acceptable(k)
    ensures Loses(env, t, k, body, ct, name)
            <==> CanStore(env, t, k) && TempPath(TargetDir(env, k), name) == Target(env, k) && Target(env, k) !in t
  {
    NormalizeExact(k);
    var temp := TempPath(TargetDir(env, k), name);
    assert Parent(temp) == TargetDir(env, k);
    assert FilePut(env, t, k, body, true, ct, temp).1.Stored? <==> CanStore(env, t, k) by {
      hide Target, Sidecar, CanBeDir, MetadataDir, Acceptable, NormalizeKey, TempPath, TargetDir, PutTree, Replaced;
    }
    hide FilePut, FileGet, Target, TargetDir, CanStore, Acceptable, NormalizeKey, TempPath, Labelled, Survives;
    if temp !in t && FilePut(env, t, k, body, true, ct, temp).1.Stored? {
      PutThenGet(env, t, k, body, true, ct, temp);
    }
  }

  /** Put can lose an object, for some name drawn, if and only if nothing else keeps it from succeeding, the last
      segment of its key could be drawn, and there is no such object yet.  So no other key is ever lost. */
  lemma LostIff(env: Env, t: Tree, k: string, body: seq<byte>, ct: string)
    requires Acceptable(k)
    ensures (exists name: Draw :: Loses(env, t, k, body, ct, name))
            <==> CanStore(env, t, k) && LooksTemporary(k) && Target(env, k) !in t
  {
    hide Loses, Target, CanStore, TempPath, TargetDir, LooksTemporary, Acceptable;
    OwnNameDrawable(env, k);
    forall name: Draw
      ensures Loses(env, t, k, body, ct, name)
              <==> CanStore(env, t, k) && TempPath(TargetDir(env, k), name) == Target(env, k) && Target(env, k) !in t
    {
      LosesMeans(env, t, k, body, ct, name);
    }
  }

  /** One such key, in a store that has never been used. */
  lemma LostObject(env: Env, t: Tree, body: seq<byte>, ct: string)
    requires B.NeverUsed(env, t)
    ensures Acceptable(".blobx-1") && Loses(env, t, ".blobx-1", body, ct, 1)
  {
    hide Split, ObjectsDir, MetadataDir, Target, Sidecar, TargetDir, Acceptable, TempPath, Loses, Prefixes;
    var k := ".blobx-1";
    TemporaryLookingKey();
    OneSegment(env, k);
    B.SidecarAway(env, k, k);
    TemporaryLookingPath(env);
    LosesMeans(env, t, k, body, ct, 1);
  }

  lemma TemporaryLookingPath(env: Env)
    ensures TempPath(ObjectsDir(env.root), 1) == ObjectsDir(env.root) + [".blobx-1"]
  {
    hide ObjectsDir;
    assert Decimal(1) == "1";
    var a, b := ".blobx-" + "1", ".blobx-1";
    assert |a| == |b| && a[..7] == b[..7] && a[7] == b[7];
    assert a == a[..7] + [a[7]] && b == b[..7] + [b[7]];
  }

  lemma TemporaryLookingKey()
    ensures Acceptable(".blobx-1") && Split(".blobx-1", '/') == [".blobx-1"]
  {
    hide Split;
    SplitFree(".blobx-1", '/');
    assert !BadSegment(".blobx-1");
  }

  /** A key of one segment lies right in the objects directory. */
  lemma OneSegment(env: Env, k: string)
    requires Split(k, '/') == [k]
    ensures Target(env, k) == ObjectsDir(env.root) + [k] && TargetDir(env, k) == ObjectsDir(env.root)
    ensures ObjectsDir(env.root) < Target(env, k)
  {
    hide Split;
  }

  /** Neither of the two paths a call writes is on the way to another key's files. */
  lemma OutOfTheWay(env: Env, k: string, j: string, q: Path)
    requires j != k && !(Split(k, '/') < Split(j, '/')) && env.sums.key(j) != env.sums.key(k)
    requires q == Target(env, k) || q == Sidecar(env, k)
    ensures !(q <= Target(env, j)) && !(q <= Sidecar(env, j))
  {
    B.TargetsOrdered(env, k, j);
    B.SidecarAway(env, k, j);
    B.SidecarAway(env, j, k);
    if Sidecar(env, j) == Sidecar(env, k) {
      B.SidecarsDiffer(env, j, k);
    }
    var s, s' := Sidecar(env, k), Sidecar(env, j);
    assert |s| == |s'| && s != s';
    hide Split, Target, Sidecar;
    if q < s' {
      Above(q, s');
    }
  }

  /** What a Put leaves anywhere but at the object and its metadata, whatever name was drawn. */
  lemma PutElsewhere(env: Env, t: Tree, k: string, body: seq<byte>, ct: string, temp: Path, p: Path)
    requires DrawnFor(env, t, k, temp) && p != Target(env, k) && p != Sidecar(env, k)
    ensures var t' := PutTree(env, t, k, body, ct, temp);
            if p in t then p in t' && t'[p] == t[p]
            else p in t' ==> t'[p] == Dir && (p <= TargetDir(env, k) || p <= MetadataDir(env.root))
  {
    if temp != Target(env, k) {
      B.PutTreeAt(env, t, k, body, ct, temp, p);
      hide PutTree, Target, Sidecar, TargetDir, MetadataDir;
    } else {
      hide Target, Sidecar, TargetDir, MetadataDir, Described, Prefixes;
      var t1 := Replaced(env, t, k, body, temp);
      assert p in t ==> p in t1 && t1[p] == t[p];
      assert p !in t && p in t1 ==> t1[p] == Dir && p in Prefixes(TargetDir(env, k));
      hide Replaced;
    }
  }

  lemma PutSameAt(env: Env, t: Tree, k: string, body: seq<byte>, ct: string, temp: Path, j: string, p: Path)
    requires DrawnFor(env, t, k, temp)
    requires j != k && !(Split(k, '/') < Split(j, '/')) && env.sums.key(j) != env.sums.key(k)
    requires p == Target(env, j) || p == Sidecar(env, j)
    ensures SameAt(t, PutTree(env, t, k, body, ct, temp), p)
    ensures p == Sidecar(env, j) ==> Resolve(PutTree(env, t, k, body, ct, temp), p) == Resolve(t, p)
  {
    var t' := PutTree(env, t, k, body, ct, temp);
    OutOfTheWay(env, k, j, Target(env, k));
    OutOfTheWay(env, k, j, Sidecar(env, k));
    B.SidecarAway(env, j, j);
    if p == Sidecar(env, j) {
      B.MetadataElsewhere(env, k, p);
      assert |p| > |MetadataDir(env.root)|;
    }
    hide PutTree, Split, Target, Sidecar, DrawnFor, MetadataDir, TargetDir, Described, Blocked;
    PutElsewhere(env, t, k, body, ct, temp, p);
    forall q | q < p
      ensures q in t && t[q].File? <==> q in t' && t'[q].File?
    {
      PutElsewhere(env, t, k, body, ct, temp, q);
    }
    SameWay(t, t', p);
  }

  /** A Put that reports success changes no answer for another key, whatever name it drew, unless its own key is a
      segment-prefix of that one. */
  lemma PutLeavesOthers(env: Env, t: Tree, k: string, body: seq<byte>, complete: bool, ct: string, temp: Path,
                        j: string)
    requires Acceptable(j) && DrawnFor(env, t, k, temp) && FilePut(env, t, k, body, complete, ct, temp).1.Stored?
    requires j != k && !(Split(k, '/') < Split(j, '/')) && env.sums.key(j) != env.sums.key(k)
    ensures var t' := FilePut(env, t, k, body, complete, ct, temp).0;
            FileStat(env, t', false, j) == FileStat(env, t, false, j)
            && FileGet(env, t', false, j) == FileGet(env, t, false, j)
  {
    StoredMeans(env, t, k, body, complete, ct, temp);
    hide PutTree, FilePut, Split, Target, Sidecar, DrawnFor, Acceptable, SameAt, Resolve;
    PutSameAt(env, t, k, body, ct, temp, j, Target(env, j));
    PutSameAt(env, t, k, body, ct, temp, j, Sidecar(env, j));
    SameAnswers(env, t, PutTree(env, t, k, body, ct, temp), j);
  }

  // ------------------------------------------------------------------
  // After a Delete
  // ------------------------------------------------------------------

  /** A Delete that reports success has taken away both files, as far as they were there. */
  lemma DeletedMeans(env: Env, t: Tree, k: string)
    requires FileDelete(env, t, k).1.Deleted?
    ensures FileDelete(env, t, k).0 == t - {Target(env, k), Sidecar(env, k)}
    ensures !Blocked(t, Target(env, k))
    ensures Target(env, k) in t && t[Target(env, k)].Dir? ==> IsEmptyDir(t, Target(env, k))
  {
    var p, q := Target(env, k), Sidecar(env, k);
    B.SidecarAway(env, k, k);
    hide Target, Sidecar, Blocked, IsEmptyDir;
    assert t - {p} - {q} == t - {p, q};
    assert p !in t ==> t - {p, q} == t - {q};
    assert q !in t ==> t - {p, q} == t - {p};
    assert p !in t && q !in t ==> t - {p, q} == t;
  }

  /** After a Delete that reports success the key is not found. */
  lemma DeleteThenGet(env: Env, t: Tree, k: string)
    requires Acceptable(k) && FileDelete(env, t, k).1.Deleted?
    ensures FileStat(env, FileDelete(env, t, k).0, false, k) == Err(NotFound)
    ensures FileGet(env, FileDelete(env, t, k).0, false, k) == Err(NotFound)
  {
    NormalizeExact(k);
    DeletedMeans(env, t, k);
    assert !Blocked(t - {Target(env, k), Sidecar(env, k)}, Target(env, k));
    hide FileDelete, Split, NormalizeKey, Acceptable, Target, Sidecar, Blocked;
  }

  lemma DeleteSameAt(env: Env, t: Tree, k: string, j: string, p: Path)
    requires j != k && !(Split(k, '/') < Split(j, '/')) && env.sums.key(j) != env.sums.key(k)
    requires p == Target(env, j) || p == Sidecar(env, j)
    ensures Resolve(t - {Target(env, k), Sidecar(env, k)}, p) == Resolve(t, p)
  {
    OutOfTheWay(env, k, j, Target(env, k));
    OutOfTheWay(env, k, j, Sidecar(env, k));
    hide Split, Target, Sidecar, Blocked;
    SameWay(t, t - {Target(env, k), Sidecar(env, k)}, p);
  }

  /** A Delete that reports success changes no answer for another key, unless its own key is a segment-prefix of
      that one. */
  lemma DeleteLeavesOthers(env: Env, t: Tree, k: string, j: string)
    requires Acceptable(j) && FileDelete(env, t, k).1.Deleted?
    requires j != k && !(Split(k, '/') < Split(j, '/')) && env.sums.key(j) != env.sums.key(k)
    ensures var t' := FileDelete(env, t, k).0;
            FileStat(env, t', false, j) == FileStat(env, t, false, j)
            && FileGet(env, t', false, j) == FileGet(env, t, false, j)
  {
    DeletedMeans(env, t, k);
    hide FileDelete, Split, Target, Sidecar, Acceptable, Resolve, Blocked, IsEmptyDir;
    DeleteSameAt(env, t, k, j, Target(env, j));
    DeleteSameAt(env, t, k, j, Sidecar(env, j));
    SameAnswers(env, t, t - {Target(env, k), Sidecar(env, k)}, j);
  }

  // ------------------------------------------------------------------
  // When a call succeeds
  // ------------------------------------------------------------------

  /** Without faults a Put of a key stores it exactly when the body could be read to its end and nothing in the tree
      is in the way. */
  lemma StoresIff(env: Env, t: Tree, k: string, body: seq<byte>, complete: bool, ct: string, name: Draw)
    requires Acceptable(k)
    ensures var a := FileOp(env, t, Put(k, body, complete, ct, name)).1;
            if complete && CanStore(env, t, k) then a == Stored(Object(k, |body|, ct, env.sums.body(body)))
            else a.Failed?
  {
    NormalizeExact(k);
    hide NormalizeKey, Acceptable, CanBeDir, Target, Sidecar, PutTree, Replaced;
  }

  /** A path that can be removed, or is not there: no file is on the way to it, and nothing is below it. */
  predicate CanGo(t: Tree, p: Path) {
    !Blocked(t, p) && (p in t && t[p].Dir? ==> forall q :: q in t ==> !(p < q))
  }

  /** A Delete of a key succeeds exactly when both its files can go, whether or not they are there. */
  lemma DeletesIff(env: Env, t: Tree, k: string)
    requires Acceptable(k)
    ensures var a := FileOp(env, t, Op.Delete(false, k)).1;
            if CanGo(t, Target(env, k)) && CanGo(t - {Target(env, k)}, Sidecar(env, k)) then a == Deleted
            else a == Failed(DeleteFailed)
  {
    NormalizeExact(k);
    var p, q := Target(env, k), Sidecar(env, k);
    assert p !in t ==> t - {p} == t;
    RemovedIff(t, p);
    RemovedIff(t - {p}, q);
    hide NormalizeKey, Acceptable, Target, Sidecar, RemoveError, CanGo;
  }

  lemma RemovedIff(t: Tree, p: Path)
    ensures CanGo(t, p) <==> RemoveError(t, p).None? || RemoveError(t, p) == Some(NotExist)
    ensures RemoveError(t, p) == Some(NotExist) ==> p !in t
    ensures RemoveError(t, p).None? ==> p in t
  {
    hide Blocked;
  }

  /** A key that is not acceptable is refused as such by either store, and so is a call with a cancelled context;
      both leave the store as it is. */
  lemma RefusedCalls(env: Env, t: Tree, m: Memory, op: Op)
    ensures (op.Put? || !op.cancelled) && !Acceptable(op.key) ==>
              && NormalizeKey(op.key).Err?
              && FileOp(env, t, op) == (t, Failed(BadKey(NormalizeKey(op.key).error)))
              && MemoryOp(env, m, op) == (m, Failed(BadKey(NormalizeKey(op.key).error)))
    ensures !op.Put? && op.cancelled ==>
              FileOp(env, t, op) == (t, Failed(Cancelled)) && MemoryOp(env, m, op) == (m, Failed(Cancelled))
  {
    NormalizeExact(op.key);
    hide NormalizeKey, Acceptable, FileDelete, FilePut;
  }

  /** The store in memory: a Put of a key stores what was read to its end, to be found until the next Put or Delete
      of that key, and nothing otherwise; no other key is affected. */
  lemma MemoryPut(env: Env, m: Memory, k: string, body: seq<byte>, complete: bool, ct: string, name: Draw, j: string)
    requires Acceptable(k) && Acceptable(j)
    ensures var (m', a) := MemoryOp(env, m, Put(k, body, complete, ct, name));
            var info := Object(k, |body|, ct, env.sums.body(body));
            if complete then
              && a == Stored(info)
              && MemoryOp(env, m', Op.Get(false, j)).1 ==
                 if j == k then Found(body, info) else MemoryOp(env, m, Op.Get(false, j)).1
            else a == Failed(CopyFailed) && m' == m
  {
    NormalizeExact(k);
    NormalizeExact(j);
    hide NormalizeKey, Acceptable;
  }

  /** And a Delete of a key always succeeds, after which it is not found. */
  lemma MemoryDelete(env: Env, m: Memory, k: string, j: string)
    requires Acceptable(k) && Acceptable(j)
    ensures var (m', a) := MemoryOp(env, m, Op.Delete(false, k));
            && a == Deleted
            && MemoryOp(env, m', Op.Get(false, j)).1 ==
               if j == k then Failed(NotFound) else MemoryOp(env, m, Op.Get(false, j)).1
  {
    NormalizeExact(k);
    NormalizeExact(j);
    hide NormalizeKey, Acceptable;
  }

  /** Stat tells of an object just what Get does, in either store. */
  lemma StatIsGet(env: Env, t: Tree, m: Memory, cancelled: bool, key: string)
    ensures FileOp(env, t, Op.Stat(cancelled, key)).1 ==
            match FileOp(env, t, Op.Get(cancelled, key)).1 { case Found(_, info) => Known(info) case a => a }
    ensures MemoryOp(env, m, Op.Stat(cancelled, key)).1 ==
            match MemoryOp(env, m, Op.Get(cancelled, key)).1 { case Found(_, info) => Known(info) case a => a }
  {
    NormalizeExact(key);
    hide NormalizeKey, Acceptable, Target, ReadMetadata;
  }
}
