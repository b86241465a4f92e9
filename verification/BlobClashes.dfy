/** Runs in which the file store (blobx/file.go) and the in-memory store
    (blobx/testing.go) part: for every pair of keys of which one is a proper
    segment-prefix of the other, starting from a store that has never been used. */
module BlobClashes {
  import opened Text
  import opened Keys
  import opened FileSystem
  import opened Blob
  import B = BlobSimulation

  /** A name that could be drawn for the temporary file of `k`, other than its own. */
  predicate Harmless(env: Env, k: string, name: Draw) {
    TempPath(TargetDir(env, k), name) != Target(env, k)
  }

  lemma FileRunCons(env: Env, t: Tree, op: Op, rest: seq<Op>)
    ensures B.FileRun(env, t, [op] + rest) == [FileOp(env, t, op).1] + B.FileRun(env, FileOp(env, t, op).0, rest)
  {
    assert ([op] + rest)[1..] == rest;
  }

  lemma MemoryRunCons(env: Env, m: Memory, op: Op, rest: seq<Op>)
    ensures B.MemoryRun(env, m, [op] + rest)
            == [MemoryOp(env, m, op).1] + B.MemoryRun(env, MemoryOp(env, m, op).0, rest)
  {
    assert ([op] + rest)[1..] == rest;
  }

  lemma MemoryFacts(env: Env, m: Memory, k: string, body: seq<byte>, ct: string, name: Draw)
    requires Acceptable(k)
    ensures MemoryOp(env, m, Put(k, body, true, ct, name)) ==
            (m[k := MemoryObject(body, Described(env, k, body, ct))], Stored(Described(env, k, body, ct)))
    ensures k !in m ==> MemoryOp(env, m, Op.Get(false, k)) == (m, Failed(NotFound))
    ensures MemoryOp(env, m, Op.Delete(false, k)) == (m - {k}, Answer.Deleted)
  {
    NormalizeExact(k);
    hide NormalizeKey, Acceptable, Described;
  }

  lemma TempFree(env: Env, t: Tree, k: string, name: Draw)
    requires B.NeverUsed(env, t) && Harmless(env, k, name)
    ensures B.TempOk(env, t, k, TempPath(TargetDir(env, k), name))
  {
    var temp := TempPath(TargetDir(env, k), name);
    assert Parent(temp) == TargetDir(env, k);
    B.TempAway(env, k, temp);
  }

  /** The first Put into a store that has never been used. */
  lemma FirstPut(env: Env, t: Tree, k: string, body: seq<byte>, ct: string, name: Draw)
    requires B.NeverUsed(env, t) && Acceptable(k) && Harmless(env, k, name)
    requires Survives(env.codec, Described(env, k, body, ct))
    ensures var info := Described(env, k, body, ct); var put := Put(k, body, true, ct, name);
            && FileOp(env, t, put) == (PutTree(env, t, k, body, ct, TempPath(TargetDir(env, k), name)), Stored(info))
            && MemoryOp(env, map[], put) == (map[k := MemoryObject(body, info)], Stored(info))
            && B.Faithful(env, FileOp(env, t, put).0, map[k := MemoryObject(body, info)])
            && B.TempOk(env, t, k, TempPath(TargetDir(env, k), name))
  {
    hide *;
    var none: Memory := map[];
    NothingThere(env, t, k);
    assert none.Keys + {k} == {k};
    TempFree(env, t, k, name);
    B.PutOutcome(env, t, none, k, body, ct, name);
    B.PutAgrees(env, t, none, k, body, ct, name);
    MemoryFacts(env, none, k, body, ct, name);
    assert none[k := MemoryObject(body, Described(env, k, body, ct))]
           == map[k := MemoryObject(body, Described(env, k, body, ct))];
  }

  lemma NothingThere(env: Env, t: Tree, k: string)
    requires B.NeverUsed(env, t)
    ensures B.Faithful(env, t, map[]) && !B.Clash(map[], k) && !B.Shadowed(env, t, k) && B.SumsDiffer(env, {k})
  {
    B.FreshStore(env, {}, t);
    B.TargetsOrdered(env, k, k);
    hide Split, ObjectsDir, MetadataDir, Target, B.HoldsObject, CanBeDir;
  }

  /** Below a stored object nothing can be read, stored or even deleted. */
  lemma BelowAnObject(env: Env, t: Tree, m: Memory, k: string, j: string, body: seq<byte>, ct: string, name: Draw)
    requires B.Faithful(env, t, m) && k in m && Acceptable(j) && Split(k, '/') < Split(j, '/')
    ensures FileOp(env, t, Op.Get(false, j)) == (t, Failed(StatFailed))
    ensures FileOp(env, t, Put(j, body, true, ct, name)) == (t, Failed(ParentFailed))
    ensures FileOp(env, t, Op.Delete(false, j)) == (t, Failed(DeleteFailed))
  {
    hide Split, NormalizeKey, Acceptable, FilePut, Target, Sidecar, B.Faithful, Blocked, TempPath, TargetDir;
    NormalizeExact(j);
    assert B.Clash(m, j);
    hide B.Clash;
    B.BlockedIffClash(env, t, m, j);
    B.PutOutcome(env, t, m, j, body, ct, name);
  }

  /** Put `k`, then Get, Put and Delete `j` below it: the in-memory store misses, stores and deletes, the file store
      fails three times. */
  lemma StoresPart(env: Env, t: Tree, k: string, j: string, body: seq<byte>, ct: string, name: Draw, other: Draw)
    requires B.NeverUsed(env, t) && Acceptable(k) && Acceptable(j) && Split(k, '/') < Split(j, '/')
    requires Harmless(env, k, name) && Survives(env.codec, Described(env, k, body, ct))
    ensures var ops := [Put(k, body, true, ct, name)] +
                       ([Op.Get(false, j)] + ([Put(j, body, true, ct, other)] + ([Op.Delete(false, j)] + [])));
            && B.FileRun(env, t, ops) ==
               [Stored(Described(env, k, body, ct)), Failed(StatFailed), Failed(ParentFailed), Failed(DeleteFailed)]
            && B.MemoryRun(env, map[], ops) ==
               [Stored(Described(env, k, body, ct)), Failed(NotFound), Stored(Described(env, j, body, ct)),
                Answer.Deleted]
  {
    hide *;
    FirstPut(env, t, k, body, ct, name);
    var info := Described(env, k, body, ct);
    var none: Memory, m: Memory := map[], map[k := MemoryObject(body, info)];
    var put, get := Put(k, body, true, ct, name), Op.Get(false, j);
    var again, del := Put(j, body, true, ct, other), Op.Delete(false, j);
    var t' := FileOp(env, t, put).0;
    BelowAnObject(env, t', m, k, j, body, ct, other);
    MemoryFacts(env, m, j, body, ct, other);
    var m' := MemoryOp(env, m, again).0;
    MemoryFacts(env, m', j, body, ct, other);
    FileRunCons(env, t, put, [get] + ([again] + ([del] + [])));
    FileRunCons(env, t', get, [again] + ([del] + []));
    FileRunCons(env, t', again, [del] + []);
    FileRunCons(env, t', del, []);
    MemoryRunCons(env, none, put, [get] + ([again] + ([del] + [])));
    MemoryRunCons(env, m, get, [again] + ([del] + []));
    MemoryRunCons(env, m, again, [del] + []);
    MemoryRunCons(env, m', del, []);
    NothingRun(env, t', MemoryOp(env, m', del).0);
  }

  lemma NothingRun(env: Env, t: Tree, m: Memory)
    ensures B.FileRun(env, t, []) == [] && B.MemoryRun(env, m, []) == []
  {
  }

  /** The directories on the way to an object outlive it. */
  lemma DirectoryStays(env: Env, t: Tree, k: string, j: string, body: seq<byte>, ct: string, temp: Path)
    requires B.NeverUsed(env, t) && Split(k, '/') < Split(j, '/') && B.TempOk(env, t, j, temp)
    ensures B.Shadowed(env, PutTree(env, t, j, body, ct, temp) - {Target(env, j), Sidecar(env, j)}, k)
  {
    B.TargetsOrdered(env, k, j);
    B.SidecarAway(env, j, k);
    B.TargetsOrdered(env, k, k);
    B.SidecarAway(env, j, j);
    var p := Target(env, k);
    assert p <= TargetDir(env, j);
    assert |temp| == |Target(env, j)| && |p| < |temp|;
    hide Split, Target, Sidecar, TargetDir, MetadataDir, Described;
    assert p in Prefixes(TargetDir(env, j));
    hide Prefixes;
    assert p in Replaced(env, t, j, body, temp);
    assert p in PutTree(env, t, j, body, ct, temp);
    hide PutTree;
    B.PutTreeAt(env, t, j, body, ct, temp, p);
  }

  /** Put `j`, Delete `j`, Put `k` above it: the in-memory store holds nothing when it stores `k`; the file store,
      whose directories are never removed, fails. */
  lemma DirectoriesOutlive(env: Env, t: Tree, k: string, j: string, body: seq<byte>, ct: string, name: Draw,
                           other: Draw)
    requires B.NeverUsed(env, t) && Acceptable(k) && Acceptable(j) && Split(k, '/') < Split(j, '/')
    requires Harmless(env, j, name) && Survives(env.codec, Described(env, j, body, ct))
    ensures var ops := [Put(j, body, true, ct, name)] +
                       ([Op.Delete(false, j)] + ([Put(k, body, true, ct, other)] + []));
            && B.FileRun(env, t, ops) == [Stored(Described(env, j, body, ct)), Answer.Deleted, Failed(ReplaceFailed)]
            && B.MemoryRun(env, map[], ops) ==
               [Stored(Described(env, j, body, ct)), Answer.Deleted, Stored(Described(env, k, body, ct))]
  {
    hide *;
    FirstPut(env, t, j, body, ct, name);
    var info := Described(env, j, body, ct);
    var none: Memory, m: Memory := map[], map[j := MemoryObject(body, info)];
    var put, del, last := Put(j, body, true, ct, name), Op.Delete(false, j), Put(k, body, true, ct, other);
    var t1 := FileOp(env, t, put).0;
    var t2 := t1 - {Target(env, j), Sidecar(env, j)};
    DirectoryStays(env, t, k, j, body, ct, TempPath(TargetDir(env, j), name));
    AfterThePut(env, t1, m, j);
    assert m - {j} == none;
    NothingThere(env, t, k);
    B.PutOutcome(env, t2, none, k, body, ct, other);
    MemoryFacts(env, m, j, body, ct, name);
    MemoryFacts(env, none, k, body, ct, other);
    FileRunCons(env, t, put, [del] + ([last] + []));
    FileRunCons(env, t1, del, [last] + []);
    FileRunCons(env, t2, last, []);
    MemoryRunCons(env, none, put, [del] + ([last] + []));
    MemoryRunCons(env, m, del, [last] + []);
    MemoryRunCons(env, none, last, []);
    NothingRun(env, FileOp(env, t2, last).0, MemoryOp(env, none, last).0);
  }

  /** Deleting the one object there is. */
  lemma AfterThePut(env: Env, t: Tree, m: Memory, j: string)
    requires B.Faithful(env, t, m) && Acceptable(j) && m.Keys == {j}
    ensures FileOp(env, t, Op.Delete(false, j)) == (t - {Target(env, j), Sidecar(env, j)}, Answer.Deleted)
    ensures B.Faithful(env, t - {Target(env, j), Sidecar(env, j)}, m - {j})
  {
    assert B.SumsDiffer(env, m.Keys + {j});
    assert B.HoldsObject(env, t, j, m[j]);
    B.FileAt(env, t, j, m[j]);
    assert !B.Clash(m, j);
    assert !B.Shadowed(env, t, j);
    hide *;
    MemoryFacts(env, m, j, [], "", 0);
    B.DeleteAgrees(env, t, m, j);
  }

  /** The simplest such pair. */
  lemma SimplestPair()
    ensures Acceptable("a") && Acceptable("a/b") && Split("a", '/') < Split("a/b", '/')
  {
    var b := ["a", "b"];
    assert Join(b, "/") == "a/b";
    SplitFree("a", '/');
    SplitJoin(b, '/');
    assert b[..1] == ["a"];
    hide Split;
  }
}
