/** FileStore of blobx/file.go: each call as the sequence of system calls it
    makes, any of which may fail or be the last before a crash. */
module FileStore {
  import opened Text
  import opened Keys
  import opened Stream
  import opened FileSystem
  import opened Blob
  import opened CrashStates
  import B = BlobSimulation
  import L = BlobLaws

  /** copyContext into the temporary file and the hash. */
  method CopyContext(disk: Disk, temp: Path, src: Reader) returns (written: nat, hashed: seq<byte>, failed: bool)
    requires temp in disk.tree && disk.tree[temp] == File([]) && ValidScript(src.script)
    modifies disk, src`script
    ensures old(disk.log) <= disk.log
    ensures AllWriting(old(disk.tree), disk.log, |old(disk.log)|, temp, Delivered(old(src.script)).bytes)
    ensures Writing(old(disk.tree), disk.tree, temp, Delivered(old(src.script)).bytes)
    ensures temp in disk.tree && disk.tree[temp].File? && disk.tree == old(disk.tree)[temp := disk.tree[temp]]
    ensures !failed ==> var d := Delivered(old(src.script));
                        d.complete && hashed == d.bytes && written == |d.bytes| && disk.tree[temp] == File(d.bytes)
    ensures old(disk.faults) == [] ==> failed == !Delivered(old(src.script)).complete && disk.faults == []
  {
    hide AllWriting, Writing, Delivered;
    written, hashed := 0, [];
    ghost var t, all := disk.tree, Delivered(src.script);
    NothingWritten(t, disk.log, temp, all.bytes);
    TempHolds(t, temp, hashed, all.bytes);
    while true
      invariant ValidScript(src.script)
      invariant all.complete == Delivered(src.script).complete && all.bytes == hashed + Delivered(src.script).bytes
      invariant written == |hashed| && disk.tree == t[temp := File(hashed)] && Writing(t, disk.tree, temp, all.bytes)
      invariant old(disk.log) <= disk.log && AllWriting(t, disk.log, |old(disk.log)|, temp, all.bytes)
      invariant old(disk.faults) == [] ==> disk.faults == []
      decreases |src.script|
    {
      DeliveredStep(src.script);
      var cancelled := src.Cancelled();
      if cancelled {
        return written, hashed, true;
      }
      var data, status := src.Read();
      Regroup(hashed, data, Delivered(src.script).bytes);
      if |data| > 0 {
        ghost var log := disk.log;
        var count, err := disk.Append(temp, data);
        PartOf(hashed, data, count, Delivered(src.script).bytes);
        TempHolds(t, temp, hashed + data[..count], all.bytes);
        assert disk.tree == t[temp := File(hashed + data[..count])];
        OneMoreWritten(t, log, |old(disk.log)|, temp, all.bytes, disk.tree);
        written := written + count;
        if err {
          return written, hashed, true;
        }
        if count != |data| {
          return written, hashed, true;
        }
        assert data[..count] == data;
      } else {
        assert hashed + data == hashed;
      }
      assert disk.tree == t[temp := File(hashed + data)];
      hashed := hashed + data;
      if status == End {
        return written, hashed, false;
      }
      if status == Broken {
        return written, hashed, true;
      }
    }
  }

  lemma TempHolds(t: Tree, temp: Path, data: seq<byte>, all: seq<byte>)
    requires temp in t && data <= all
    ensures Writing(t, t[temp := File(data)], temp, all)
  {
  }

  lemma PartOf(a: seq<byte>, b: seq<byte>, n: nat, rest: seq<byte>)
    requires n <= |b|
    ensures a + b[..n] <= a + (b + rest)
  {
  }

  /** The temporary name is one of those offered. */
  ghost predicate Drawn(temp: Path, dir: Path, names: seq<Draw>) {
    exists i :: 0 <= i < |names| && temp == TempPath(dir, names[i])
  }

  /** The parent directories can be made, and a name is free there. */
  predicate CanCreate(env: Env, t: Tree, k: string, names: seq<Draw>) {
    && CanBeDir(t, TargetDir(env, k))
    && HasFreeName(WithDirs(t, TargetDir(env, k)), TargetDir(env, k), names)
  }

  /** A tree with the parent directories made and a temporary file in them. */
  ghost predicate Prepared(env: Env, t: Tree, t1: Tree, k: string, temp: Path) {
    && temp !in t && CanBeDir(t, TargetDir(env, k)) && temp in t1 && t1[temp].File?
    && t1 == WithDirs(t, TargetDir(env, k))[temp := t1[temp]]
  }

  /** The first half of Put: parent directories, temporary file, body, close. */
  method Stage(env: Env, disk: Disk, k: string, src: Reader, names: seq<Draw>)
    returns (error: Option<StoreError>, created: bool, temp: Path, hashed: seq<byte>, size: nat)
    requires ValidScript(src.script)
    modifies disk, src`script
    ensures IsTemp(TargetDir(env, k), temp)
    ensures old(disk.log) <= disk.log
    ensures !created ==> error.Some? && Untouched(old(disk.tree), disk.tree, {})
                         && AllUntouched(old(disk.tree), disk.log, |old(disk.log)|, {})
    ensures created ==>
              && Drawn(temp, TargetDir(env, k), names) && Prepared(env, old(disk.tree), disk.tree, k, temp)
              && AllWriting(old(disk.tree), disk.log, |old(disk.log)|, temp, Delivered(old(src.script)).bytes)
              && Writing(old(disk.tree), disk.tree, temp, Delivered(old(src.script)).bytes)
              && Passed(disk.log, |old(disk.log)|, Created(env, old(disk.tree), k, temp))
    ensures error.None? ==> var d := Delivered(old(src.script));
                            && created && d.complete && hashed == d.bytes && size == |d.bytes|
                            && disk.tree[temp] == File(d.bytes)
    ensures error.Some? ==> error.value in if created then {CopyFailed, CloseFailed} else {ParentFailed, TempFailed}
    ensures old(disk.faults) == [] ==>
              && disk.faults == []
              && (error == Some(ParentFailed) <==> !CanBeDir(old(disk.tree), TargetDir(env, k)))
              && (CanCreate(env, old(disk.tree), k, names) ==>
                    created && error == if Delivered(old(src.script)).complete then None else Some(CopyFailed))
  {
    hide TargetDir, CanBeDir, Delivered, Untouched, TempPath, IsTemp, HasFreeName, AllUntouched, Prefixes, Writing,
      AllWriting, Passed, PartWritten;
    var dir := TargetDir(env, k);
    created, temp, hashed, size := false, TempPath(dir, 0), [], 0;
    TempPathIsTemp(dir, 0);
    ghost var t, from, all := disk.tree, |disk.log|, Delivered(src.script).bytes;
    var failed := disk.MkdirAll(dir);
    AllUntouchedIs(t, disk.log, from, {});
    if failed {
      return Some(ParentFailed), created, temp, hashed, size;
    }
    ghost var t1, log1 := disk.tree, disk.log;
    WithDirsMakes(t, dir);
    failed, temp := disk.CreateTemp(dir, names);
    if failed {
      return Some(TempFailed), created, temp, hashed, size;
    }
    created := true;
    ghost var t2, log2 := disk.tree, disk.log;
    MadeAreWriting(t, log1, from, temp, all);
    CreatedHolds(t, t1, temp, all);
    OneMoreWritten(t, log1, from, temp, all, t2);
    PassedLast(log2, from, t2);
    var copyFailed, closeFailed;
    size, hashed, copyFailed := CopyContext(disk, temp, src);
    WritingLog(t, t2, log2, disk.log, from, temp, all);
    WritingTrans(t, t2, disk.tree, temp, all);
    StillPassed(log2, disk.log, from, t2);
    closeFailed := disk.CloseFile();
    assert disk.tree == t1[temp := disk.tree[temp]];
    if copyFailed {
      return Some(CopyFailed), created, temp, hashed, size;
    }
    if closeFailed {
      return Some(CloseFailed), created, temp, hashed, size;
    }
    error := None;
  }

  lemma CreatedHolds(t: Tree, t1: Tree, temp: Path, all: seq<byte>)
    requires Untouched(t, t1, {})
    ensures Writing(t, t1[temp := File([])], temp, all)
  {
    assert [] <= all;
  }

  /** writeMetadata: the sidecar holds the old metadata, or the start of the new, at every point. */
  method WriteMetadata(env: Env, disk: Disk, k: string, info: Object) returns (failed: bool)
    modifies disk
    ensures old(disk.log) <= disk.log
    ensures AllWriting(old(disk.tree), disk.log, |old(disk.log)|, Sidecar(env, k), env.codec.encode(info))
    ensures Writing(old(disk.tree), disk.tree, Sidecar(env, k), env.codec.encode(info))
    ensures !failed ==>
              var made := WithDirs(old(disk.tree), MetadataDir(env.root));
              && disk.tree == made[Sidecar(env, k) := File(env.codec.encode(info))]
              && Passed(disk.log, |old(disk.log)|, made[Sidecar(env, k) := File([])])
    ensures old(disk.faults) == [] ==> disk.faults == []
    ensures old(disk.faults) == [] && MetadataFits(env, old(disk.tree), k) ==> !failed
  {
    B.SidecarAway(env, k, k);
    hide Target, Sidecar, MetadataDir, CanBeDir, Untouched, PartWritten, Writing, AllUntouched, AllWriting, Prefixes,
      Passed;
    var dir, path, data := MetadataDir(env.root), Sidecar(env, k), env.codec.encode(info);
    ghost var t, from := disk.tree, |disk.log|;
    failed := disk.MkdirAll(dir);
    ghost var t1, log1 := disk.tree, disk.log;
    AllUntouchedIs(t, log1, from, {});
    MadeAreWriting(t, log1, from, path, data);
    DirsAreWriting(t, t1, path, data);
    if failed {
      return;
    }
    if CanBeDir(t, dir) {
      DirIsThere(t, dir);
    }
    failed := disk.WriteFile(path, data);
    ghost var log2 := disk.log;
    AllWritingIs(t1, log2, |log1|, path, data);
    WritingIs(t1, disk.tree, path, data);
    WritingLog(t, t1, log1, log2, from, path, data);
    WritingTrans(t, t1, disk.tree, path, data);
    if !failed {
      PassedAt(log2, from, |log1|, t1[path := File([])]);
    }
  }

  lemma PassedAt(log: seq<Tree>, from: nat, i: nat, s: Tree)
    requires from <= i < |log| && log[i] == s
    ensures Passed(log, from, s)
  {
  }

  lemma DirIsThere(t: Tree, dir: Path)
    requires CanBeDir(t, dir)
    ensures Resolve(WithDirs(t, dir), dir) == Ok(Dir)
  {
    WithDirsMakes(t, dir);
    forall q | q < dir && q in WithDirs(t, dir)
      ensures WithDirs(t, dir)[q].Dir?
    {
      assert q in Prefixes(dir);
    }
    hide CanBeDir, WithDirs;
    L.ClearWay(WithDirs(t, dir), dir);
  }

  /** Nothing stands in the way of the metadata file. */
  predicate MetadataFits(env: Env, t: Tree, k: string) {
    CanBeDir(t, MetadataDir(env.root)) && !(Sidecar(env, k) in t && t[Sidecar(env, k)].Dir?)
  }

  /** A tree after the rename. */
  function Renamed(env: Env, t: Tree, k: string, temp: Path, body: seq<byte>): Tree {
    (t - {temp})[Target(env, k) := File(body)]
  }

  /** The second half of Put: rename, stat, metadata. */
  method Commit(env: Env, disk: Disk, k: string, temp: Path, body: seq<byte>, contentType: string)
    returns (r: Result<Object, StoreError>)
    requires temp in disk.tree && disk.tree[temp] == File(body) && IsTemp(TargetDir(env, k), temp)
    modifies disk
    ensures old(disk.log) <= disk.log
    ensures r == Err(ReplaceFailed) ==> disk.tree == old(disk.tree) && disk.log == old(disk.log)
    ensures var plan := PlanOf(env, k, temp, body, contentType);
            && AllCommitted(old(disk.tree), disk.log, |old(disk.log)|, plan)
            && (r != Err(ReplaceFailed) ==> Committed(old(disk.tree), disk.tree, plan))
    ensures r != Err(ReplaceFailed) ==>
              Untouched(old(disk.tree), disk.tree, {Target(env, k), temp, Sidecar(env, k)})
    ensures r.Ok? ==>
              var renamed := Renamed(env, old(disk.tree), k, temp, body);
              var made := WithDirs(renamed, MetadataDir(env.root));
              && r.value == Described(env, k, body, contentType)
              && disk.tree == made[Sidecar(env, k) := File(env.codec.encode(r.value))]
              && Passed(disk.log, |old(disk.log)|, renamed)
              && Passed(disk.log, |old(disk.log)|, made[Sidecar(env, k) := File([])])
    ensures r.Err? ==> r.error in {ReplaceFailed, StatFailed, MetadataFailed}
    ensures old(disk.faults) == [] ==>
              && disk.faults == []
              && (r == Err(ReplaceFailed) <==> B.Shadowed(env, old(disk.tree), k))
              && (!B.Shadowed(env, old(disk.tree), k) ==>
                  !Blocked(old(disk.tree), Target(env, k)) && MetadataFits(env, old(disk.tree), k) ==> r.Ok?)
  {
    hide Target, TargetDir, Sidecar, MetadataDir, CanBeDir, Described, Untouched, Writing, AllWriting, Committed,
      AllCommitted, PlanOf, IsTemp, Passed, Blocked, MetadataFits, WithDirs;
    var target := Target(env, k);
    ghost var t, from := disk.tree, |disk.log|;
    ghost var plan := PlanOf(env, k, temp, body, contentType);
    var failed := disk.Rename(temp, target);
    if failed {
      NothingCommitted(t, disk.log, plan);
      return Err(ReplaceFailed);
    }
    ghost var t1, log1 := disk.tree, disk.log;
    RenameEffects(env, t, t1, k, temp, body);
    PassedLast(log1, from, t1);
    CommitEffects(env, t, t1, t1, log1, log1, from, k, temp, body, contentType);
    var found := disk.Look(target);
    if found.Err? {
      return Err(StatFailed);
    }
    var info := Described(env, k, body, contentType);
    failed := WriteMetadata(env, disk, k, info);
    CommitEffects(env, t, t1, disk.tree, log1, disk.log, from, k, temp, body, contentType);
    StillPassed(log1, disk.log, from, t1);
    if failed {
      return Err(MetadataFailed);
    }
    PassedEarlier(disk.log, |log1|, from, WithDirs(t1, MetadataDir(env.root))[Sidecar(env, k) := File([])]);
    r := Ok(info);
  }

  /** What the log says so far once the rename is done and the metadata is on its way. */
  lemma CommitEffects(env: Env, t: Tree, t1: Tree, s: Tree, log1: seq<Tree>, log: seq<Tree>, from: nat, k: string,
                      temp: Path, body: seq<byte>, ct: string)
    requires IsTemp(TargetDir(env, k), temp) && from + 1 == |log1| && log1 <= log && log1[from] == t1
    requires Untouched(t, t1, {Target(env, k), temp}) && InPlace(t1, Target(env, k), body)
    requires s == t1 || Writing(t1, s, Sidecar(env, k), env.codec.encode(Described(env, k, body, ct)))
    requires log == log1
             || AllWriting(t1, log, |log1|, Sidecar(env, k), env.codec.encode(Described(env, k, body, ct)))
    ensures var plan := PlanOf(env, k, temp, body, ct); AllCommitted(t, log, from, plan) && Committed(t, s, plan)
    ensures Untouched(t, s, {Target(env, k), temp, Sidecar(env, k)})
  {
    hide *;
    var plan := PlanOf(env, k, temp, body, ct);
    PlanIs(env, k, temp, body, ct);
    PlanBeside(env, k, temp, body, ct);
    SameIsWriting(t1, Sidecar(env, k), plan.metadata);
    NothingWritten(t1, log1, Sidecar(env, k), plan.metadata);
    WritingUntouched(t1, s, Sidecar(env, k), plan.metadata);
    UntouchedTrans(t, t1, s, {plan.target, plan.temp}, {plan.sidecar});
    assert {plan.target, plan.temp} + {plan.sidecar} == {plan.target, plan.temp, plan.sidecar};
    WrittenIsCommitted(t, t1, s, plan);
    CommitLog(t, t1, log1, log, from, plan);
  }

  lemma RenameEffects(env: Env, t: Tree, t1: Tree, k: string, temp: Path, body: seq<byte>)
    requires temp in t && t[temp] == File(body) && IsTemp(TargetDir(env, k), temp)
    requires t1 == Renamed(env, t, k, temp, body)
    ensures Untouched(t, t1, {Target(env, k), temp}) && InPlace(t1, Target(env, k), body)
    ensures !Blocked(t, Target(env, k)) ==> Resolve(t1, Target(env, k)) == Ok(File(body))
    ensures MetadataFits(env, t, k) ==> MetadataFits(env, t1, k)
  {
    NotOnTheWay(env, k, temp);
    B.SidecarAway(env, k, k);
    B.TempAway(env, k, temp);
    var p := Target(env, k);
    hide Split, Target, TargetDir, Sidecar, ObjectsDir, MetadataDir, Blocked, IsTemp, Prefixes;
    SameWayAfter(t, t1, {p, temp}, p);
  }

  // ------------------------------------------------------------------
  // Put as a whole
  // ------------------------------------------------------------------

  predicate BeforeRename(e: StoreError) {
    e in {ParentFailed, TempFailed, CopyFailed, CloseFailed, ReplaceFailed}
  }

  /** The temporary file had been created. */
  predicate Began(r: Result<Object, StoreError>) {
    r.Ok? || r.error in {CopyFailed, CloseFailed, ReplaceFailed, StatFailed, MetadataFailed}
  }

  function AnswerOf(r: Result<Object, StoreError>): Answer {
    match r
    case Ok(o) => Stored(o)
    case Err(e) => Failed(e)
  }

  /** Nothing but a directory in the object's place can make a Put fail. */
  predicate CanStage(env: Env, t: Tree, key: string, names: seq<Draw>) {
    CanCreate(env, t, key, names) && MetadataFits(env, t, key)
  }

  /** What staging has and has not changed. */
  lemma StagedFacts(env: Env, t: Tree, t1: Tree, k: string, temp: Path)
    requires Prepared(env, t, t1, k, temp) && IsTemp(TargetDir(env, k), temp)
    ensures t1 - {temp} == WithDirs(t, TargetDir(env, k)) && temp !in WithDirs(t, TargetDir(env, k))
    ensures B.Shadowed(env, t1, k) <==> B.Shadowed(env, t, k)
    ensures !Blocked(t, Target(env, k)) && !Blocked(t1, Target(env, k)) && !Blocked(t1, temp)
  {
    var dir, target := TargetDir(env, k), Target(env, k);
    assert |temp| == |dir| + 1 && |target| == |dir| + 1 && Parent(target) == dir;
    hide Split, ObjectPath, TargetDir, Target;
    forall q | q in t && q < target
      ensures t[q].Dir?
    {
      L.Above(q, target);
      assert q in Prefixes(dir);
    }
    forall q | q in t1 && (q < target || q < temp)
      ensures t1[q].Dir?
    {
      if q < target { L.Above(q, target); } else { L.Above(q, temp); }
      assert q in Prefixes(dir);
    }
    L.ClearWay(t, target);
    L.ClearWay(t1, target);
    L.ClearWay(t1, temp);
  }

  lemma StagedMetadata(env: Env, t: Tree, t1: Tree, k: string, temp: Path)
    requires Prepared(env, t, t1, k, temp) && IsTemp(TargetDir(env, k), temp) && MetadataFits(env, t, k)
    ensures MetadataFits(env, t1, k)
  {
    B.SidecarAway(env, k, k);
    B.TempAway(env, k, temp);
    B.MetadataElsewhere(env, k, Sidecar(env, k));
    TempBesideMetadata(env, temp);
    hide Split, Target, TargetDir, Sidecar, ObjectsDir, MetadataDir;
  }

  /** The trees that committing goes through, seen from the start. */
  lemma CommitResult(env: Env, t: Tree, t1: Tree, k: string, temp: Path, body: seq<byte>, ct: string)
    requires Prepared(env, t, t1, k, temp) && IsTemp(TargetDir(env, k), temp) && t1[temp] == File(body)
    ensures var renamed := Renamed(env, t1, k, temp, body);
            var made := WithDirs(renamed, MetadataDir(env.root));
            var stored := made[Sidecar(env, k) := File(env.codec.encode(Described(env, k, body, ct)))];
            && renamed == Replaced(env, t, k, body, temp)
            && made[Sidecar(env, k) := File([])] == Truncated(env, t, k, body, temp)
            && stored - {temp} == PutTree(env, t, k, body, ct, temp)
            && (temp != Target(env, k) ==> temp !in stored)
  {
    StagedFacts(env, t, t1, k, temp);
    B.TempAway(env, k, temp);
    TempBesideMetadata(env, temp);
    hide Split, Target, TargetDir, Sidecar, ObjectsDir, MetadataDir, Blocked, B.Shadowed, CanBeDir, IsTemp, Described;
    var dirs := WithDirs(t, TargetDir(env, k));
    assert dirs[temp := File(body)] - {temp} == dirs;
  }

  lemma PutAnswer(env: Env, t: Tree, k: string, body: seq<byte>, complete: bool, ct: string, temp: Path,
                  names: seq<Draw>)
    requires CanStage(env, t, k, names)
    ensures FilePut(env, t, k, body, complete, ct, temp) ==
            if !complete then (WithDirs(t, TargetDir(env, k)), Failed(CopyFailed))
            else if B.Shadowed(env, t, k) then (WithDirs(t, TargetDir(env, k)), Failed(ReplaceFailed))
            else (PutTree(env, t, k, body, ct, temp), Stored(Described(env, k, body, ct)))
  {
    hide Target, TargetDir, Sidecar, MetadataDir, CanBeDir, PutTree, Described, HasFreeName, WithDirs, Replaced;
  }

  /** The way to the temporary name stays open. */
  lemma StillUnblocked(env: Env, t1: Tree, t2: Tree, k: string, temp: Path)
    requires IsTemp(TargetDir(env, k), temp) && !Blocked(t1, temp)
    requires Untouched(t1, t2, {Target(env, k), temp, Sidecar(env, k)})
    ensures !Blocked(t2, temp)
  {
    B.SidecarAway(env, k, k);
    B.MetadataElsewhere(env, k, Sidecar(env, k));
    assert |Target(env, k)| == |temp|;
    var changed := {Target(env, k), temp, Sidecar(env, k)};
    hide Split, Target, Sidecar, TargetDir, Blocked, Untouched;
    forall q | q < temp
      ensures q !in changed
    {
      L.Above(q, temp);
    }
    SameWayAfter(t1, t2, changed, temp);
  }

  /** Put up to, but not including, the removal of the temporary name. */
  method Attempt(env: Env, disk: Disk, key: string, src: Reader, contentType: string, names: seq<Draw>)
    returns (r: Result<Object, StoreError>, created: bool, temp: Path)
    requires ValidScript(src.script)
    modifies disk, src`script
    ensures old(disk.log) <= disk.log && IsTemp(TargetDir(env, key), temp)
    ensures var plan := PlanOf(env, key, temp, Delivered(old(src.script)).bytes, contentType);
            && AllOnTheWay(old(disk.tree), disk.log, |old(disk.log)|, plan)
            && OnTheWay(old(disk.tree), disk.tree, plan)
            && (r.Err? && !BeforeRename(r.error) ==> InPlace(disk.tree, plan.target, plan.body))
    ensures r.Err? ==> BeforeRename(r.error) || r.error in {StatFailed, MetadataFailed}
    ensures created <==> Began(r)
    ensures created ==>
              && temp !in old(disk.tree) && Drawn(temp, TargetDir(env, key), names)
              && Passed(disk.log, |old(disk.log)|, Created(env, old(disk.tree), key, temp))
    ensures !created ==> Untouched(old(disk.tree), disk.tree, {})
    ensures r.Err? && BeforeRename(r.error) ==> Untouched(old(disk.tree), disk.tree, {temp})
    ensures r.Ok? ==>
              var d := Delivered(old(src.script));
              && d.complete && r.value == Described(env, key, d.bytes, contentType)
              && disk.tree - {temp} == PutTree(env, old(disk.tree), key, d.bytes, contentType, temp)
              && (temp in disk.tree ==> temp == Target(env, key) && disk.tree[temp] == File(d.bytes))
              && Passed(disk.log, |old(disk.log)|, Replaced(env, old(disk.tree), key, d.bytes, temp))
              && Passed(disk.log, |old(disk.log)|, Truncated(env, old(disk.tree), key, d.bytes, temp))
    ensures old(disk.faults) == [] && CanStage(env, old(disk.tree), key, names) ==>
              var d := Delivered(old(src.script));
              && disk.faults == [] && created
              && !Blocked(disk.tree, temp) && (temp in disk.tree ==> disk.tree[temp].File?)
              && (disk.tree - {temp}, AnswerOf(r)) ==
                 FilePut(env, old(disk.tree), key, d.bytes, d.complete, contentType, temp)
    ensures old(disk.faults) == [] && !CanBeDir(old(disk.tree), TargetDir(env, key)) ==> r == Err(ParentFailed)
  {
    hide Target, TargetDir, Sidecar, MetadataDir, CanBeDir, Delivered, Described, PutTree, FilePut, WithDirs, Replaced,
      Created, Truncated, Renamed, Untouched, OnTheWay, AllOnTheWay, AllUntouched, Committed, AllCommitted, Writing,
      AllWriting, PlanOf, IsTemp, Drawn, Passed, Blocked, B.Shadowed, MetadataFits, HasFreeName, InPlace;
    var error, hashed, size;
    ghost var t, from, d := disk.tree, |disk.log|, Delivered(src.script);
    error, created, temp, hashed, size := Stage(env, disk, key, src, names);
    ghost var t1, log1 := disk.tree, disk.log;
    ghost var plan := PlanOf(env, key, temp, d.bytes, contentType);
    PlanIs(env, key, temp, d.bytes, contentType);
    if created {
      StagedFacts(env, t, t1, key, temp);
      WritingUntouched(t, t1, temp, d.bytes);
    }
    if CanStage(env, t, key, names) {
      PutAnswer(env, t, key, d.bytes, d.complete, contentType, temp, names);
    }
    if error.Some? {
      r := Err(error.value);
      if created {
        PutIsOnTheWay(env, t, t1, t1, log1, log1, from, key, plan, true);
      } else {
        UntouchedMore(t, t1, {}, {temp});
        DirsAreOnTheWay(t, t1, plan);
        DirsLog(t, log1, from, plan);
      }
      return;
    }
    if CanStage(env, t, key, names) {
      StagedMetadata(env, t, t1, key, temp);
    }
    r := Commit(env, disk, key, temp, hashed, contentType);
    CommitResult(env, t, t1, key, temp, d.bytes, contentType);
    PutIsOnTheWay(env, t, t1, disk.tree, log1, disk.log, from, key, plan, r == Err(ReplaceFailed));
    StillPassed(log1, disk.log, from, Created(env, t, key, temp));
    if r == Err(ReplaceFailed) {
      return;
    }
    StillUnblocked(env, t1, disk.tree, key, temp);
    if r.Ok? {
      PassedEarlier(disk.log, |log1|, from, Replaced(env, t, key, d.bytes, temp));
      PassedEarlier(disk.log, |log1|, from, Truncated(env, t, key, d.bytes, temp));
      OwnNameLeft(env, t1, key, temp, d.bytes, r.value);
    }
  }

  lemma PutIsOnTheWay(env: Env, t: Tree, t1: Tree, s: Tree, log1: seq<Tree>, log: seq<Tree>, from: nat, k: string,
                      plan: Plan, refused: bool)
    requires IsTemp(TargetDir(env, k), plan.temp) && plan.temp !in t && CanBeDir(t, plan.dir)
    requires plan.target == Target(env, k) && plan.sidecar == Sidecar(env, k)
    requires from <= |log1| && log1 <= log
    requires Writing(t, t1, plan.temp, plan.body) && AllWriting(t, log1, from, plan.temp, plan.body)
    requires log == log1 || AllCommitted(t1, log, |log1|, plan)
    requires if refused then s == t1 else Committed(t1, s, plan)
    ensures AllOnTheWay(t, log, from, plan) && OnTheWay(t, s, plan)
    ensures !refused ==> InPlace(s, plan.target, plan.body)
  {
    hide *;
    NotOnTheWay(env, k, plan.temp);
    BesideIs(plan);
    StagedIs(t, t1, plan);
    NothingCommitted(t1, log1, plan);
    PutLog(t, t1, log1, log, from, plan);
    if refused {
      StagedIsOnTheWay(t, s, plan);
    } else {
      CommittedIsOnTheWay(t, t1, s, plan);
      CommittedInPlace(t1, s, plan);
    }
  }

  lemma BesideIs(plan: Plan)
    requires plan.sidecar != plan.target && plan.sidecar != plan.temp
    ensures Beside(plan)
  {
  }

  lemma StagedIs(t: Tree, t1: Tree, plan: Plan)
    requires plan.temp !in t && CanBeDir(t, plan.dir) && Writing(t, t1, plan.temp, plan.body)
    ensures Staged(t, t1, plan)
  {
    hide CanBeDir, Writing;
  }

  lemma CommittedInPlace(t: Tree, s: Tree, plan: Plan)
    requires Committed(t, s, plan)
    ensures InPlace(s, plan.target, plan.body)
  {
  }

  /** If the temporary name is still there after the commit, it is the object's own, a file. */
  lemma OwnNameLeft(env: Env, t1: Tree, k: string, temp: Path, body: seq<byte>, info: Object)
    requires IsTemp(TargetDir(env, k), temp)
    ensures var renamed := Renamed(env, t1, k, temp, body);
            var stored := WithDirs(renamed, MetadataDir(env.root))[Sidecar(env, k) := File(env.codec.encode(info))];
            temp == Target(env, k) ==> temp in stored && stored[temp] == File(body)
  {
    NotOnTheWay(env, k, temp);
    hide Target, TargetDir, Sidecar, MetadataDir, IsTemp, Prefixes;
  }

  /** New directories are invisible: no Stat or Get of any key changes its answer. */
  lemma ReadsUnchanged(env: Env, t: Tree, t': Tree, cancelled: bool, key: string)
    requires Untouched(t, t', {})
    ensures FileStat(env, t', cancelled, key) == FileStat(env, t, cancelled, key)
    ensures FileGet(env, t', cancelled, key) == FileGet(env, t, cancelled, key)
  {
    if NormalizeKey(key).Ok? {
      var k := NormalizeKey(key).value;
      SameFiles(t, t', Target(env, k));
      SameFiles(t, t', Sidecar(env, k));
      hide Split, NormalizeKey, Target, Sidecar, Untouched, Resolve;
    } else {
      hide NormalizeKey;
    }
  }

  lemma SameFiles(t: Tree, t': Tree, p: Path)
    requires Untouched(t, t', {})
    ensures Resolve(t', p) == Resolve(t, p) || (Resolve(t, p) == Err(NotExist) && Resolve(t', p) == Ok(Dir))
  {
    assert Blocked(t', p) <==> Blocked(t, p);
  }

  lemma WithoutTemp(t: Tree, t': Tree, temp: Path)
    requires Untouched(t, t', {temp}) && temp !in t && temp !in t'
    ensures Untouched(t, t', {})
  {
  }

  lemma RemoveOfTemp(t: Tree, temp: Path)
    requires !Blocked(t, temp) && (temp in t ==> t[temp].File?)
    ensures RemoveError(t, temp) == if temp in t then None else Some(NotExist)
    ensures temp !in t ==> t - {temp} == t
  {
    hide Blocked;
  }

  /** A key that does not look temporary is never drawn for its own temporary file. */
  lemma NotOwnName(env: Env, k: string, temp: Path)
    requires IsTemp(TargetDir(env, k), temp) && !L.LooksTemporary(k)
    ensures temp != Target(env, k)
  {
    L.LastOfTarget(env, k);
  }

  /** The body at a path, if a file is there. */
  function BodyAt(t: Tree, p: Path): Option<seq<byte>> {
    if p in t && t[p].File? then Some(t[p].data) else None
  }

  lemma RemovedStays(t: Tree, t': Tree, temp: Path)
    requires Untouched(t, t', {temp})
    ensures Untouched(t, t' - {temp}, {temp})
  {
  }

  /** What the removal of the temporary name leaves of the object. */
  lemma RemovalEffects(env: Env, t: Tree, s: Tree, log: seq<Tree>, from: nat, k: string, temp: Path, body: seq<byte>,
                       ct: string)
    requires IsTemp(TargetDir(env, k), temp) && temp !in t && from <= |log|
    requires OnTheWay(t, s, PlanOf(env, k, temp, body, ct)) && AllOnTheWay(t, log, from, PlanOf(env, k, temp, body, ct))
    ensures var plan := PlanOf(env, k, temp, body, ct); var s' := s - {temp};
            && AllOnTheWay(t, log + [s'], from, plan) && OnTheWay(t, s', plan)
            && (InPlace(s, Target(env, k), body) && temp != Target(env, k) ==> InPlace(s', Target(env, k), body))
  {
    hide Target, Sidecar, TargetDir, OnTheWay, AllOnTheWay, PlanOf, IsTemp;
    PlanIs(env, k, temp, body, ct);
    PlanBeside(env, k, temp, body, ct);
    RemovedLog(t, s, log, from, PlanOf(env, k, temp, body, ct));
  }

  class Store {
    const env: Env
    const disk: Disk

    constructor (env: Env, disk: Disk)
      ensures this.env == env && this.disk == disk
    {
      this.env, this.disk := env, disk;
    }

    /** Put.  `temp` is the temporary name drawn. */
    method Put(key: string, src: Reader, contentType: string, names: seq<Draw>)
      returns (r: Result<Object, StoreError>, ghost temp: Path)
      requires ValidScript(src.script)
      modifies disk, src`script
      // A rejected key touches nothing.
      ensures NormalizeKey(key).Err? ==> r == Err(BadKey(NormalizeKey(key).error)) && unchanged(disk)
      ensures NormalizeKey(key).Ok? ==>
                IsTemp(TargetDir(env, key), temp) && (!L.LooksTemporary(key) ==> temp != Target(env, key))
      // A crash at any point leaves one of these states, whatever name was drawn.
      ensures old(disk.log) <= disk.log
      ensures NormalizeKey(key).Ok? ==>
                var plan := PlanOf(env, key, temp, Delivered(old(src.script)).bytes, contentType);
                && AllOnTheWay(old(disk.tree), disk.log, |old(disk.log)|, plan)
                && OnTheWay(old(disk.tree), disk.tree, plan)
      // Once the temporary file was created, the disk was in the state in which it is empty.
      ensures NormalizeKey(key).Ok? && Began(r) ==>
                && temp !in old(disk.tree)
                && Passed(disk.log, |old(disk.log)|, Created(env, old(disk.tree), key, temp))
      // A failure after the rename leaves the new body in place, unless it is removed as the temporary file.
      ensures NormalizeKey(key).Ok? && r.Err? && !BeforeRename(r.error) ==>
                || InPlace(disk.tree, Target(env, key), Delivered(old(src.script)).bytes)
                || (temp == Target(env, key) && temp !in disk.tree)
      // A failure before the rename leaves nothing but directories, unless the temporary file could not be removed.
      ensures r.Err? && BeforeRename(r.error) ==> Untouched(old(disk.tree), disk.tree, {temp})
      ensures r.Err? && BeforeRename(r.error) && temp !in disk.tree ==> Untouched(old(disk.tree), disk.tree, {})
      // Success stores body and metadata, unless the body is removed as the temporary file; on the way the disk was in
      // the states with the old metadata and with the sidecar truncated.
      ensures r.Ok? ==>
                var d := Delivered(old(src.script));
                && NormalizeKey(key) == Ok(key) && d.complete && r.value == Described(env, key, d.bytes, contentType)
                && disk.tree - {temp} == PutTree(env, old(disk.tree), key, d.bytes, contentType, temp)
                && (temp in disk.tree ==> temp == Target(env, key) && disk.tree[temp] == File(d.bytes))
                && Passed(disk.log, |old(disk.log)|, Replaced(env, old(disk.tree), key, d.bytes, temp))
                && Passed(disk.log, |old(disk.log)|, Truncated(env, old(disk.tree), key, d.bytes, temp))
      // Without faults the call is the one of the reference.
      ensures old(disk.faults) == [] && NormalizeKey(key).Ok? && CanStage(env, old(disk.tree), key, names) ==>
                var d := Delivered(old(src.script));
                && temp !in old(disk.tree) && Drawn(temp, TargetDir(env, key), names)
                && (disk.tree, AnswerOf(r)) ==
                   FilePut(env, old(disk.tree), key, d.bytes, d.complete, contentType, temp)
                && (r.Err? ==> temp !in disk.tree) && disk.faults == []
      ensures old(disk.faults) == [] && NormalizeKey(key).Ok? && !CanBeDir(old(disk.tree), TargetDir(env, key)) ==>
                r == Err(ParentFailed)
    {
      hide Target, TargetDir, Sidecar, CanBeDir, Delivered, Described, PutTree, FilePut, WithDirs, Replaced, Truncated,
        Created, Untouched, OnTheWay, AllOnTheWay, PlanOf, IsTemp, Drawn, Passed, Blocked, CanStage, InPlace,
        L.LooksTemporary;
      temp := [];
      var normalized := NormalizeKey(key);
      if normalized.Err? {
        return Err(BadKey(normalized.error)), temp;
      }
      NormalizeExact(key);
      hide NormalizeKey;
      ghost var t, from, d := disk.tree, |disk.log|, Delivered(src.script);
      var created, name;
      r, created, name := Attempt(env, disk, key, src, contentType, names);
      temp := name;
      ghost var t1, log1 := disk.tree, disk.log;
      ghost var plan := PlanOf(env, key, temp, d.bytes, contentType);
      if !L.LooksTemporary(key) {
        NotOwnName(env, key, temp);
      }
      PlanIs(env, key, temp, d.bytes, contentType);
      if created {
        RemovalEffects(env, t, t1, log1, from, key, temp, d.bytes, contentType);
      }
      if r.Err? && BeforeRename(r.error) {
        RemovedStays(t, t1, temp);
      }
      assert temp !in t1 ==> t1 - {temp} == t1;
      if old(disk.faults) == [] && CanStage(env, t, key, names) {
        RemoveOfTemp(t1, temp);
      }
      if created {
        var e := disk.Remove(name);
        assert disk.tree == t1 || disk.tree == t1 - {temp};
        assert t1 - {temp} - {temp} == t1 - {temp};
        StillPassed(log1, disk.log, from, Created(env, t, key, temp));
        if r.Ok? {
          StillPassed(log1, disk.log, from, Replaced(env, t, key, d.bytes, temp));
          StillPassed(log1, disk.log, from, Truncated(env, t, key, d.bytes, temp));
        }
        if temp !in disk.tree && r.Err? && BeforeRename(r.error) {
          WithoutTemp(t, disk.tree, temp);
        }
      }
    }

    /** Stat.  Metadata that cannot be read counts as missing. */
    method Stat(cancelled: bool, key: string) returns (r: Result<Object, StoreError>)
      modifies disk`faults
      ensures cancelled ==> r == Err(Cancelled)
      ensures old(disk.faults) == [] ==> r == FileStat(env, disk.tree, cancelled, key) && disk.faults == []
      ensures r.Ok? ==> NormalizeKey(key) == Ok(key) && r.value.key == key
                        && BodyAt(disk.tree, Target(env, key)).Some?
                        && r.value.size == |BodyAt(disk.tree, Target(env, key)).value|
      ensures r.Ok? ==> r == FileStat(env, disk.tree, cancelled, key) || r == Ok(Object(key, r.value.size, "", ""))
      ensures r == Err(NotFound) ==> NormalizeKey(key).Ok? && BodyAt(disk.tree, Target(env, key)).None?
    {
      hide Target, Sidecar, Blocked;
      if cancelled {
        return Err(Cancelled);
      }
      var normalized := NormalizeKey(key);
      if normalized.Err? {
        return Err(BadKey(normalized.error));
      }
      NormalizeExact(key);
      hide NormalizeKey;
      var found := disk.Look(Target(env, key));
      match found
      case Err(e) =>
        return Err(if e == NotExist then NotFound else StatFailed);
      case Ok(Dir) =>
        return Err(NotFound);
      case Ok(File(data)) =>
        var info := Object(key, |data|, "", "");
        var metadata := disk.Look(Sidecar(env, key));
        if metadata.Ok? && metadata.value.File? {
          var decoded := env.codec.decode(metadata.value.data);
          if decoded.Some? {
            info := info.(contentType := decoded.value.contentType, etag := decoded.value.etag);
          }
        }
        return Ok(info);
    }

    /** Get: Stat, then open. */
    method Get(cancelled: bool, key: string) returns (r: Result<(seq<byte>, Object), StoreError>)
      modifies disk`faults
      ensures cancelled ==> r == Err(Cancelled)
      ensures old(disk.faults) == [] ==> r == FileGet(env, disk.tree, cancelled, key) && disk.faults == []
      ensures r.Ok? ==> NormalizeKey(key) == Ok(key) && BodyAt(disk.tree, Target(env, key)) == Some(r.value.0)
    {
      hide Target, Sidecar, Blocked, NormalizeKey;
      var info := Stat(cancelled, key);
      if info.Err? {
        return Err(info.error);
      }
      var file := disk.Look(Target(env, info.value.key));
      match file
      case Err(e) => return Err(if e == NotExist then NotFound else OpenFailed);
      case Ok(Dir) => return Err(OpenFailed);
      case Ok(File(data)) => return Ok((data, info.value));
    }

    /** Delete: the object first, then its metadata.  Whatever fails, nothing else is touched. */
    method Delete(cancelled: bool, key: string) returns (e: Option<StoreError>)
      modifies disk
      ensures cancelled ==> e == Some(Cancelled)
      ensures cancelled || NormalizeKey(key).Err? ==> unchanged(disk)
      ensures !cancelled && NormalizeKey(key).Err? ==> e == Some(BadKey(NormalizeKey(key).error))
      ensures old(disk.log) <= disk.log
      ensures AllUntouched(old(disk.tree), disk.log, |old(disk.log)|, {Target(env, key), Sidecar(env, key)})
      ensures e.None? ==>
                NormalizeKey(key) == Ok(key) && disk.tree == old(disk.tree) - {Target(env, key), Sidecar(env, key)}
      ensures old(disk.faults) == [] && !cancelled && NormalizeKey(key).Ok? ==>
                && (disk.tree, if e.None? then Answer.Deleted else Failed(e.value))
                   == FileDelete(env, old(disk.tree), key)
                && disk.faults == []
    {
      hide Target, Sidecar, Blocked, IsEmptyDir;
      if cancelled {
        return Some(Cancelled);
      }
      var normalized := NormalizeKey(key);
      if normalized.Err? {
        return Some(BadKey(normalized.error));
      }
      NormalizeExact(key);
      hide NormalizeKey;
      var body := disk.Remove(Target(env, key));
      if body.Some? && body.value != NotExist {
        return Some(DeleteFailed);
      }
      var metadata := disk.Remove(Sidecar(env, key));
      if metadata.Some? && metadata.value != NotExist {
        return Some(DeleteFailed);
      }
      e := None;
    }
  }
}
