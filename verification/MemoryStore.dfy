/** MemoryStore of blobx/testing.go, and both stores driven side by side. */
module MemoryStore {
  import opened Text
  import opened Keys
  import opened Stream
  import opened FileSystem
  import opened Blob
  import B = BlobSimulation
  import C = CrashStates
  import F = FileStore

  /** hashWriter */
  class HashWriter {
    var data: seq<byte>

    constructor ()
      ensures data == []
    {
      data := [];
    }

    method Write(chunk: seq<byte>) returns (n: nat)
      modifies this
      ensures n == |chunk| && data == old(data) + chunk
    {
      data := data + chunk;
      n := |chunk|;
    }

    method Sum(sums: Sums) returns (etag: string)
      ensures etag == sums.body(data)
    {
      etag := sums.body(data);
    }
  }

  /** copyContext into a buffer and the hash; neither can fail. */
  method CopyContext(hash: HashWriter, src: Reader) returns (written: nat, buffer: seq<byte>, failed: bool)
    requires hash.data == [] && ValidScript(src.script)
    modifies hash, src`script
    ensures failed == !Delivered(old(src.script)).complete
    ensures !failed ==> buffer == Delivered(old(src.script)).bytes && hash.data == buffer && written == |buffer|
  {
    written, buffer := 0, [];
    ghost var all := Delivered(src.script);
    while true
      invariant ValidScript(src.script)
      invariant all.complete == Delivered(src.script).complete && all.bytes == buffer + Delivered(src.script).bytes
      invariant written == |buffer| && hash.data == buffer
      decreases |src.script|
    {
      var cancelled := src.Cancelled();
      if cancelled {
        return written, buffer, true;
      }
      var data, status := src.Read();
      Regroup(buffer, data, Delivered(src.script).bytes);
      if |data| > 0 {
        var count := hash.Write(data);
        written := written + count;
      } else {
        assert buffer + data == buffer;
      }
      buffer := buffer + data;
      if status == End {
        return written, buffer, false;
      }
      if status == Broken {
        return written, buffer, true;
      }
    }
  }

  class Store {
    const env: Env // for its sums alone
    var objects: Memory

    constructor (env: Env)
      ensures this.env == env && objects == map[]
    {
      this.env := env;
      objects := map[];
    }

    method Put(key: string, src: Reader, contentType: string) returns (r: Result<Object, StoreError>)
      requires ValidScript(src.script)
      modifies this, src`script
      ensures var d := Delivered(old(src.script));
              (objects, F.AnswerOf(r)) == MemoryOp(env, old(objects), Op.Put(key, d.bytes, d.complete, contentType, 0))
    {
      var normalized := NormalizeKey(key);
      if normalized.Err? {
        return Err(BadKey(normalized.error));
      }
      hide NormalizeKey;
      var hash := new HashWriter();
      var size, buffer, failed := CopyContext(hash, src);
      if failed {
        return Err(CopyFailed);
      }
      var etag := hash.Sum(env.sums);
      var info := Object(normalized.value, size, contentType, etag);
      objects := objects[normalized.value := MemoryObject(buffer, info)];
      r := Ok(info);
    }

    method Get(cancelled: bool, key: string) returns (r: Result<MemoryObject, StoreError>)
      ensures r == MemoryGet(objects, cancelled, key)
    {
      if cancelled {
        return Err(Cancelled);
      }
      var normalized := NormalizeKey(key);
      if normalized.Err? {
        return Err(BadKey(normalized.error));
      }
      if normalized.value !in objects {
        return Err(NotFound);
      }
      r := Ok(objects[normalized.value]);
    }

    method Delete(cancelled: bool, key: string) returns (e: Option<StoreError>)
      modifies this
      ensures (objects, if e.None? then Answer.Deleted else Failed(e.value))
              == MemoryOp(env, old(objects), Op.Delete(cancelled, key))
    {
      if cancelled {
        return Some(Cancelled);
      }
      var normalized := NormalizeKey(key);
      if normalized.Err? {
        return Some(BadKey(normalized.error));
      }
      objects := objects - {normalized.value};
      e := None;
    }
  }

  // ------------------------------------------------------------------
  // Both stores, call by call
  // ------------------------------------------------------------------

  /** A call as a client makes it: a body is a reader, and the file store draws its temporary name from `names`. */
  datatype Call =
    | Put(key: string, script: seq<Turn>, contentType: string, names: seq<Draw>)
    | Get(cancelled: bool, key: string)
    | Stat(cancelled: bool, key: string)
    | Delete(cancelled: bool, key: string)

  /** Names for the temporary file of `key`: none is the object's own, and one is neither a key of the run nor on
      the way to one, so that it is free whatever the others are. */
  ghost predicate NamesOffered(env: Env, keys: set<string>, key: string, names: seq<Draw>) {
    && (forall i :: 0 <= i < |names| ==> TempPath(TargetDir(env, key), names[i]) != Target(env, key))
    && (exists i :: 0 <= i < |names| && B.FreshTemp(env, keys, TempPath(TargetDir(env, key), names[i])))
  }

  /** The key is one of the run's if it is acceptable at all; a Put is offered temporary names, and the metadata of
      what it stores survives the codec. */
  ghost predicate CallOk(env: Env, keys: set<string>, call: Call) {
    && (Acceptable(call.key) ==> call.key in keys)
    && (call.Put? ==> ValidScript(call.script))
    && (call.Put? && call.key in keys ==>
          && NamesOffered(env, keys, call.key, call.names)
          && (var d := Delivered(call.script);
              d.complete ==> Survives(env.codec, Described(env, call.key, d.bytes, call.contentType))))
  }

  /** Without a clash nothing stands in the way of a Put. */
  lemma PutCanStage(env: Env, keys: set<string>, t: Tree, m: Memory, k: string, names: seq<Draw>)
    requires B.Usable(env, keys) && B.RunInv(env, keys, t, m) && k in keys && NamesOffered(env, keys, k, names)
    ensures F.CanStage(env, t, k, names)
  {
    hide Split, CanBeDir, Target, Sidecar, B.HoldsObject, B.Usable;
    B.NoClash(env, keys, t, m, k);
    B.ParentMakeable(env, t, m, k);
    B.SidecarReachable(env, t, m, k);
    var dir := TargetDir(env, k);
    var i :| 0 <= i < |names| && B.FreshTemp(env, keys, TempPath(dir, names[i]));
    B.TempIsOk(env, keys, t, m, k, names[i]);
    assert |TempPath(dir, names[i])| > |dir|;
    assert TempPath(dir, names[i]) !in WithDirs(t, dir);
  }

  lemma TempGood(env: Env, t: Tree, k: string, names: seq<Draw>, i: nat)
    requires i < |names| && TempPath(TargetDir(env, k), names[i]) !in t
    requires TempPath(TargetDir(env, k), names[i]) != Target(env, k)
    ensures B.TempOk(env, t, k, TempPath(TargetDir(env, k), names[i]))
  {
    hide Target;
  }

  /** One call on each store: without faults the answers agree. */
  method Both(files: F.Store, memory: Store, call: Call, ghost keys: set<string>) returns (a: Answer, b: Answer)
    requires files.env == memory.env && files.disk.faults == []
    requires B.Usable(files.env, keys)
    requires B.RunInv(files.env, keys, files.disk.tree, memory.objects) && CallOk(files.env, keys, call)
    modifies files.disk, memory
    ensures a == b && files.disk.faults == []
    ensures B.RunInv(files.env, keys, files.disk.tree, memory.objects)
  {
    hide B.Usable, Survives, B.RunInv, FileStat, FileGet, FilePut, FileDelete, NormalizeKey, B.FreshTemp, Acceptable,
      Untouched, PutTree, F.CanStage, Described, Target, Sidecar, TargetDir, C.OnTheWay, C.AllOnTheWay, C.AllUntouched,
      C.PlanOf, C.Passed, Replaced, C.Truncated, C.Created, IsTemp;
    ghost var env, t, m := files.env, files.disk.tree, memory.objects;
    NormalizeExact(call.key);
    match call
    case Put(key, script, contentType, names) =>
      ghost var d := Delivered(script);
      if Acceptable(key) {
        PutCanStage(env, keys, t, m, key, names);
      }
      var body := new Reader(script);
      var r, temp := files.Put(key, body, contentType, names);
      var again := new Reader(script);
      var s := memory.Put(key, again, contentType);
      a, b := F.AnswerOf(r), F.AnswerOf(s);
      if Acceptable(key) {
        ghost var i :| 0 <= i < |names| && temp == TempPath(TargetDir(env, key), names[i]);
        TempGood(env, t, key, names, i);
        B.StepSimulates(env, keys, t, m, Op.Put(key, d.bytes, d.complete, contentType, names[i]));
      }
    case Get(cancelled, key) =>
      B.StepSimulates(env, keys, t, m, Op.Get(cancelled, key));
      var r := files.Get(cancelled, key);
      var s := memory.Get(cancelled, key);
      a := if r.Ok? then Found(r.value.0, r.value.1) else Failed(r.error);
      b := if s.Ok? then Found(s.value.data, s.value.info) else Failed(s.error);
    case Stat(cancelled, key) =>
      B.StepSimulates(env, keys, t, m, Op.Stat(cancelled, key));
      var r := files.Stat(cancelled, key);
      var s := memory.Get(cancelled, key);
      a := if r.Ok? then Known(r.value) else Failed(r.error);
      b := if s.Ok? then Known(s.value.info) else Failed(s.error);
    case Delete(cancelled, key) =>
      B.StepSimulates(env, keys, t, m, Op.Delete(cancelled, key));
      var r := files.Delete(cancelled, key);
      var s := memory.Delete(cancelled, key);
      a := if r.None? then Answer.Deleted else Failed(r.value);
      b := if s.None? then Answer.Deleted else Failed(s.value);
  }

  /** Over any run of calls with prefix-free keys and no faults, the two stores answer alike. */
  method RunBoth(files: F.Store, memory: Store, calls: seq<Call>, ghost keys: set<string>)
    returns (fileAnswers: seq<Answer>, memoryAnswers: seq<Answer>)
    requires files.env == memory.env && files.disk.faults == []
    requires B.Usable(files.env, keys)
    requires B.RunInv(files.env, keys, files.disk.tree, memory.objects)
    requires forall i :: 0 <= i < |calls| ==> CallOk(files.env, keys, calls[i])
    modifies files.disk, memory
    ensures |fileAnswers| == |calls| && fileAnswers == memoryAnswers
  {
    hide B.Usable, Survives, B.RunInv, CallOk;
    fileAnswers, memoryAnswers := [], [];
    for i := 0 to |calls|
      invariant files.disk.faults == [] && B.RunInv(files.env, keys, files.disk.tree, memory.objects)
      invariant |fileAnswers| == i && fileAnswers == memoryAnswers
    {
      var a, b := Both(files, memory, calls[i], keys);
      fileAnswers, memoryAnswers := fileAnswers + [a], memoryAnswers + [b];
    }
  }
}
