/** What a reader is told in the states that a crash during a Put of the file
    store (blobx/file.go) can leave, and exactly when that is neither the old
    answer nor the new one. */
module CrashSafety {
  import opened Text
  import opened Keys
  import opened FileSystem
  import opened Blob
  import opened CrashStates
  import B = BlobSimulation
  import L = BlobLaws

  /** A body with its size, under the content type and ETag of `metadata`. */
  function BodyUnder(k: string, body: seq<byte>, metadata: Option<Object>): Result<(seq<byte>, Object), StoreError> {
    Ok((body, Labelled(k, |body|, metadata)))
  }

  /** A crash during a Put that draws `n` can leave this state. */
  ghost predicate Leaves(env: Env, t: Tree, s: Tree, k: string, body: seq<byte>, ct: string, n: Draw) {
    OnTheWay(t, s, PlanOf(env, k, TempPath(TargetDir(env, k), n), body, ct))
  }

  // ------------------------------------------------------------------
  // The object itself
  // ------------------------------------------------------------------

  /** What is found at a path that has not changed, if the way to it has not either. */
  lemma UntouchedReads(t: Tree, s: Tree, except: set<Path>, p: Path)
    requires Untouched(t, s, except) && p !in except && (Blocked(s, p) <==> Blocked(t, p))
    ensures L.SameAt(t, s, p)
  {
    hide Blocked;
  }

  lemma SameFilesSameAnswers(env: Env, t: Tree, s: Tree, k: string)
    requires Acceptable(k) && L.SameAt(t, s, Target(env, k)) && L.SameAt(t, s, Sidecar(env, k))
    ensures FileGet(env, s, false, k) == FileGet(env, t, false, k)
    ensures FileStat(env, s, false, k) == FileStat(env, t, false, k)
  {
    NormalizeExact(k);
    hide Split, NormalizeKey, Acceptable, Target, Sidecar, Resolve;
  }

  /** Changes beside a key and its metadata are not seen. */
  lemma ElsewhereUnseen(env: Env, t: Tree, s: Tree, except: set<Path>, k: string)
    requires Acceptable(k) && Untouched(t, s, except)
    requires forall q :: q <= Target(env, k) ==> q !in except
    requires forall q :: q <= Sidecar(env, k) ==> q !in except
    ensures FileGet(env, s, false, k) == FileGet(env, t, false, k)
    ensures FileStat(env, s, false, k) == FileStat(env, t, false, k)
  {
    hide *;
    SameWayAfter(t, s, except, Target(env, k));
    SameWayAfter(t, s, except, Sidecar(env, k));
    UntouchedReads(t, s, except, Target(env, k));
    UntouchedReads(t, s, except, Sidecar(env, k));
    SameFilesSameAnswers(env, t, s, k);
  }

  lemma AbsentIsNotFound(env: Env, t: Tree, k: string)
    requires Acceptable(k) && !Blocked(t, Target(env, k))
    requires Target(env, k) in t ==> t[Target(env, k)].Dir?
    ensures FileGet(env, t, false, k) == Err(NotFound)
  {
    NormalizeExact(k);
    hide Split, NormalizeKey, Acceptable, Target, Sidecar, Blocked;
  }

  lemma PresentIsFound(env: Env, t: Tree, k: string, body: seq<byte>)
    requires Acceptable(k) && !Blocked(t, Target(env, k)) && InPlace(t, Target(env, k), body)
    ensures FileGet(env, t, false, k) == BodyUnder(k, body, ReadMetadata(env, t, k))
  {
    NormalizeExact(k);
    hide Split, NormalizeKey, Acceptable, Target, Sidecar, Blocked, ReadMetadata;
  }

  /** The metadata that is read while it is being written. */
  lemma MetadataOnTheWay(env: Env, t: Tree, s: Tree, k: string, metadata: seq<byte>)
    requires PartWritten(t, s, Sidecar(env, k), metadata)
    requires Blocked(s, Sidecar(env, k)) <==> Blocked(t, Sidecar(env, k))
    ensures || ReadMetadata(env, s, k) == ReadMetadata(env, t, k)
            || exists n :: 0 <= n <= |metadata| && ReadMetadata(env, s, k) == env.codec.decode(metadata[..n])
  {
    hide Sidecar, Blocked;
    var p := Sidecar(env, k);
    if !Blocked(s, p) && p in s && s[p].File? && s[p].data <= metadata {
      var n := |s[p].data|;
      assert metadata[..n] == s[p].data;
      assert ReadMetadata(env, s, k) == env.codec.decode(metadata[..n]);
    }
  }

  /** The body is staged under the object's own name. */
  ghost predicate OwnNameDrawn(env: Env, t: Tree, k: string, temp: Path) {
    temp == Target(env, k) && temp !in t && CanBeDir(t, TargetDir(env, k))
  }

  /** In any state that a crash can leave, Get answers as before the Put, or with the complete new body: then under
      the old content type and ETag, or under what the codec makes of the part of the new metadata that has been
      written; or, if the name drawn was the object's own, with a part of the body. */
  lemma CrashAnswers(env: Env, t: Tree, s: Tree, k: string, temp: Path, body: seq<byte>, ct: string)
    requires Acceptable(k) && IsTemp(TargetDir(env, k), temp) && OnTheWay(t, s, PlanOf(env, k, temp, body, ct))
    ensures var metadata := env.codec.encode(Described(env, k, body, ct)); var answer := FileGet(env, s, false, k);
            || answer == FileGet(env, t, false, k)
            || answer == BodyUnder(k, body, ReadMetadata(env, t, k))
            || (exists n :: 0 <= n <= |metadata| && answer == BodyUnder(k, body, env.codec.decode(metadata[..n])))
            || (&& OwnNameDrawn(env, t, k, temp)
                && exists n :: 0 <= n < |body| && answer == BodyUnder(k, body[..n], ReadMetadata(env, t, k)))
  {
    hide *;
    var plan := PlanOf(env, k, temp, body, ct);
    PlanIs(env, k, temp, body, ct);
    NotOnTheWay(env, k, temp);
    WayCases(t, s, plan);
    if Untouched(t, s, {}) {
      ElsewhereUnseen(env, t, s, {}, k);
    } else {
      TargetInDir(env, k);
      WayIntoDir(t, TargetDir(env, k), Target(env, k));
      if Writing(t, s, temp, body) {
        StagedAnswers(env, t, s, k, temp, body);
      } else if Committed(t, s, plan) {
        CommittedAnswers(env, t, s, k, plan);
      } else {
        LostAnswers(env, t, s, k, plan);
      }
    }
  }

  lemma TargetInDir(env: Env, k: string)
    ensures Target(env, k) != [] && Parent(Target(env, k)) == TargetDir(env, k)
  {
    hide Split;
  }

  lemma WayCases(t: Tree, s: Tree, plan: Plan)
    requires OnTheWay(t, s, plan)
    ensures || Untouched(t, s, {})
            || (&& plan.temp !in t && CanBeDir(t, plan.dir)
                && (Writing(t, s, plan.temp, plan.body) || Committed(t, s, plan) || Lost(t, s, plan)))
  {
    hide Untouched, CanBeDir, Writing, Committed, Lost;
  }

  lemma StagedAnswers(env: Env, t: Tree, s: Tree, k: string, temp: Path, body: seq<byte>)
    requires Acceptable(k) && IsTemp(TargetDir(env, k), temp) && temp !in t && Writing(t, s, temp, body)
    requires CanBeDir(t, TargetDir(env, k)) && !Blocked(t, Target(env, k))
    ensures var answer := FileGet(env, s, false, k);
            || answer == FileGet(env, t, false, k)
            || (&& OwnNameDrawn(env, t, k, temp)
                && (|| answer == BodyUnder(k, body, ReadMetadata(env, t, k))
                    || exists n :: 0 <= n < |body| && answer == BodyUnder(k, body[..n], ReadMetadata(env, t, k))))
  {
    hide Target, TargetDir, Sidecar, IsTemp, Blocked, Acceptable, CanBeDir, FileGet, BodyUnder, ReadMetadata;
    NotOnTheWay(env, k, temp);
    if temp != Target(env, k) {
      ElsewhereUnseen(env, t, s, {temp}, k);
    } else {
      SameWayAfter(t, s, {temp}, temp);
      SameWayAfter(t, s, {temp}, Sidecar(env, k));
      UntouchedReads(t, s, {temp}, Sidecar(env, k));
      SameMetadata(env, t, s, k);
      if temp in s && s[temp].File? {
        var n := |s[temp].data|;
        assert s[temp].data == body[..n];
        assert n == |body| ==> body[..n] == body;
        PresentIsFound(env, s, k, body[..n]);
      } else {
        AbsentIsNotFound(env, s, k);
        AbsentIsNotFound(env, t, k);
      }
    }
  }

  lemma SameMetadata(env: Env, t: Tree, s: Tree, k: string)
    requires L.SameAt(t, s, Sidecar(env, k))
    ensures ReadMetadata(env, s, k) == ReadMetadata(env, t, k)
  {
    hide Sidecar, Resolve;
  }

  lemma CommittedAnswers(env: Env, t: Tree, s: Tree, k: string, plan: Plan)
    requires Acceptable(k) && plan.target == Target(env, k) && plan.sidecar == Sidecar(env, k)
    requires IsTemp(TargetDir(env, k), plan.temp) && !Blocked(t, plan.target) && Committed(t, s, plan)
    ensures var answer := FileGet(env, s, false, k);
            || answer == BodyUnder(k, plan.body, ReadMetadata(env, t, k))
            || (exists n :: 0 <= n <= |plan.metadata|
                            && answer == BodyUnder(k, plan.body, env.codec.decode(plan.metadata[..n])))
  {
    var changed := {plan.target, plan.temp, plan.sidecar};
    hide Target, TargetDir, Sidecar, IsTemp, Blocked, Acceptable, FileGet, BodyUnder, ReadMetadata, Untouched, InPlace,
      PartWritten;
    NotOnTheWay(env, k, plan.temp);
    SameWayAfter(t, s, changed, plan.target);
    SameWayAfter(t, s, changed, plan.sidecar);
    PresentIsFound(env, s, k, plan.body);
    MetadataOnTheWay(env, t, s, k, plan.metadata);
  }

  lemma LostAnswers(env: Env, t: Tree, s: Tree, k: string, plan: Plan)
    requires Acceptable(k) && plan.target == Target(env, k) && plan.sidecar == Sidecar(env, k) && plan.temp !in t
    requires IsTemp(TargetDir(env, k), plan.temp) && !Blocked(t, plan.target) && Lost(t, s, plan)
    ensures FileGet(env, s, false, k) == FileGet(env, t, false, k)
  {
    var changed := {plan.target, plan.temp, plan.sidecar};
    hide Target, TargetDir, Sidecar, IsTemp, Blocked, Acceptable, FileGet, Untouched, PartWritten;
    NotOnTheWay(env, k, plan.temp);
    SameWayAfter(t, s, changed, plan.target);
    AbsentIsNotFound(env, s, k);
    AbsentIsNotFound(env, t, k);
  }

  /** No proper part of the encoding means anything. */
  ghost predicate RejectsParts(c: Codec, o: Object) {
    forall n :: 0 <= n < |c.encode(o)| ==> c.decode(c.encode(o)[..n]) == None
  }

  /** With such a codec there are five answers: the old one; the new body under the old content type and ETag, under
      none, or under what the codec makes of the new ones; or, if the name drawn was the object's own, a part of the
      body. */
  lemma FiveAnswers(env: Env, t: Tree, s: Tree, k: string, temp: Path, body: seq<byte>, ct: string)
    requires Acceptable(k) && IsTemp(TargetDir(env, k), temp) && OnTheWay(t, s, PlanOf(env, k, temp, body, ct))
    requires RejectsParts(env.codec, Described(env, k, body, ct))
    ensures var info := Described(env, k, body, ct); var answer := FileGet(env, s, false, k);
            || answer == FileGet(env, t, false, k)
            || answer == BodyUnder(k, body, ReadMetadata(env, t, k))
            || answer == BodyUnder(k, body, None)
            || answer == BodyUnder(k, body, env.codec.decode(env.codec.encode(info)))
            || (&& OwnNameDrawn(env, t, k, temp)
                && exists n :: 0 <= n < |body| && answer == BodyUnder(k, body[..n], ReadMetadata(env, t, k)))
  {
    hide *;
    var info := Described(env, k, body, ct);
    CrashAnswers(env, t, s, k, temp, body, ct);
    var metadata := env.codec.encode(info);
    if n :| 0 <= n <= |metadata| && FileGet(env, s, false, k) == BodyUnder(k, body, env.codec.decode(metadata[..n])) {
      PartsAreRejected(env.codec, info, n);
    }
  }

  lemma PartsAreRejected(c: Codec, o: Object, n: nat)
    requires RejectsParts(c, o) && n <= |c.encode(o)|
    ensures c.decode(c.encode(o)[..n]) == if n < |c.encode(o)| then None else c.decode(c.encode(o))
  {
    assert c.encode(o)[..|c.encode(o)|] == c.encode(o);
  }

  // ------------------------------------------------------------------
  // States that do occur
  // ------------------------------------------------------------------

  lemma CreatedIsOnTheWay(env: Env, t: Tree, k: string, temp: Path, body: seq<byte>, ct: string)
    requires temp !in t && CanBeDir(t, TargetDir(env, k))
    ensures OnTheWay(t, Created(env, t, k, temp), PlanOf(env, k, temp, body, ct))
    ensures Writing(t, Created(env, t, k, temp), temp, body)
  {
    var dirs, s := WithDirs(t, TargetDir(env, k)), Created(env, t, k, temp);
    assert [] <= body;
    hide Target, TargetDir, Sidecar, Described, CanBeDir, Prefixes, Committed, Lost;
    assert Writing(t, s, temp, body);
    hide Writing;
    PlanIs(env, k, temp, body, ct);
  }

  /** The new body without its metadata, under the temporary name's removal or not. */
  lemma ReplacedUntouched(env: Env, t: Tree, k: string, body: seq<byte>, temp: Path)
    requires B.TempOk(env, t, k, temp)
    ensures var s := Replaced(env, t, k, body, temp);
            Untouched(t, s, {Target(env, k), temp}) && InPlace(s, Target(env, k), body)
  {
    hide Target, TargetDir, Prefixes;
  }

  lemma TruncatedIsOnTheWay(env: Env, t: Tree, k: string, temp: Path, body: seq<byte>, ct: string)
    requires B.TempOk(env, t, k, temp) && IsTemp(TargetDir(env, k), temp) && CanBeDir(t, TargetDir(env, k))
    ensures OnTheWay(t, Truncated(env, t, k, body, temp), PlanOf(env, k, temp, body, ct))
  {
    var t1, s := Replaced(env, t, k, body, temp), Truncated(env, t, k, body, temp);
    var plan := PlanOf(env, k, temp, body, ct);
    PlanIs(env, k, temp, body, ct);
    PlanBeside(env, k, temp, body, ct);
    ReplacedUntouched(env, t, k, body, temp);
    TruncatedIs(env, t, k, body, temp);
    SidecarEmptied(t1, MetadataDir(env.root), Sidecar(env, k), plan.metadata);
    hide Target, TargetDir, Sidecar, Described, CanBeDir, PlanOf, Truncated, Replaced, Untouched, InPlace, Writing,
      Lost, Committed, IsTemp, MetadataDir;
    WrittenIsCommitted(t, t1, s, plan);
  }

  lemma SidecarEmptied(t: Tree, dir: Path, p: Path, data: seq<byte>)
    ensures Writing(t, WithDirs(t, dir)[p := File([])], p, data)
  {
    assert [] <= data;
    hide Prefixes;
  }

  /** Just after the rename, Get returns the new body under the content type and ETag of whatever metadata was
      there: those of the object replaced, none for a new key. */
  lemma MetadataLags(env: Env, t: Tree, k: string, body: seq<byte>, temp: Path)
    requires Acceptable(k) && B.TempOk(env, t, k, temp) && !Blocked(t, Target(env, k))
    ensures FileGet(env, Replaced(env, t, k, body, temp), false, k) == BodyUnder(k, body, ReadMetadata(env, t, k))
  {
    hide Target, Sidecar, Acceptable, Blocked, Replaced, B.TempOk, FileGet, ReadMetadata, BodyUnder;
    ReplacedUntouched(env, t, k, body, temp);
    B.UnblockedReplaced(env, t, k, body, temp);
    ReplacedSidecar(env, t, k, body, temp);
    PresentIsFound(env, Replaced(env, t, k, body, temp), k, body);
  }

  lemma ReplacedSidecar(env: Env, t: Tree, k: string, body: seq<byte>, temp: Path)
    requires B.TempOk(env, t, k, temp)
    ensures ReadMetadata(env, Replaced(env, t, k, body, temp), k) == ReadMetadata(env, t, k)
  {
    var t', p := Replaced(env, t, k, body, temp), Sidecar(env, k);
    B.ReplacedAt(env, t, k, body, temp);
    B.SidecarAway(env, k, k);
    B.MetadataElsewhere(env, k, p);
    assert p !in t ==> p !in t' by {
      hide Split, ObjectPath, MetadataPath;
    }
    hide Split, Replaced, Target, Sidecar, B.TempOk, Blocked, MetadataDir;
    forall q | q < p
      ensures q in t && t[q].File? <==> q in t' && t'[q].File?
    {
      L.Above(q, p);
    }
    L.SameWay(t, t', p);
  }

  /** With the sidecar truncated, Get returns the new body under what the codec makes of nothing. */
  lemma MetadataTruncated(env: Env, t: Tree, k: string, body: seq<byte>, temp: Path)
    requires Acceptable(k) && B.TempOk(env, t, k, temp) && !Blocked(t, Target(env, k))
    requires CanBeDir(t, MetadataDir(env.root))
    ensures FileGet(env, Truncated(env, t, k, body, temp), false, k) == BodyUnder(k, body, env.codec.decode([]))
  {
    TruncatedWay(env, t, k, body, temp);
    var s := Truncated(env, t, k, body, temp);
    assert InPlace(s, Target(env, k), body);
    hide Target, Sidecar, Truncated, Acceptable, B.TempOk, CanBeDir, FileGet, Blocked, BodyUnder, InPlace;
    PresentIsFound(env, s, k, body);
  }

  lemma TruncatedWay(env: Env, t: Tree, k: string, body: seq<byte>, temp: Path)
    requires B.TempOk(env, t, k, temp) && !Blocked(t, Target(env, k)) && CanBeDir(t, MetadataDir(env.root))
    ensures var t' := Truncated(env, t, k, body, temp);
            && !Blocked(t', Target(env, k)) && !Blocked(t', Sidecar(env, k))
            && Target(env, k) in t' && t'[Target(env, k)] == File(body)
            && Sidecar(env, k) in t' && t'[Sidecar(env, k)] == File([])
  {
    var t1, p, q := Replaced(env, t, k, body, temp), Target(env, k), Sidecar(env, k);
    B.ReplacedAt(env, t, k, body, temp);
    B.UnblockedReplaced(env, t, k, body, temp);
    B.SidecarAway(env, k, k);
    TruncatedIs(env, t, k, body, temp);
    ReplacedMakes(env, t, k, body, temp);
    hide Replaced, Truncated, Target, Sidecar, B.TempOk, ObjectsDir, MetadataDir, Blocked, CanBeDir;
    assert !(q < p);
    TruncatedClear(t1, MetadataDir(env.root), p, q);
  }

  lemma TruncatedIs(env: Env, t: Tree, k: string, body: seq<byte>, temp: Path)
    ensures Truncated(env, t, k, body, temp)
            == WithDirs(Replaced(env, t, k, body, temp), MetadataDir(env.root))[Sidecar(env, k) := File([])]
  {
    hide Replaced, WithDirs;
  }

  /** The metadata directory can still be made. */
  lemma ReplacedMakes(env: Env, t: Tree, k: string, body: seq<byte>, temp: Path)
    requires B.TempOk(env, t, k, temp) && CanBeDir(t, MetadataDir(env.root))
    ensures CanBeDir(Replaced(env, t, k, body, temp), MetadataDir(env.root))
  {
    B.ReplacedAt(env, t, k, body, temp);
    B.SidecarAway(env, k, k);
    hide Replaced, Target, Sidecar, B.TempOk, ObjectsDir, MetadataDir, Prefixes;
  }

  lemma TruncatedClear(t: Tree, dir: Path, p: Path, q: Path)
    requires CanBeDir(t, dir) && !Blocked(t, p) && q != [] && Parent(q) == dir && !(q <= p)
    ensures var t' := WithDirs(t, dir)[q := File([])]; !Blocked(t', p) && !Blocked(t', q)
  {
    var t' := WithDirs(t, dir)[q := File([])];
    forall r | r in t' && r < p
      ensures t'[r].Dir?
    {
      assert p[..|r|] == r;
    }
    L.ClearWay(t', p);
    forall r | r in t' && r < q
      ensures t'[r].Dir?
    {
      L.Above(r, q);
      assert r in Prefixes(dir);
    }
    L.ClearWay(t', q);
  }

  // ------------------------------------------------------------------
  // When a part of the body is seen
  // ------------------------------------------------------------------

  /** A body that is neither the old one nor the new one. */
  ghost predicate Torn(env: Env, t: Tree, s: Tree, k: string, body: seq<byte>) {
    var answer := FileGet(env, s, false, k);
    answer != FileGet(env, t, false, k) && !(answer.Ok? && answer.value.0 == body)
  }

  /** With the temporary file just created under its own name, an object is there, and empty. */
  lemma CreatedAnswers(env: Env, t: Tree, k: string)
    requires Acceptable(k) && Target(env, k) !in t && CanBeDir(t, TargetDir(env, k))
    requires IsTemp(TargetDir(env, k), Target(env, k))
    ensures FileGet(env, Created(env, t, k, Target(env, k)), false, k) == BodyUnder(k, [], ReadMetadata(env, t, k))
    ensures FileGet(env, t, false, k) == Err(NotFound)
  {
    var p := Target(env, k);
    var s := Created(env, t, k, p);
    assert s[p] == File([]);
    hide Target, TargetDir, Sidecar, Acceptable, CanBeDir, IsTemp, FileGet, BodyUnder, ReadMetadata, Blocked, Created,
      Writing;
    TargetInDir(env, k);
    WayIntoDir(t, TargetDir(env, k), p);
    AbsentIsNotFound(env, t, k);
    CreatedIsOnTheWay(env, t, k, p, [], "");
    WritingUntouched(t, s, p, []);
    NotOnTheWay(env, k, p);
    SameWayAfter(t, s, {p}, p);
    SameWayAfter(t, s, {p}, Sidecar(env, k));
    UntouchedReads(t, s, {p}, Sidecar(env, k));
    SameMetadata(env, t, s, k);
    PresentIsFound(env, s, k, []);
  }

  lemma TornMeans(env: Env, t: Tree, s: Tree, k: string, body: seq<byte>, ct: string, n: Draw)
    requires Acceptable(k) && Leaves(env, t, s, k, body, ct, n) && Torn(env, t, s, k, body)
    ensures CanBeDir(t, TargetDir(env, k)) && L.LooksTemporary(k) && Target(env, k) !in t && body != []
  {
    var temp := TempPath(TargetDir(env, k), n);
    hide Acceptable, TargetDir, Target, TempPath, OnTheWay, PlanOf, CanBeDir, L.LooksTemporary, FileGet, ReadMetadata,
      Described;
    TempPathIsTemp(TargetDir(env, k), n);
    CrashAnswers(env, t, s, k, temp, body, ct);
    assert OwnNameDrawn(env, t, k, temp) && body != [];
    L.OwnNameDrawable(env, k);
  }

  /** A crash during a Put can leave a torn body, for some name drawn, if and only if its parent directories can be
      made, its key could be drawn, there is no such object yet, and the body is not empty.  So no object that is
      there, and none under another key, is ever torn. */
  lemma TornIff(env: Env, t: Tree, k: string, body: seq<byte>, ct: string)
    requires Acceptable(k)
    ensures (exists n: Draw, s: Tree :: Leaves(env, t, s, k, body, ct, n) && Torn(env, t, s, k, body))
            <==> CanBeDir(t, TargetDir(env, k)) && L.LooksTemporary(k) && Target(env, k) !in t && body != []
  {
    if CanBeDir(t, TargetDir(env, k)) && L.LooksTemporary(k) && Target(env, k) !in t && body != [] {
      hide Acceptable, TargetDir, Target, TempPath, OnTheWay, PlanOf, CanBeDir, L.LooksTemporary, FileGet, ReadMetadata,
        Described, Created, IsTemp;
      L.OwnNameDrawable(env, k);
      var n: Draw :| TempPath(TargetDir(env, k), n) == Target(env, k);
      TempPathIsTemp(TargetDir(env, k), n);
      CreatedAnswers(env, t, k);
      CreatedIsOnTheWay(env, t, k, Target(env, k), body, ct);
      var s := Created(env, t, k, Target(env, k));
      assert Leaves(env, t, s, k, body, ct, n) && Torn(env, t, s, k, body);
    }
    hide *;
    if n: Draw, s: Tree :| Leaves(env, t, s, k, body, ct, n) && Torn(env, t, s, k, body) {
      TornMeans(env, t, s, k, body, ct, n);
    }
  }

  /** One such object, in a store that has never been used: the key ".blobx-1" when 1 is drawn. */
  lemma TornObject(env: Env, t: Tree, body: seq<byte>, ct: string)
    requires B.NeverUsed(env, t) && body != []
    ensures var k := ".blobx-1"; var s := Created(env, t, k, Target(env, k));
            && Acceptable(k) && TempPath(TargetDir(env, k), 1) == Target(env, k)
            && Leaves(env, t, s, k, body, ct, 1) && Torn(env, t, s, k, body)
            && FileGet(env, s, false, k) == Ok(([], Object(k, 0, "", "")))
  {
    var k := ".blobx-1";
    hide Split, ObjectsDir, MetadataDir, Target, Sidecar, TargetDir, Acceptable, TempPath, Prefixes, OnTheWay, PlanOf,
      FileGet, ReadMetadata, Created, IsTemp, CanBeDir;
    L.TemporaryLookingKey();
    L.OneSegment(env, k);
    L.TemporaryLookingPath(env);
    TempPathIsTemp(TargetDir(env, k), 1);
    CreatedAnswers(env, t, k);
    CreatedIsOnTheWay(env, t, k, Target(env, k), body, ct);
    NoMetadata(env, t, k);
  }

  lemma NoMetadata(env: Env, t: Tree, k: string)
    requires B.NeverUsed(env, t)
    ensures ReadMetadata(env, t, k) == None
  {
    B.SidecarAway(env, k, k);
    hide Target, Sidecar, CanBeDir;
  }

  // ------------------------------------------------------------------
  // When body and metadata are seen apart
  // ------------------------------------------------------------------

  /** What Get answers once the Put is done. */
  function Done(env: Env, k: string, body: seq<byte>, ct: string): Result<(seq<byte>, Object), StoreError> {
    Ok((body, Described(env, k, body, ct)))
  }

  /** In every state that a crash can leave, whatever is drawn, the answer is the old one or the new one. */
  ghost predicate AllOrNothing(env: Env, t: Tree, k: string, body: seq<byte>, ct: string) {
    forall n: Draw, s: Tree :: Leaves(env, t, s, k, body, ct, n) ==>
      FileGet(env, s, false, k) == FileGet(env, t, false, k) || FileGet(env, s, false, k) == Done(env, k, body, ct)
  }

  /** The object is there already, with this body and no metadata. */
  predicate AlreadyBare(env: Env, t: Tree, k: string, body: seq<byte>) {
    FileGet(env, t, false, k) == Ok((body, Object(k, |body|, "", "")))
  }

  lemma BareIsUnder(env: Env, t: Tree, k: string, body: seq<byte>)
    requires Acceptable(k) && AlreadyBare(env, t, k, body)
    ensures BodyUnder(k, body, ReadMetadata(env, t, k)) == FileGet(env, t, false, k)
    ensures BodyUnder(k, body, None) == FileGet(env, t, false, k)
    ensures Target(env, k) in t
  {
    NormalizeExact(k);
    hide Split, NormalizeKey, Acceptable, Target, Sidecar, Blocked, ReadMetadata;
  }

  lemma BareIsEnough(env: Env, t: Tree, s: Tree, k: string, body: seq<byte>, ct: string, n: Draw)
    requires Acceptable(k) && AlreadyBare(env, t, k, body) && Leaves(env, t, s, k, body, ct, n)
    requires RejectsParts(env.codec, Described(env, k, body, ct)) && Survives(env.codec, Described(env, k, body, ct))
    ensures FileGet(env, s, false, k) == FileGet(env, t, false, k)
            || FileGet(env, s, false, k) == Done(env, k, body, ct)
  {
    var info := Described(env, k, body, ct);
    assert BodyUnder(k, body, env.codec.decode(env.codec.encode(info))) == Done(env, k, body, ct);
    hide Acceptable, TargetDir, Target, TempPath, OnTheWay, PlanOf, CanBeDir, FileGet, ReadMetadata, Described,
      BodyUnder, RejectsParts, Survives, AlreadyBare, Done, IsTemp;
    BareIsUnder(env, t, k, body);
    TempPathIsTemp(TargetDir(env, k), n);
    FiveAnswers(env, t, s, k, TempPath(TargetDir(env, k), n), body, ct);
  }

  /** A Put is all or nothing for its readers, across a crash at any point, if and only if the object was there
      before with the same body and without metadata.  For a Put that can succeed, with a name other than the
      object's own free, a codec that rejects parts of its texts and keeps the metadata, and an ETag that is not
      empty. */
  lemma AllOrNothingIff(env: Env, t: Tree, k: string, body: seq<byte>, ct: string, free: Draw)
    requires Acceptable(k) && L.CanStore(env, t, k) && B.TempOk(env, t, k, TempPath(TargetDir(env, k), free))
    requires RejectsParts(env.codec, Described(env, k, body, ct)) && Survives(env.codec, Described(env, k, body, ct))
    requires env.codec.encode(Described(env, k, body, ct)) != [] && env.sums.body(body) != ""
    ensures AllOrNothing(env, t, k, body, ct) <==> AlreadyBare(env, t, k, body)
  {
    hide Acceptable, TargetDir, Target, Sidecar, MetadataDir, TempPath, PlanOf, CanBeDir, FileGet, ReadMetadata,
      Survives, RejectsParts, B.TempOk, Truncated, Leaves, B.Shadowed;
    if AlreadyBare(env, t, k, body) {
      forall n: Draw, s: Tree | Leaves(env, t, s, k, body, ct, n)
        ensures FileGet(env, s, false, k) == FileGet(env, t, false, k)
                || FileGet(env, s, false, k) == Done(env, k, body, ct)
      {
        BareIsEnough(env, t, s, k, body, ct, n);
      }
    }
    TruncatedSeen(env, t, k, body, ct, free);
  }

  /** The state in which the metadata file is empty, seen by a reader. */
  lemma TruncatedSeen(env: Env, t: Tree, k: string, body: seq<byte>, ct: string, free: Draw)
    requires Acceptable(k) && L.CanStore(env, t, k) && B.TempOk(env, t, k, TempPath(TargetDir(env, k), free))
    requires RejectsParts(env.codec, Described(env, k, body, ct))
    requires env.codec.encode(Described(env, k, body, ct)) != []
    ensures var s := Truncated(env, t, k, body, TempPath(TargetDir(env, k), free));
            && Leaves(env, t, s, k, body, ct, free)
            && FileGet(env, s, false, k) == Ok((body, Object(k, |body|, "", "")))
  {
    var metadata := env.codec.encode(Described(env, k, body, ct));
    assert metadata[..0] == [] && env.codec.decode([]) == None;
    hide Acceptable, TargetDir, Target, Sidecar, MetadataDir, TempPath, PlanOf, CanBeDir, FileGet, B.TempOk, Truncated,
      OnTheWay, Described, IsTemp, Blocked;
    var temp := TempPath(TargetDir(env, k), free);
    TempPathIsTemp(TargetDir(env, k), free);
    TargetInDir(env, k);
    WayIntoDir(t, TargetDir(env, k), Target(env, k));
    MetadataTruncated(env, t, k, body, temp);
    TruncatedIsOnTheWay(env, t, k, temp, body, ct);
  }

  /** One such Put: a new key in a store that has never been used. */
  lemma SeenApart(env: Env, t: Tree, body: seq<byte>, ct: string)
    requires B.NeverUsed(env, t) && RejectsParts(env.codec, Described(env, "a", body, ct))
    requires env.codec.encode(Described(env, "a", body, ct)) != [] && env.sums.body(body) != ""
    ensures var s := Truncated(env, t, "a", body, TempPath(TargetDir(env, "a"), 1));
            && Acceptable("a") && Leaves(env, t, s, "a", body, ct, 1)
            && FileGet(env, s, false, "a") == Ok((body, Object("a", |body|, "", "")))
            && FileGet(env, t, false, "a") == Err(NotFound)
            && FileGet(env, s, false, "a") != Done(env, "a", body, ct)
  {
    hide Split, ObjectsDir, MetadataDir, Target, Sidecar, TargetDir, Acceptable, TempPath, Prefixes, FileGet, Truncated,
      CanBeDir, RejectsParts, Leaves, B.TempOk;
    ShortKey();
    L.OneSegment(env, "a");
    B.SidecarAway(env, "a", "a");
    NotDrawn(env, 1);
    FreeIn(env, t, "a", 1);
    TruncatedSeen(env, t, "a", body, ct, 1);
    TargetInDir(env, "a");
    WayIntoDir(t, TargetDir(env, "a"), Target(env, "a"));
    AbsentIsNotFound(env, t, "a");
  }

  lemma ShortKey()
    ensures Acceptable("a") && Split("a", '/') == ["a"]
  {
    SplitFree("a", '/');
  }

  lemma NotDrawn(env: Env, n: Draw)
    ensures TempPath(ObjectsDir(env.root), n) != ObjectsDir(env.root) + ["a"]
  {
    hide ObjectsDir;
    assert TempName(n)[0] == '.';
    var p, q := TempPath(ObjectsDir(env.root), n), ObjectsDir(env.root) + ["a"];
    assert p[|p| - 1] == TempName(n) && q[|q| - 1] == "a";
  }

  lemma FreeIn(env: Env, t: Tree, k: string, n: Draw)
    requires B.NeverUsed(env, t) && TempPath(TargetDir(env, k), n) != Target(env, k)
    ensures B.TempOk(env, t, k, TempPath(TargetDir(env, k), n))
  {
    var temp := TempPath(TargetDir(env, k), n);
    assert Parent(temp) == TargetDir(env, k);
    hide Target, TargetDir, ObjectsDir, MetadataDir, CanBeDir, Sidecar;
    B.TempAway(env, k, temp);
  }

  // ------------------------------------------------------------------
  // Other objects
  // ------------------------------------------------------------------

  /** Neither key is the other or lies below the one that is put, and they do not share their metadata. */
  predicate Unrelated(env: Env, k: string, j: string) {
    j != k && !(Split(k, '/') < Split(j, '/')) && env.sums.key(j) != env.sums.key(k)
  }

  /** Another key answers throughout as it did before, unless it lies at or below the object or the temporary file. */
  lemma OthersDuringPut(env: Env, t: Tree, s: Tree, k: string, temp: Path, body: seq<byte>, ct: string, j: string)
    requires IsTemp(TargetDir(env, k), temp) && OnTheWay(t, s, PlanOf(env, k, temp, body, ct))
    requires Acceptable(j) && Unrelated(env, k, j)
    requires !(temp <= Target(env, j)) || Blocked(t, Target(env, j))
    ensures FileStat(env, s, false, j) == FileStat(env, t, false, j)
    ensures FileGet(env, s, false, j) == FileGet(env, t, false, j)
  {
    hide *;
    var plan := PlanOf(env, k, temp, body, ct);
    PlanIs(env, k, temp, body, ct);
    var changed := {Target(env, k), temp, Sidecar(env, k)};
    OnlyThese(t, s, plan);
    WayCases(t, s, plan);
    UnrelatedPaths(env, k, j);
    TempOutOfTheWay(env, k, temp, j);
    if Untouched(t, s, {}) {
      ElsewhereUnseen(env, t, s, {}, j);
    } else if !(temp <= Target(env, j)) {
      ElsewhereUnseen(env, t, s, changed, j);
    } else {
      StillBlocked(t, s, changed, temp, Target(env, j));
      BothBlocked(env, t, s, j);
    }
  }

  lemma UnrelatedPaths(env: Env, k: string, j: string)
    requires Unrelated(env, k, j)
    ensures !(Target(env, k) <= Target(env, j)) && !(Target(env, k) <= Sidecar(env, j))
    ensures !(Sidecar(env, k) <= Target(env, j)) && !(Sidecar(env, k) <= Sidecar(env, j))
  {
    hide Split, Target, Sidecar;
    L.OutOfTheWay(env, k, j, Target(env, k));
    L.OutOfTheWay(env, k, j, Sidecar(env, k));
  }

  lemma OnlyThese(t: Tree, s: Tree, plan: Plan)
    requires OnTheWay(t, s, plan)
    ensures Untouched(t, s, {plan.target, plan.temp, plan.sidecar})
  {
    var changed := {plan.target, plan.temp, plan.sidecar};
    if Untouched(t, s, {}) {
      UntouchedMore(t, s, {}, changed);
    } else if Writing(t, s, plan.temp, plan.body) {
      UntouchedMore(t, s, {plan.temp}, changed);
    }
    hide Untouched, CanBeDir, PartWritten;
  }

  /** What was in the way still is: the one path on it that has changed was not a file. */
  lemma StillBlocked(t: Tree, s: Tree, changed: set<Path>, temp: Path, p: Path)
    requires Untouched(t, s, changed) && temp !in t && Blocked(t, p)
    requires forall q :: q <= p && q in changed ==> q == temp
    ensures Blocked(s, p)
  {
    var i :| 0 <= i < |p| && p[..i] in t && t[p[..i]].File?;
    assert p[..i] <= p;
    assert p[..i] in s && s[p[..i]].File?;
  }

  lemma BothBlocked(env: Env, t: Tree, s: Tree, j: string)
    requires Acceptable(j) && Blocked(t, Target(env, j)) && Blocked(s, Target(env, j))
    ensures FileStat(env, s, false, j) == FileStat(env, t, false, j) == Err(StatFailed)
    ensures FileGet(env, s, false, j) == FileGet(env, t, false, j) == Err(StatFailed)
  {
    NormalizeExact(j);
    hide Split, NormalizeKey, Acceptable, Target, Sidecar, Blocked;
  }

  /** A key lies neither at nor below a temporary file if none of its segments could be drawn. */
  lemma ClearOfTemps(env: Env, k: string, temp: Path, j: string)
    requires IsTemp(TargetDir(env, k), temp)
    requires forall i :: 0 <= i < |Split(j, '/')| ==> !IsTempName(Split(j, '/')[i])
    ensures !(temp <= Target(env, j))
  {
    B.TempAway(env, k, temp);
    var n, last := |ObjectsDir(env.root)|, |temp| - 1;
    hide Split, TargetDir, IsTempName, Sidecar;
    assert last < |Target(env, j)| ==> Target(env, j)[last] == Split(j, '/')[last - n];
  }

  lemma TempOutOfTheWay(env: Env, k: string, temp: Path, j: string)
    requires IsTemp(TargetDir(env, k), temp)
    ensures !(temp <= Sidecar(env, j))
  {
    B.TempAway(env, k, temp);
    B.SidecarAway(env, j, k);
    hide Split, Target, Sidecar, ObjectsDir;
  }

  /** A temporary file at or above the key's path shows. */
  lemma TempShows(env: Env, t: Tree, k: string, temp: Path, j: string)
    requires Acceptable(j) && IsTemp(TargetDir(env, k), temp) && temp !in t && CanBeDir(t, TargetDir(env, k))
    requires temp <= Target(env, j) && !Blocked(t, Target(env, j))
    ensures FileGet(env, Created(env, t, k, temp), false, j) != FileGet(env, t, false, j)
  {
    var p, s := Target(env, j), Created(env, t, k, temp);
    assert s[temp] == File([]);
    CreatedIsOnTheWay(env, t, k, temp, [], "");
    hide Target, TargetDir, Sidecar, IsTemp, CanBeDir, Acceptable, Created, FileGet, BodyUnder, ReadMetadata, Writing,
      OnTheWay, PlanOf;
    if temp == p {
      WritingUntouched(t, s, p, []);
      SameWayAfter(t, s, {p}, p);
      AbsentIsNotFound(env, t, j);
      PresentIsFound(env, s, j, []);
      Differ(env, s, j);
    } else {
      assert p[..|temp|] == temp;
      assert Blocked(s, p);
      BlockedFails(env, t, s, j);
    }
  }

  lemma Differ(env: Env, s: Tree, j: string)
    ensures BodyUnder(j, [], ReadMetadata(env, s, j)) != Err(NotFound)
  {
  }

  lemma BlockedFails(env: Env, t: Tree, s: Tree, j: string)
    requires Acceptable(j) && !Blocked(t, Target(env, j)) && Blocked(s, Target(env, j))
    ensures FileGet(env, s, false, j) != FileGet(env, t, false, j)
  {
    NormalizeExact(j);
    hide Split, NormalizeKey, Acceptable, Target, Sidecar, Blocked, ReadMetadata;
  }

  /** A name is free whose path is that of `j` or above it. */
  ghost predicate InTheWayOf(env: Env, t: Tree, k: string, j: string, n: Draw) {
    TempPath(TargetDir(env, k), n) !in t && TempPath(TargetDir(env, k), n) <= Target(env, j)
  }

  /** A Put can be seen through the answer for another key, in some state that a crash can leave and for some name
      drawn, if and only if its parent directories can be made, a free name is at or above the path of that key, and
      nothing else was in the way there.  So it never is through a key none of whose segments could be drawn. */
  lemma OthersDisturbedIff(env: Env, t: Tree, k: string, body: seq<byte>, ct: string, j: string)
    requires Acceptable(j) && Unrelated(env, k, j)
    ensures (exists n: Draw, s: Tree :: Leaves(env, t, s, k, body, ct, n)
                                        && FileGet(env, s, false, j) != FileGet(env, t, false, j))
            <==> && CanBeDir(t, TargetDir(env, k)) && !Blocked(t, Target(env, j))
                 && exists n: Draw :: InTheWayOf(env, t, k, j, n)
  {
    hide Acceptable, TargetDir, Target, TempPath, PlanOf, CanBeDir, FileGet, Blocked, Created, IsTemp, Unrelated,
      OnTheWay;
    if CanBeDir(t, TargetDir(env, k)) && !Blocked(t, Target(env, j)) {
      if n: Draw :| InTheWayOf(env, t, k, j, n) {
        var temp := TempPath(TargetDir(env, k), n);
        TempPathIsTemp(TargetDir(env, k), n);
        TempShows(env, t, k, temp, j);
        CreatedIsOnTheWay(env, t, k, temp, body, ct);
        assert Leaves(env, t, Created(env, t, k, temp), k, body, ct, n);
      }
    }
    if n: Draw, s: Tree :| Leaves(env, t, s, k, body, ct, n) && FileGet(env, s, false, j) != FileGet(env, t, false, j) {
      DisturbedMeans(env, t, s, k, body, ct, j, n);
    }
  }

  lemma DisturbedMeans(env: Env, t: Tree, s: Tree, k: string, body: seq<byte>, ct: string, j: string, n: Draw)
    requires Acceptable(j) && Unrelated(env, k, j) && Leaves(env, t, s, k, body, ct, n)
    requires FileGet(env, s, false, j) != FileGet(env, t, false, j)
    ensures CanBeDir(t, TargetDir(env, k)) && !Blocked(t, Target(env, j)) && InTheWayOf(env, t, k, j, n)
  {
    hide Acceptable, TargetDir, Target, Sidecar, TempPath, CanBeDir, FileGet, Blocked, IsTemp, Unrelated, OnTheWay,
      PlanOf, Untouched;
    var temp := TempPath(TargetDir(env, k), n);
    TempPathIsTemp(TargetDir(env, k), n);
    PlanIs(env, k, temp, body, ct);
    WayCases(t, s, PlanOf(env, k, temp, body, ct));
    if !(temp <= Target(env, j)) || Blocked(t, Target(env, j)) {
      OthersDuringPut(env, t, s, k, temp, body, ct, j);
    }
    if Untouched(t, s, {}) {
      ElsewhereUnseen(env, t, s, {}, j);
    }
  }

  /** One such key: while "x" is being put under the name drawn with 1, there is an empty object ".blobx-1". */
  lemma TempSeen(env: Env, t: Tree, body: seq<byte>, ct: string)
    requires B.NeverUsed(env, t)
    ensures var temp := TempPath(TargetDir(env, "x"), 1); var s := Created(env, t, "x", temp);
            && Acceptable("x") && Acceptable(".blobx-1") && temp == Target(env, ".blobx-1")
            && Leaves(env, t, s, "x", body, ct, 1)
            && FileGet(env, t, false, ".blobx-1") == Err(NotFound)
            && FileGet(env, s, false, ".blobx-1") == Ok(([], Object(".blobx-1", 0, "", "")))
  {
    var j := ".blobx-1";
    hide Split, ObjectsDir, MetadataDir, Target, Sidecar, TargetDir, Acceptable, TempPath, Prefixes, OnTheWay, PlanOf,
      FileGet, ReadMetadata, IsTemp, CanBeDir;
    SimpleKey();
    L.OneSegment(env, "x");
    L.TemporaryLookingKey();
    L.OneSegment(env, j);
    L.TemporaryLookingPath(env);
    TempPathIsTemp(TargetDir(env, j), 1);
    CreatedAnswers(env, t, j);
    NoMetadata(env, t, j);
    CreatedIsOnTheWay(env, t, "x", Target(env, j), body, ct);
  }
}
