/** The trees that the disk goes through during a Put of the file store
    (blobx/file.go): what any of its system calls can leave behind. */
module CrashStates {
  import opened Text
  import opened Keys
  import opened FileSystem
  import opened Blob
  import B = BlobSimulation
  import L = BlobLaws

  /** What a Put sets out to do. */
  datatype Plan = Plan(dir: Path, target: Path, temp: Path, sidecar: Path, body: seq<byte>, metadata: seq<byte>)

  function PlanOf(env: Env, k: string, temp: Path, body: seq<byte>, contentType: string): Plan {
    Plan(TargetDir(env, k), Target(env, k), temp, Sidecar(env, k), body,
         env.codec.encode(Described(env, k, body, contentType)))
  }

  lemma PlanIs(env: Env, k: string, temp: Path, body: seq<byte>, ct: string)
    ensures var plan := PlanOf(env, k, temp, body, ct);
            && plan.dir == TargetDir(env, k) && plan.target == Target(env, k) && plan.temp == temp
            && plan.sidecar == Sidecar(env, k) && plan.body == body
            && plan.metadata == env.codec.encode(Described(env, k, body, ct))
  {
  }

  /** The sidecar is neither the object nor the temporary file. */
  predicate Beside(plan: Plan) {
    plan.sidecar != plan.target && plan.sidecar != plan.temp
  }

  /** The body is in place. */
  ghost predicate InPlace(t: Tree, target: Path, body: seq<byte>) {
    target in t && t[target] == File(body)
  }

  /** Data on its way into a file, and nothing else changed but for new directories. */
  ghost predicate Writing(t: Tree, s: Tree, p: Path, data: seq<byte>) {
    Untouched(t, s, {p}) && PartWritten(t, s, p, data)
  }

  /** From the rename on: the new body, and beside it the old metadata or as much of the new as has been written. */
  ghost predicate Committed(t: Tree, s: Tree, plan: Plan) {
    && InPlace(s, plan.target, plan.body)
    && Untouched(t, s, {plan.target, plan.temp, plan.sidecar})
    && PartWritten(t, s, plan.sidecar, plan.metadata)
  }

  /** The temporary name was the object's own, and has been removed. */
  ghost predicate Lost(t: Tree, s: Tree, plan: Plan) {
    && plan.temp == plan.target && plan.target !in s
    && Untouched(t, s, {plan.target, plan.temp, plan.sidecar})
    && PartWritten(t, s, plan.sidecar, plan.metadata)
  }

  /** What a crash may leave: new directories; or with them as much of the body as has been written, under the
      temporary name; or the complete new body in its place; or, for an object whose own name was drawn, neither. */
  ghost predicate OnTheWay(t: Tree, s: Tree, plan: Plan) {
    || Untouched(t, s, {})
    || (&& plan.temp !in t && CanBeDir(t, plan.dir)
        && (Writing(t, s, plan.temp, plan.body) || Committed(t, s, plan) || Lost(t, s, plan)))
  }

  // The same of every tree that the disk has gone through since `from`.

  ghost predicate AllUntouched(t: Tree, log: seq<Tree>, from: nat, except: set<Path>)
    requires from <= |log|
  {
    forall i :: from <= i < |log| ==> Untouched(t, log[i], except)
  }

  ghost predicate AllWriting(t: Tree, log: seq<Tree>, from: nat, p: Path, data: seq<byte>)
    requires from <= |log|
  {
    forall i :: from <= i < |log| ==> Writing(t, log[i], p, data)
  }

  ghost predicate AllCommitted(t: Tree, log: seq<Tree>, from: nat, plan: Plan)
    requires from <= |log|
  {
    forall i :: from <= i < |log| ==> Committed(t, log[i], plan)
  }

  ghost predicate AllOnTheWay(t: Tree, log: seq<Tree>, from: nat, plan: Plan)
    requires from <= |log|
  {
    forall i :: from <= i < |log| ==> OnTheWay(t, log[i], plan)
  }

  /** The disk has been in this state since `from`. */
  ghost predicate Passed(log: seq<Tree>, from: nat, s: Tree) {
    exists i :: from <= i < |log| && log[i] == s
  }

  lemma StillPassed(log: seq<Tree>, more: seq<Tree>, from: nat, s: Tree)
    requires Passed(log, from, s) && log <= more
    ensures Passed(more, from, s)
  {
    var i :| from <= i < |log| && log[i] == s;
    assert more[i] == s;
  }

  lemma PassedEarlier(log: seq<Tree>, from: nat, earlier: nat, s: Tree)
    requires Passed(log, from, s) && earlier <= from
    ensures Passed(log, earlier, s)
  {
  }

  lemma PassedLast(log: seq<Tree>, from: nat, s: Tree)
    requires from < |log| && log[|log| - 1] == s
    ensures Passed(log, from, s)
  {
  }

  // ------------------------------------------------------------------
  // Writing
  // ------------------------------------------------------------------

  lemma WritingIs(t: Tree, s: Tree, p: Path, data: seq<byte>)
    requires Untouched(t, s, {p}) && PartWritten(t, s, p, data)
    ensures Writing(t, s, p, data)
  {
    hide Untouched, PartWritten;
  }

  lemma WritingUntouched(t: Tree, s: Tree, p: Path, data: seq<byte>)
    requires Writing(t, s, p, data)
    ensures Untouched(t, s, {p})
  {
    hide Untouched, PartWritten;
  }

  lemma DirsAreWriting(t: Tree, s: Tree, p: Path, data: seq<byte>)
    requires Untouched(t, s, {})
    ensures Writing(t, s, p, data)
  {
  }

  lemma SameIsWriting(t: Tree, p: Path, data: seq<byte>)
    ensures Writing(t, t, p, data)
  {
  }

  lemma WritingTrans(t: Tree, t1: Tree, s: Tree, p: Path, data: seq<byte>)
    requires Writing(t, t1, p, data) && Writing(t1, s, p, data)
    ensures Writing(t, s, p, data)
  {
    UntouchedTrans(t, t1, s, {p}, {p});
    assert {p} + {p} == {p};
  }

  lemma PartTrans(t: Tree, t1: Tree, s: Tree, p: Path, data: seq<byte>)
    requires (p in t ==> p in t1 && t1[p] == t[p]) && (p !in t && p in t1 ==> t1[p].Dir?)
    requires PartWritten(t1, s, p, data)
    ensures PartWritten(t, s, p, data)
  {
  }

  lemma NothingWritten(t: Tree, log: seq<Tree>, p: Path, data: seq<byte>)
    ensures AllWriting(t, log, |log|, p, data)
  {
  }

  lemma AllUntouchedIs(t: Tree, log: seq<Tree>, from: nat, except: set<Path>)
    requires from <= |log| && forall i :: from <= i < |log| ==> Untouched(t, log[i], except)
    ensures AllUntouched(t, log, from, except)
  {
    hide Untouched;
  }

  lemma AllWritingIs(t: Tree, log: seq<Tree>, from: nat, p: Path, data: seq<byte>)
    requires from <= |log|
    requires forall i :: from <= i < |log| ==> Untouched(t, log[i], {p}) && PartWritten(t, log[i], p, data)
    ensures AllWriting(t, log, from, p, data)
  {
    hide Untouched, PartWritten;
  }

  lemma MadeAreWriting(t: Tree, log: seq<Tree>, from: nat, p: Path, data: seq<byte>)
    requires from <= |log| && AllUntouched(t, log, from, {})
    ensures AllWriting(t, log, from, p, data)
  {
    hide Untouched, Writing;
    forall i | from <= i < |log|
      ensures Writing(t, log[i], p, data)
    {
      DirsAreWriting(t, log[i], p, data);
    }
  }

  lemma OneMoreWritten(t: Tree, log: seq<Tree>, from: nat, p: Path, data: seq<byte>, s: Tree)
    requires from <= |log| && AllWriting(t, log, from, p, data) && Writing(t, s, p, data)
    ensures AllWriting(t, log + [s], from, p, data)
  {
    hide Writing;
  }

  /** Two stretches of writing are one. */
  lemma WritingLog(t: Tree, t1: Tree, before: seq<Tree>, after: seq<Tree>, from: nat, p: Path, data: seq<byte>)
    requires from <= |before| && before <= after && Writing(t, t1, p, data)
    requires AllWriting(t, before, from, p, data) && AllWriting(t1, after, |before|, p, data)
    ensures AllWriting(t, after, from, p, data)
  {
    hide Writing;
    forall i | from <= i < |after|
      ensures Writing(t, after[i], p, data)
    {
      if i < |before| {
        assert after[i] == before[i];
      } else {
        WritingTrans(t, t1, after[i], p, data);
      }
    }
  }

  // ------------------------------------------------------------------
  // Committing
  // ------------------------------------------------------------------

  lemma WrittenIsCommitted(t: Tree, t1: Tree, s: Tree, plan: Plan)
    requires Untouched(t, t1, {plan.target, plan.temp}) && InPlace(t1, plan.target, plan.body) && Beside(plan)
    requires Writing(t1, s, plan.sidecar, plan.metadata)
    ensures Committed(t, s, plan)
  {
    UntouchedTrans(t, t1, s, {plan.target, plan.temp}, {plan.sidecar});
    assert {plan.target, plan.temp} + {plan.sidecar} == {plan.target, plan.temp, plan.sidecar};
    PartTrans(t, t1, s, plan.sidecar, plan.metadata);
  }

  lemma CommitLog(t: Tree, t1: Tree, log1: seq<Tree>, log: seq<Tree>, from: nat, plan: Plan)
    requires from + 1 == |log1| && log1 <= log && log1[from] == t1 && Beside(plan)
    requires Untouched(t, t1, {plan.target, plan.temp}) && InPlace(t1, plan.target, plan.body)
    requires AllWriting(t1, log, |log1|, plan.sidecar, plan.metadata)
    ensures AllCommitted(t, log, from, plan)
  {
    hide Untouched, InPlace, Writing, Committed, Beside;
    forall i | from <= i < |log|
      ensures Committed(t, log[i], plan)
    {
      if i == from {
        assert log[i] == log1[from];
        SameIsWriting(t1, plan.sidecar, plan.metadata);
      }
      WrittenIsCommitted(t, t1, log[i], plan);
    }
  }

  /** A tree in which the body is staged under a free name. */
  ghost predicate Staged(t: Tree, t1: Tree, plan: Plan) {
    plan.temp !in t && CanBeDir(t, plan.dir) && Writing(t, t1, plan.temp, plan.body)
  }

  lemma StagedIsOnTheWay(t: Tree, s: Tree, plan: Plan)
    requires Staged(t, s, plan)
    ensures OnTheWay(t, s, plan)
  {
    hide Untouched, CanBeDir, Writing, Committed, Lost;
  }

  lemma DirsAreOnTheWay(t: Tree, s: Tree, plan: Plan)
    requires Untouched(t, s, {})
    ensures OnTheWay(t, s, plan)
  {
    hide Untouched;
  }

  lemma CommittedIsOnTheWay(t: Tree, t1: Tree, s: Tree, plan: Plan)
    requires Staged(t, t1, plan) && Committed(t1, s, plan) && Beside(plan)
    ensures OnTheWay(t, s, plan)
  {
    UntouchedTrans(t, t1, s, {plan.temp}, {plan.target, plan.temp, plan.sidecar});
    assert {plan.temp} + {plan.target, plan.temp, plan.sidecar} == {plan.target, plan.temp, plan.sidecar};
    PartTrans(t, t1, s, plan.sidecar, plan.metadata);
    hide Untouched, PartWritten, InPlace, CanBeDir;
  }

  lemma DirsLog(t: Tree, log: seq<Tree>, from: nat, plan: Plan)
    requires from <= |log| && AllUntouched(t, log, from, {})
    ensures AllOnTheWay(t, log, from, plan)
  {
    hide Untouched, OnTheWay;
    forall i | from <= i < |log|
      ensures OnTheWay(t, log[i], plan)
    {
      DirsAreOnTheWay(t, log[i], plan);
    }
  }

  /** Staging, and then committing. */
  lemma PutLog(t: Tree, t1: Tree, log1: seq<Tree>, log: seq<Tree>, from: nat, plan: Plan)
    requires from <= |log1| && log1 <= log && Staged(t, t1, plan) && Beside(plan)
    requires AllWriting(t, log1, from, plan.temp, plan.body) && AllCommitted(t1, log, |log1|, plan)
    ensures AllOnTheWay(t, log, from, plan)
  {
    hide CanBeDir, Writing, Committed, OnTheWay, Beside;
    forall i | from <= i < |log|
      ensures OnTheWay(t, log[i], plan)
    {
      if i < |log1| {
        assert log[i] == log1[i];
        StagedIsOnTheWay(t, log[i], plan);
      } else {
        CommittedIsOnTheWay(t, t1, log[i], plan);
      }
    }
  }

  lemma NothingCommitted(t: Tree, log: seq<Tree>, plan: Plan)
    ensures AllCommitted(t, log, |log|, plan)
  {
  }

  /** Taking the temporary name away. */
  lemma RemovedIsOnTheWay(t: Tree, s: Tree, plan: Plan)
    requires OnTheWay(t, s, plan) && plan.temp !in t && Beside(plan)
    ensures OnTheWay(t, s - {plan.temp}, plan)
  {
    var s' := s - {plan.temp};
    hide CanBeDir;
    if Untouched(t, s, {}) {
      assert Untouched(t, s', {});
    } else if Writing(t, s, plan.temp, plan.body) {
      assert Writing(t, s', plan.temp, plan.body);
    } else {
      assert Untouched(t, s', {plan.target, plan.temp, plan.sidecar});
      assert PartWritten(t, s', plan.sidecar, plan.metadata);
    }
  }

  lemma RemovedLog(t: Tree, s: Tree, log: seq<Tree>, from: nat, plan: Plan)
    requires from <= |log| && plan.temp !in t && Beside(plan) && OnTheWay(t, s, plan) && AllOnTheWay(t, log, from, plan)
    ensures AllOnTheWay(t, log + [s - {plan.temp}], from, plan) && OnTheWay(t, s - {plan.temp}, plan)
  {
    hide OnTheWay, Beside;
    RemovedIsOnTheWay(t, s, plan);
    var log' := log + [s - {plan.temp}];
    forall i | from <= i < |log'|
      ensures OnTheWay(t, log'[i], plan)
    {
      if i < |log| { assert log'[i] == log[i]; }
    }
  }

  // ------------------------------------------------------------------
  // Ways
  // ------------------------------------------------------------------

  /** The way to a path is as clear as it was, when what has changed is not on it. */
  lemma SameWayAfter(t: Tree, s: Tree, except: set<Path>, p: Path)
    requires Untouched(t, s, except) && (forall q :: q < p ==> q !in except)
    ensures Blocked(s, p) <==> Blocked(t, p)
  {
    forall q | q < p
      ensures q in t && t[q].File? <==> q in s && s[q].File?
    {
    }
    hide *;
    L.SameWay(t, s, p);
  }

  lemma NotOnTheWay(env: Env, k: string, temp: Path)
    requires IsTemp(TargetDir(env, k), temp)
    ensures !(Target(env, k) < Sidecar(env, k)) && !(temp < Target(env, k)) && !(temp < Sidecar(env, k))
    ensures !(Sidecar(env, k) < Target(env, k)) && Target(env, k) != Sidecar(env, k) && temp != Sidecar(env, k)
  {
    B.SidecarAway(env, k, k);
    B.TempAway(env, k, temp);
    assert |temp| == |Target(env, k)|;
    hide Split, ObjectPath, MetadataPath, ObjectsDir, MetadataDir;
    var q := Sidecar(env, k);
    if Target(env, k) < q {
      L.Above(Target(env, k), q);
    }
    if temp < q {
      L.Above(temp, q);
      TempBesideMetadata(env, temp);
    }
  }

  lemma TempBesideMetadata(env: Env, temp: Path)
    requires ObjectsDir(env.root) < temp
    ensures !(temp <= MetadataDir(env.root))
  {
    B.ObjectsNotOnTheWay(env, temp);
  }

  lemma PlanBeside(env: Env, k: string, temp: Path, body: seq<byte>, ct: string)
    requires IsTemp(TargetDir(env, k), temp)
    ensures Beside(PlanOf(env, k, temp, body, ct))
  {
    hide Target, Sidecar, TargetDir, IsTemp, Described;
    NotOnTheWay(env, k, temp);
  }

  /** Where a directory can be made, nothing is in the way of a file in it. */
  lemma WayIntoDir(t: Tree, dir: Path, p: Path)
    requires p != [] && Parent(p) == dir && CanBeDir(t, dir)
    ensures !Blocked(t, p)
  {
    forall q | q in t && q < p
      ensures t[q].Dir?
    {
      L.Above(q, p);
      assert q in Prefixes(dir);
    }
    hide CanBeDir, Prefixes;
    L.ClearWay(t, p);
  }

  // ------------------------------------------------------------------
  // States that do occur
  // ------------------------------------------------------------------

  /** The parent directories made and the temporary file created. */
  function Created(env: Env, t: Tree, k: string, temp: Path): Tree {
    WithDirs(t, TargetDir(env, k))[temp := File([])]
  }

  /** The metadata directory made and the sidecar truncated, the body in place. */
  function Truncated(env: Env, t: Tree, k: string, body: seq<byte>, temp: Path): Tree {
    WithDirs(Replaced(env, t, k, body, temp), MetadataDir(env.root))[Sidecar(env, k) := File([])]
  }
}
