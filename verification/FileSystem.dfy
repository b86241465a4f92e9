/** One Unix-like directory tree, and the operating system calls that
    blobx/file.go makes on it.  Any call may fail. */
module FileSystem {
  import opened Text
  import opened Keys

  datatype Node = File(data: seq<byte>) | Dir

  type Tree = map<Path, Node>

  /** What an error tells the caller: only the first is fs.ErrNotExist. */
  datatype FsError = NotExist | NotDirectory | Other

  /** A file stands in the way of reaching `p`. */
  predicate Blocked(t: Tree, p: Path) {
    exists i :: 0 <= i < |p| && p[..i] in t && t[p[..i]].File?
  }

  function Resolve(t: Tree, p: Path): Result<Node, FsError> {
    if Blocked(t, p) then Err(NotDirectory) else if p in t then Ok(t[p]) else Err(NotExist)
  }

  function Prefixes(p: Path): (s: set<Path>)
    ensures forall q :: q in s <==> q <= p
  {
    assert forall q :: q <= p ==> q == p[..|q|];
    set i | 0 <= i <= |p| :: p[..i]
  }

  /** The tree with every missing directory on the way to `p` made. */
  function WithDirs(t: Tree, p: Path): (t': Tree)
    ensures forall q :: q in t' <==> q in t || q in Prefixes(p)
    ensures forall q :: q in t ==> t'[q] == t[q]
    ensures forall q :: q in t' && q !in t ==> t'[q] == Dir
  {
    t + (map q | q in Prefixes(p) - t.Keys :: Dir)
  }

  /** `p` can be made a directory: no file is on the way or at its end. */
  predicate CanBeDir(t: Tree, p: Path) {
    forall q :: q in Prefixes(p) && q in t ==> t[q].Dir?
  }

  function Parent(p: Path): Path
    requires p != []
  {
    p[..|p| - 1]
  }

  predicate IsEmptyDir(t: Tree, p: Path) {
    p in t && t[p].Dir? && forall q :: q in t ==> !(p < q)
  }

  function RemoveError(t: Tree, p: Path): Option<FsError> {
    match Resolve(t, p)
    case Err(e) => Some(e)
    case Ok(node) => if node.File? || IsEmptyDir(t, p) then None else Some(Other)
  }

  /** What os.CreateTemp draws: a 32-bit number, written in decimal after the prefix. */
  type Draw = n: int | 0 <= n < 0x1_0000_0000

  const TEMP_PREFIX := ".blobx-"

  function TempName(n: Draw): string {
    TEMP_PREFIX + Decimal(n)
  }

  function TempPath(dir: Path, n: Draw): Path {
    dir + [TempName(n)]
  }

  /** A name that could be drawn. */
  predicate IsTempName(s: string) {
    && HasPrefix(s, ".blobx-")
    && (var digits := s[7..];
        digits != "" && AllDigits(digits) && NoLeadingZero(digits) && Value(digits) < 0x1_0000_0000)
  }

  lemma TempNameIs(n: Draw)
    ensures IsTempName(TempName(n))
  {
    var s, d := TempName(n), Decimal(n);
    ValueDecimal(n);
    assert |".blobx-"| == 7 && s[..7] == ".blobx-" && s[7..] == d;
  }

  lemma DrawOf(s: string) returns (n: Draw)
    requires IsTempName(s)
    ensures TempName(n) == s
  {
    assert |".blobx-"| == 7;
    var digits := s[7..];
    n := Value(digits);
    DecimalValue(digits);
    assert s == ".blobx-" + digits;
  }

  /** The names that could be drawn are those with a decimal 32-bit number, and no leading zero, after the prefix. */
  lemma TempNames(s: string)
    ensures IsTempName(s) <==> exists n: Draw :: TempName(n) == s
  {
    hide TempName, IsTempName;
    if IsTempName(s) {
      var n := DrawOf(s);
    }
    if n: Draw :| TempName(n) == s {
      TempNameIs(n);
    }
  }

  /** A path as os.CreateTemp makes them. */
  predicate IsTemp(dir: Path, temp: Path) {
    temp != [] && Parent(temp) == dir && IsTempName(temp[|temp| - 1])
  }

  lemma TempPathIsTemp(dir: Path, n: Draw)
    ensures IsTemp(dir, TempPath(dir, n))
  {
    hide IsTempName, TempName;
    TempNameIs(n);
  }

  predicate HasFreeName(t: Tree, dir: Path, names: seq<Draw>) {
    exists i :: 0 <= i < |names| && TempPath(dir, names[i]) !in t
  }

  /** Nothing outside `except` has changed, apart from directories that are new. */
  ghost predicate Untouched(t: Tree, t': Tree, except: set<Path>) {
    && (forall p :: p in t && p !in except ==> p in t' && t'[p] == t[p])
    && (forall p :: p in t' && p !in t && p !in except ==> t'[p].Dir?)
  }

  /** What is at `p` is what was there, or as much of `data` as has been written. */
  ghost predicate PartWritten(t: Tree, t': Tree, p: Path, data: seq<byte>) {
    || ((p in t ==> p in t' && t'[p] == t[p]) && (p !in t && p in t' ==> t'[p].Dir?))
    || (p in t' && t'[p].File? && t'[p].data <= data)
  }

  lemma UntouchedSame(t: Tree)
    ensures Untouched(t, t, {})
  {
  }

  lemma WithDirsMakes(t: Tree, p: Path)
    requires CanBeDir(t, p)
    ensures p in WithDirs(t, p) && WithDirs(t, p)[p] == Dir
  {
    assert p in Prefixes(p);
  }

  lemma WithDirsUntouched(t: Tree, p: Path)
    ensures Untouched(t, WithDirs(t, p), {})
  {
    hide Prefixes;
  }

  lemma UntouchedTrans(a: Tree, b: Tree, c: Tree, x: set<Path>, y: set<Path>)
    requires Untouched(a, b, x) && Untouched(b, c, y)
    ensures Untouched(a, c, x + y)
  {
  }

  lemma UntouchedMore(a: Tree, b: Tree, x: set<Path>, y: set<Path>)
    requires Untouched(a, b, x) && x <= y
    ensures Untouched(a, b, y)
  {
  }

  /** The disk.  `faults` scripts the coming calls: none lets a call through, some k makes it fail, a write after at
      most k bytes; once used up, calls do what the tree allows.  `log` holds the tree after every change: the
      states in which a crash could leave it. */
  class Disk {
    var tree: Tree
    var faults: seq<Option<nat>>
    ghost var log: seq<Tree>

    constructor (tree: Tree, faults: seq<Option<nat>>)
      ensures this.tree == tree && this.faults == faults && log == []
    {
      this.tree, this.faults, log := tree, faults, [];
    }

    method Fault() returns (f: Option<nat>)
      modifies this`faults
      ensures old(faults) == [] ==> f.None? && faults == []
    {
      if faults == [] {
        f := None;
      } else {
        f := faults[0];
        faults := faults[1..];
      }
    }

    method Change(t: Tree)
      modifies this`tree, this`log
      ensures tree == t && log == old(log) + [t]
    {
      tree := t;
      log := log + [t];
    }

    /** os.MkdirAll: one directory after another, from the top. */
    method MkdirAll(dir: Path) returns (failed: bool)
      modifies this
      ensures old(log) <= log
      ensures forall i :: |old(log)| <= i < |log| ==> Untouched(old(tree), log[i], {})
      ensures Untouched(old(tree), tree, {})
      ensures !failed ==> CanBeDir(old(tree), dir) && tree == WithDirs(old(tree), dir)
      ensures old(faults) == [] ==> failed == !CanBeDir(old(tree), dir) && faults == []
    {
      hide Prefixes, WithDirs, Untouched;
      failed := false;
      var i := 0;
      UntouchedSame(tree);
      while i <= |dir|
        invariant 0 <= i <= |dir| + 1
        invariant old(log) <= log
        invariant forall k :: |old(log)| <= k < |log| ==> Untouched(old(tree), log[k], {})
        invariant Untouched(old(tree), tree, {})
        invariant i == 0 ==> tree == old(tree)
        invariant i > 0 ==> CanBeDir(old(tree), dir[..i - 1]) && tree == WithDirs(old(tree), dir[..i - 1])
        invariant old(faults) == [] ==> faults == []
      {
        var p := dir[..i];
        assert p in Prefixes(dir);
        assert i > 0 ==> p[..i - 1] == dir[..i - 1];
        if p in tree && tree[p].File? {
          assert p in old(tree);
          return true;
        }
        if p !in tree {
          var f := Fault();
          if f.Some? {
            return true;
          }
          Change(tree[p := Dir]);
        }
        PrefixStep(old(tree), tree, dir, i);
        WithDirsUntouched(old(tree), p);
        i := i + 1;
      }
      assert dir[..|dir|] == dir;
    }

    /** One more directory on the way down. */
    static lemma PrefixStep(t0: Tree, t: Tree, dir: Path, i: nat)
      requires i <= |dir| && dir[..i] in t && t[dir[..i]] == Dir
      requires i == 0 ==> t == t0 || (dir[..0] !in t0 && t == t0[dir[..0] := Dir])
      requires i > 0 ==> CanBeDir(t0, dir[..i - 1])
                         && (|| t == WithDirs(t0, dir[..i - 1])
                             || (dir[..i] !in t0 && t == WithDirs(t0, dir[..i - 1])[dir[..i] := Dir]))
      ensures CanBeDir(t0, dir[..i]) && t == WithDirs(t0, dir[..i])
    {
      PrefixesDown(dir, i);
      hide Prefixes, WithDirs;
      var p := dir[..i];
      if i == 0 {
        OneMoreDir(t0, t0, t, {}, Prefixes(p), p);
      } else {
        OneMoreDir(t0, WithDirs(t0, dir[..i - 1]), t, Prefixes(dir[..i - 1]), Prefixes(p), p);
      }
      WithDirsIs(t0, p, t);
    }

    /** A tree is told by what it holds. */
    static lemma WithDirsIs(t0: Tree, p: Path, t: Tree)
      requires (forall q :: q in t <==> q in t0 || q in Prefixes(p)) && (forall q :: q in t0 ==> t[q] == t0[q])
      requires forall q :: q in t && q !in t0 ==> t[q] == Dir
      ensures t == WithDirs(t0, p)
    {
      hide Prefixes;
    }

    /** A directory more in a tree that has the directories of `made` more than `t0`. */
    static lemma OneMoreDir(t0: Tree, t1: Tree, t: Tree, made: set<Path>, more: set<Path>, p: Path)
      requires more == made + {p} && (forall q :: q in made && q in t0 ==> t0[q].Dir?)
      requires (forall q :: q in t1 <==> q in t0 || q in made) && (forall q :: q in t0 ==> t1[q] == t0[q])
      requires forall q :: q in t1 && q !in t0 ==> t1[q] == Dir
      requires p in t && t[p] == Dir && (t == t1 || (p !in t0 && t == t1[p := Dir]))
      ensures (forall q :: q in t <==> q in t0 || q in more) && (forall q :: q in t0 ==> t[q] == t0[q])
      ensures forall q :: q in t && q !in t0 ==> t[q] == Dir
      ensures forall q :: q in more && q in t0 ==> t0[q].Dir?
    {
    }

    /** os.CreateTemp: the first candidate name that is free. */
    method CreateTemp(dir: Path, names: seq<Draw>) returns (failed: bool, temp: Path)
      modifies this
      ensures IsTemp(dir, temp)
      ensures !failed ==> temp !in old(tree) && tree == old(tree)[temp := File([])] && log == old(log) + [tree]
      ensures !failed ==> exists i :: 0 <= i < |names| && temp == TempPath(dir, names[i])
      ensures failed ==> tree == old(tree) && log == old(log)
      ensures old(faults) == [] ==>
                faults == [] && failed == !(dir in tree && tree[dir].Dir? && HasFreeName(old(tree), dir, names))
    {
      temp := TempPath(dir, 0);
      TempPathIsTemp(dir, 0);
      failed := true;
      var f := Fault();
      if f.Some? || dir !in tree || tree[dir].File? {
        return;
      }
      var i := 0;
      while i < |names|
        invariant 0 <= i <= |names|
        invariant forall k :: 0 <= k < i ==> TempPath(dir, names[k]) in tree
      {
        if TempPath(dir, names[i]) !in tree {
          temp := TempPath(dir, names[i]);
          TempPathIsTemp(dir, names[i]);
          Change(tree[temp := File([])]);
          return false, temp;
        }
        i := i + 1;
      }
    }

    /** A write to an open file. */
    method Append(p: Path, data: seq<byte>) returns (n: nat, failed: bool)
      requires p in tree && tree[p].File?
      modifies this
      ensures n <= |data| && (n < |data| ==> failed)
      ensures tree == old(tree)[p := File(old(tree)[p].data + data[..n])] && log == old(log) + [tree]
      ensures old(faults) == [] ==> !failed && faults == []
    {
      var f := Fault();
      failed := f.Some?;
      n := if f.Some? && f.value < |data| then f.value else |data|;
      Change(tree[p := File(tree[p].data + data[..n])]);
    }

    /** Closing a file, which may report a late error. */
    method CloseFile() returns (failed: bool)
      modifies this`faults
      ensures old(faults) == [] ==> !failed && faults == []
    {
      var f := Fault();
      failed := f.Some?;
    }

    /** os.Rename of a file: it replaces a file but not a directory. */
    method Rename(from: Path, to: Path) returns (failed: bool)
      requires from in tree && tree[from].File?
      modifies this
      ensures !failed ==> !(to in old(tree) && old(tree)[to].Dir?)
                          && tree == (old(tree) - {from})[to := old(tree)[from]] && log == old(log) + [tree]
      ensures failed ==> tree == old(tree) && log == old(log)
      ensures old(faults) == [] ==> failed == (to in old(tree) && old(tree)[to].Dir?) && faults == []
    {
      var f := Fault();
      if f.Some? || (to in tree && tree[to].Dir?) {
        return true;
      }
      Change((tree - {from})[to := tree[from]]);
      failed := false;
    }

    /** os.Stat, os.Open */
    method Look(p: Path) returns (r: Result<Node, FsError>)
      modifies this`faults
      ensures r == Err(Other) || r == Resolve(tree, p)
      ensures old(faults) == [] ==> r == Resolve(tree, p) && faults == []
    {
      var f := Fault();
      r := if f.Some? then Err(Other) else Resolve(tree, p);
    }

    /** os.Remove: a file, or an empty directory. */
    method Remove(p: Path) returns (e: Option<FsError>)
      modifies this
      ensures e.None? ==> p in old(tree) && tree == old(tree) - {p} && log == old(log) + [tree]
      ensures e.Some? ==> tree == old(tree) && log == old(log)
      ensures e == Some(NotExist) ==> Resolve(tree, p) == Err(NotExist)
      ensures old(faults) == [] ==> faults == [] && e == RemoveError(old(tree), p)
    {
      var f := Fault();
      if f.Some? {
        return Some(Other);
      }
      e := RemoveError(tree, p);
      if e.None? {
        Change(tree - {p});
      }
    }

    /** os.WriteFile: truncate or create, then write. */
    method WriteFile(p: Path, data: seq<byte>) returns (failed: bool)
      requires p != []
      modifies this
      ensures old(log) <= log
      ensures forall i :: |old(log)| <= i < |log| ==> Untouched(old(tree), log[i], {p})
      ensures forall i :: |old(log)| <= i < |log| ==> PartWritten(old(tree), log[i], p, data)
      ensures Untouched(old(tree), tree, {p}) && PartWritten(old(tree), tree, p, data)
      ensures !failed ==> tree == old(tree)[p := File(data)]
                          && |log| > |old(log)| && log[|old(log)|] == old(tree)[p := File([])]
      ensures old(faults) == [] ==>
                && faults == []
                && failed == !(Resolve(old(tree), Parent(p)) == Ok(Dir) && !(p in old(tree) && old(tree)[p].Dir?))
    {
      var f := Fault();
      if f.Some? || Resolve(tree, Parent(p)) != Ok(Dir) || (p in tree && tree[p].Dir?) {
        return true;
      }
      Change(tree[p := File([])]);
      var n, err := Append(p, data);
      assert [] + data[..n] == data[..n];
      assert !err ==> data[..n] == data;
      failed := err;
    }
  }

  lemma PrefixesDown(dir: Path, i: nat)
    requires i <= |dir|
    ensures i == 0 ==> Prefixes(dir[..i]) == {dir[..i]}
    ensures i > 0 ==> Prefixes(dir[..i]) == Prefixes(dir[..i - 1]) + {dir[..i]}
  {
    var p := dir[..i];
    if i == 0 {
      assert forall q :: q in Prefixes(p) ==> q == p;
    } else {
      forall q | q in Prefixes(p)
        ensures q in Prefixes(dir[..i - 1]) + {p}
      {
        assert q == p[..|q|];
        if |q| < i {
          assert q == dir[..i - 1][..|q|];
          assert q <= dir[..i - 1];
        } else {
          assert q == p;
        }
      }
      forall q | q in Prefixes(dir[..i - 1])
        ensures q in Prefixes(p)
      {
        assert q == dir[..i - 1][..|q|] && q == p[..|q|];
      }
    }
  }
}
