/** Object keys (blobx/blob.go), where they lead on the file system
    (blobx/file.go) and in a bucket (blobx/s3.go). */
module Keys {
  import opened Text
  import opened PathClean

  datatype KeyError = EmptyKey | InvalidCharacters | NotRelative | InvalidSegment | NotCanonical

  predicate BadSegment(segment: string) {
    segment == "" || segment == "." || segment == ".."
  }

  function NormalizeKey(key: string): Result<string, KeyError> {
    if key == "" then Err(EmptyKey)
    else if !Free(key, '\0') || !Free(key, '\\') then Err(InvalidCharacters)
    else if key[0] == '/' || key[|key| - 1] == '/' then Err(NotRelative)
    else if exists i :: 0 <= i < |Split(key, '/')| && BadSegment(Split(key, '/')[i]) then Err(InvalidSegment)
    else
      var normalized := Clean(key);
      if normalized == "." || normalized != key then Err(NotCanonical) else Ok(normalized)
  }

  /** What the documentation asks of a key. */
  predicate Acceptable(key: string) {
    && key != "" && Free(key, '\0') && Free(key, '\\')
    && (forall i :: 0 <= i < |Split(key, '/')| ==>
          Split(key, '/')[i] != "" && Split(key, '/')[i] != "." && Split(key, '/')[i] != "..")
  }

  lemma SegmentsOrdinary(key: string)
    requires Acceptable(key)
    ensures forall i :: 0 <= i < |Split(key, '/')| ==> Ordinary(Split(key, '/')[i])
  {
    SplitPartsAreFree(key, '/');
  }

  lemma {:induction false} EdgeSlash(key: string)
    requires key != ""
    ensures key[0] == '/' ==> Split(key, '/')[0] == ""
    ensures key[|key| - 1] == '/' ==> Split(key, '/')[|Split(key, '/')| - 1] == ""
  {
    if key[|key| - 1] == '/' {
      var init := key[..|key| - 1];
      SplitConcat(init, '/', "");
      assert key == init + "/" + "";
      SplitFree("", '/');
    }
  }

  /** A key is accepted exactly when it is acceptable, and comes back unchanged: the final check on the cleaned path
      never rejects. */
  lemma NormalizeExact(key: string)
    ensures NormalizeKey(key).Ok? <==> Acceptable(key)
    ensures NormalizeKey(key).Ok? ==> NormalizeKey(key).value == key
    ensures NormalizeKey(key) != Err(NotCanonical)
  {
    if key != "" {
      EdgeSlash(key);
      if Acceptable(key) {
        SegmentsOrdinary(key);
        CleanIdentity(key);
      }
      hide Split, Clean;
      if forall i :: 0 <= i < |Split(key, '/')| ==> !BadSegment(Split(key, '/')[i]) {
        assert !BadSegment(Split(key, '/')[0]) && !BadSegment(Split(key, '/')[|Split(key, '/')| - 1]);
      }
    }
  }

  /** Keys are their segments. */
  lemma KeyOfSegments(segments: seq<string>)
    requires segments != []
    requires forall i :: 0 <= i < |segments| ==>
               Ordinary(segments[i]) && Free(segments[i], '\0') && Free(segments[i], '\\')
    ensures Acceptable(Join(segments, "/")) && Split(Join(segments, "/"), '/') == segments
  {
    SplitJoin(segments, '/');
    JoinFree(segments, "/", '\0');
    JoinFree(segments, "/", '\\');
    JoinEmptyOnly(segments);
  }

  lemma {:induction false} PartFree(s: string, sep: char, c: char)
    requires Free(s, c)
    ensures forall i :: 0 <= i < |Split(s, sep)| ==> Free(Split(s, sep)[i], c)
  {
    if s != "" {
      PartFree(s[1..], sep, c);
    }
  }

  lemma SegmentsOfKey(key: string)
    requires Acceptable(key)
    ensures forall i :: 0 <= i < |Split(key, '/')| ==>
              Ordinary(Split(key, '/')[i]) && Free(Split(key, '/')[i], '\0') && Free(Split(key, '/')[i], '\\')
  {
    SegmentsOrdinary(key);
    PartFree(key, '/', '\0');
    PartFree(key, '/', '\\');
  }

  lemma KeysAreTheirSegments(a: string, b: string)
    requires Split(a, '/') == Split(b, '/')
    ensures a == b
  {
    JoinSplit(a, '/');
    JoinSplit(b, '/');
  }

  // ------------------------------------------------------------------
  // Paths on the file system, as sequences of elements below the root directory
  // ------------------------------------------------------------------

  type Path = seq<string>

  function ObjectsDir(root: Path): Path {
    root + [".blobx", "objects"]
  }

  function MetadataDir(root: Path): Path {
    root + [".blobx", "metadata"]
  }

  function ObjectPath(root: Path, key: string): Path {
    ObjectsDir(root) + Split(key, '/')
  }

  function MetadataPath(root: Path, sum: string): Path {
    MetadataDir(root) + [sum]
  }

  /** Distinct keys have distinct paths, strictly below the objects directory. */
  lemma ObjectPaths(root: Path, a: string, b: string)
    ensures ObjectPath(root, a) == ObjectPath(root, b) ==> a == b
    ensures ObjectsDir(root) < ObjectPath(root, a)
  {
    var dir := ObjectsDir(root);
    assert ObjectPath(root, a)[|dir|..] == Split(a, '/') && ObjectPath(root, b)[|dir|..] == Split(b, '/');
    if ObjectPath(root, a) == ObjectPath(root, b) {
      KeysAreTheirSegments(a, b);
    }
  }

  /** Objects and metadata never meet: neither path is the other's or above it. */
  lemma ObjectsAndMetadata(root: Path, key: string, sum: string)
    ensures !(ObjectPath(root, key) <= MetadataPath(root, sum)) && !(MetadataPath(root, sum) <= ObjectPath(root, key))
  {
    hide Split;
    assert ObjectPath(root, key)[|root| + 1] == "objects";
    assert MetadataPath(root, sum)[|root| + 1] == "metadata";
  }

  lemma FixedElements()
    ensures Split(".blobx/objects", '/') == [".blobx", "objects"]
    ensures Ordinary(".blobx") && Ordinary("objects")
  {
    var fixed := [".blobx", "objects"];
    assert Join(fixed, "/") == ".blobx/objects";
    SplitJoin(fixed, '/');
  }

  /** Cleaning a clean absolute path with more ordinary elements after it just adds them. */
  lemma CleanJoined(root: Path, rest: string)
    requires forall i :: 0 <= i < |root| ==> Ordinary(root[i])
    requires forall i :: 0 <= i < |Split(rest, '/')| ==> Ordinary(Split(rest, '/')[i])
    ensures Clean(Rendered(true, root) + "/" + rest) == Rendered(true, root + Split(rest, '/'))
  {
    var head := Rendered(true, root);
    var text := head + "/" + rest;
    assert text[0] == '/' && text != "";
    assert Rendered(true, root + Split(rest, '/')) != "";
    hide Split, Clean, Rendered, Ordinary;
    RootedSegments(root);
    SplitConcat(head, '/', rest);
    CleanMeans(text);
    PushConcat(Split(head, '/'), Split(rest, '/'));
    PushOrdinary(true, root, Split(rest, '/'));
  }

  /** filepath.Join of a clean absolute root with the fixed elements and a key is that path, written out. */
  lemma ObjectPathText(root: Path, key: string)
    requires Acceptable(key)
    requires forall i :: 0 <= i < |root| ==> Ordinary(root[i])
    ensures Clean(Rendered(true, root) + "/" + (".blobx/objects" + "/" + key)) == Rendered(true, ObjectPath(root, key))
  {
    hide Split, Clean, Rendered, Ordinary, Acceptable;
    FixedElements();
    SegmentsOrdinary(key);
    SplitConcat(".blobx/objects", '/', key);
    CleanJoined(root, ".blobx/objects" + "/" + key);
    Regroup(root, [".blobx", "objects"], Split(key, '/'));
  }

  /** The same of the metadata, whose name is a hexadecimal sum. */
  lemma MetadataPathText(root: Path, sum: string)
    requires Ordinary(sum)
    requires forall i :: 0 <= i < |root| ==> Ordinary(root[i])
    ensures Clean(Rendered(true, root) + "/" + (".blobx/metadata" + "/" + sum))
            == Rendered(true, MetadataPath(root, sum))
  {
    SplitFree(sum, '/');
    hide Split, Clean, Rendered, Ordinary;
    MetadataElements();
    SplitConcat(".blobx/metadata", '/', sum);
    CleanJoined(root, ".blobx/metadata" + "/" + sum);
    Regroup(root, [".blobx", "metadata"], [sum]);
  }

  lemma MetadataElements()
    ensures Split(".blobx/metadata", '/') == [".blobx", "metadata"]
    ensures Ordinary(".blobx") && Ordinary("metadata")
  {
    var fixed := [".blobx", "metadata"];
    assert Join(fixed, "/") == ".blobx/metadata";
    SplitJoin(fixed, '/');
  }

  lemma {:induction false} PushConcat(first: seq<string>, second: seq<string>)
    ensures PushAll(true, [], first + second) == PushAll(true, PushAll(true, [], first), second)
  {
    PushConcatFrom([], first, second);
  }

  lemma {:induction false} PushConcatFrom(stack: seq<string>, first: seq<string>, second: seq<string>)
    ensures PushAll(true, stack, first + second) == PushAll(true, PushAll(true, stack, first), second)
    decreases |first|
  {
    hide Push;
    if first == [] {
      assert first + second == second;
    } else {
      assert (first + second)[1..] == first[1..] + second;
      PushConcatFrom(Push(true, stack, first[0]), first[1..], second);
    }
  }

  /** Reading a clean absolute path gives its elements. */
  lemma RootedSegments(root: Path)
    requires forall i :: 0 <= i < |root| ==> Ordinary(root[i])
    ensures PushAll(true, [], Split(Rendered(true, root), '/')) == root
  {
    var text := Rendered(true, root);
    SplitPrepend('/', Join(root, "/"), '/');
    assert text == "/" + Join(root, "/");
    var rest := Split(Join(root, "/"), '/');
    assert ([""] + rest)[1..] == rest;
    if root == [] {
      SplitFree("", '/');
      assert [""][1..] == [];
      assert PushAll(true, [], [""]) == PushAll(true, [], []);
    } else {
      SplitJoin(root, '/');
      PushOrdinary(true, [], root);
      assert [] + root == root;
    }
  }

  // ------------------------------------------------------------------
  // Keys in a bucket
  // ------------------------------------------------------------------

  function TrimLeft(s: string): string {
    if s != "" && s[0] == '/' then TrimLeft(s[1..]) else s
  }

  function TrimRight(s: string): string {
    if s != "" && s[|s| - 1] == '/' then TrimRight(s[..|s| - 1]) else s
  }

  /** newS3Store: the prefix a store ends up with. */
  function StorePrefix(keyPrefix: string): Result<string, KeyError> {
    var prefix := TrimLeft(TrimRight(keyPrefix));
    if prefix == "" then Ok(prefix)
    else
      match NormalizeKey(prefix)
      case Ok(_) => Ok(prefix)
      case Err(e) => Err(e)
  }

  function ProviderKey(prefix: string, key: string): string {
    if prefix == "" then key else prefix + "/" + key
  }

  function PrefixSegments(prefix: string): seq<string> {
    if prefix == "" then [] else Split(prefix, '/')
  }

  predicate ValidPrefix(prefix: string) {
    prefix == "" || Acceptable(prefix)
  }

  function Slashes(n: nat): string {
    if n == 0 then "" else "/" + Slashes(n - 1)
  }

  /** A text with slashes around it. */
  ghost predicate SlashesAround(s: string, v: string) {
    exists m: nat, n: nat :: s == Slashes(m) + v + Slashes(n)
  }

  lemma {:induction false} SlashesSnoc(n: nat)
    ensures Slashes(n + 1) == Slashes(n) + "/"
  {
    if n > 0 {
      SlashesSnoc(n - 1);
    }
  }

  lemma TrimOneRight(s: string)
    ensures TrimRight(s + "/") == TrimRight(s)
  {
    assert (s + "/")[..|s|] == s;
  }

  lemma TrimOneLeft(s: string)
    ensures TrimLeft("/" + s) == TrimLeft(s)
  {
    assert ("/" + s)[1..] == s;
  }

  lemma {:induction false} TrimRightOf(s: string, n: nat)
    requires s == "" || s[|s| - 1] != '/'
    ensures TrimRight(s + Slashes(n)) == s
  {
    if n == 0 {
      assert s + Slashes(0) == s;
    } else {
      var shorter := s + Slashes(n - 1);
      TrimRightOf(s, n - 1);
      SlashesSnoc(n - 1);
      Regroup(s, Slashes(n - 1), "/");
      TrimOneRight(shorter);
    }
  }

  lemma {:induction false} TrimLeftOf(s: string, n: nat)
    requires s == "" || s[0] != '/'
    ensures TrimLeft(Slashes(n) + s) == s
  {
    if n == 0 {
      assert Slashes(0) + s == s;
    } else {
      TrimLeftOf(s, n - 1);
      Regroup("/", Slashes(n - 1), s);
      TrimOneLeft(Slashes(n - 1) + s);
    }
  }

  lemma {:induction false} TrimmedRight(s: string) returns (n: nat)
    ensures s == TrimRight(s) + Slashes(n)
  {
    if s != "" && s[|s| - 1] == '/' {
      var m := TrimmedRight(s[..|s| - 1]);
      SlashesSnoc(m);
      n := m + 1;
      assert s == s[..|s| - 1] + "/";
    } else {
      n := 0;
    }
  }

  lemma {:induction false} TrimmedLeft(s: string) returns (n: nat)
    ensures s == Slashes(n) + TrimLeft(s)
  {
    if s != "" && s[0] == '/' {
      var m := TrimmedLeft(s[1..]);
      n := m + 1;
      assert s == "/" + s[1..];
    } else {
      n := 0;
    }
  }

  /** A store takes exactly the prefixes that are, between slashes of any number, empty or a key. */
  lemma StorePrefixes(keyPrefix: string, v: string)
    ensures StorePrefix(keyPrefix) == Ok(v) <==> ValidPrefix(v) && SlashesAround(keyPrefix, v)
  {
    NormalizeExact(TrimLeft(TrimRight(keyPrefix)));
    if StorePrefix(keyPrefix) == Ok(v) {
      hide NormalizeKey, Slashes;
      var n := TrimmedRight(keyPrefix);
      var m := TrimmedLeft(TrimRight(keyPrefix));
      assert keyPrefix == Slashes(m) + v + Slashes(n);
    }
    if ValidPrefix(v) && SlashesAround(keyPrefix, v) {
      var m: nat, n: nat :| keyPrefix == Slashes(m) + v + Slashes(n);
      hide NormalizeKey;
      PrefixTrimmed(v, m, n);
    }
  }

  lemma {:induction false} PrefixTrimmed(v: string, m: nat, n: nat)
    requires ValidPrefix(v)
    ensures TrimLeft(TrimRight(Slashes(m) + v + Slashes(n))) == v
  {
    if v == "" {
      AllSlashes(m, n);
    } else {
      EdgeSlash(v);
      assert !BadSegment(Split(v, '/')[0]) && !BadSegment(Split(v, '/')[|Split(v, '/')| - 1]);
      hide Split, Slashes, TrimLeft, TrimRight;
      TrimRightOf(Slashes(m) + v, n);
      TrimLeftOf(v, m);
    }
  }

  lemma {:induction false} AllSlashes(m: nat, n: nat)
    ensures TrimLeft(TrimRight(Slashes(m) + "" + Slashes(n))) == ""
  {
    EmptyAround(Slashes(m));
    SlashesAdd(m, n);
    NothingButSlashes(m + n);
    hide Slashes, TrimRight;
  }

  lemma EmptyAround(s: string)
    ensures s + "" == s && "" + s == s
  {
  }

  lemma {:induction false} NothingButSlashes(n: nat)
    ensures TrimRight(Slashes(n)) == ""
  {
    if n > 0 {
      NothingButSlashes(n - 1);
      SlashesSnoc(n - 1);
      hide Slashes, TrimRight;
      TrimOneRight(Slashes(n - 1));
    }
  }

  lemma {:induction false} SlashesAdd(m: nat, n: nat)
    ensures Slashes(m) + Slashes(n) == Slashes(m + n)
  {
    if m > 0 {
      SlashesAdd(m - 1, n);
    } else {
      assert "" + Slashes(n) == Slashes(n);
    }
  }

  lemma ProviderSegments(prefix: string, key: string)
    ensures Split(ProviderKey(prefix, key), '/') == PrefixSegments(prefix) + Split(key, '/')
  {
    if prefix == "" {
      assert [] + Split(key, '/') == Split(key, '/');
    } else {
      SplitConcat(prefix, '/', key);
    }
  }

  /** Provider keys are keys, and different keys have different ones. */
  lemma ProviderKeys(prefix: string, a: string, b: string)
    requires ValidPrefix(prefix) && Acceptable(a) && Acceptable(b)
    ensures NormalizeKey(ProviderKey(prefix, a)) == Ok(ProviderKey(prefix, a))
    ensures ProviderKey(prefix, a) == ProviderKey(prefix, b) ==> a == b
  {
    ProviderSegments(prefix, a);
    ProviderSegments(prefix, b);
    NormalizeExact(ProviderKey(prefix, a));
    hide Split, NormalizeKey;
    var p := PrefixSegments(prefix);
    assert (p + Split(a, '/'))[|p|..] == Split(a, '/') && (p + Split(b, '/'))[|p|..] == Split(b, '/');
    if ProviderKey(prefix, a) == ProviderKey(prefix, b) {
      KeysAreTheirSegments(a, b);
    }
    assert Acceptable(ProviderKey(prefix, a));
  }

  /** Two stores on one bucket can reach the same object exactly when one prefix is a segment-prefix of the other. */
  lemma PrefixesShareObjects(p: string, q: string)
    requires ValidPrefix(p) && ValidPrefix(q)
    ensures (exists a, b :: Acceptable(a) && Acceptable(b) && ProviderKey(p, a) == ProviderKey(q, b))
            <==> PrefixSegments(p) <= PrefixSegments(q) || PrefixSegments(q) <= PrefixSegments(p)
  {
    if PrefixSegments(p) <= PrefixSegments(q) {
      var a, b := SharedObject(p, q);
    } else if PrefixSegments(q) <= PrefixSegments(p) {
      var b, a := SharedObject(q, p);
    }
    if a, b :| Acceptable(a) && Acceptable(b) && ProviderKey(p, a) == ProviderKey(q, b) {
      ProviderSegments(p, a);
      ProviderSegments(q, b);
      hide Split;
      PrefixesOfOne(PrefixSegments(p), Split(a, '/'), PrefixSegments(q), Split(b, '/'));
    }
  }

  lemma PrefixesOfOne<T>(p: seq<T>, a: seq<T>, q: seq<T>, b: seq<T>)
    requires p + a == q + b
    ensures p <= q || q <= p
  {
    var whole := p + a;
    assert p == whole[..|p|] && q == whole[..|q|];
  }

  predicate KeySegment(segment: string) {
    Ordinary(segment) && Free(segment, '\0') && Free(segment, '\\')
  }

  lemma SimpleKey()
    ensures Acceptable("x") && Split("x", '/') == ["x"] && KeySegment("x")
  {
    SplitFree("x", '/');
  }

  lemma SharedObject(p: string, q: string) returns (a: string, b: string)
    requires ValidPrefix(p) && ValidPrefix(q) && PrefixSegments(p) <= PrefixSegments(q)
    ensures Acceptable(a) && Acceptable(b) && ProviderKey(p, a) == ProviderKey(q, b)
  {
    hide Split, Join, Acceptable, Ordinary;
    SimpleKey();
    if q != "" {
      SegmentsOfKey(q);
    }
    var deeper := PrefixSegments(q)[|PrefixSegments(p)|..];
    var extra := deeper + ["x"];
    assert forall i :: 0 <= i < |deeper| ==> KeySegment(deeper[i]);
    a, b := Join(extra, "/"), "x";
    KeyOfSegments(extra);
    ProviderSegments(p, a);
    ProviderSegments(q, b);
    assert PrefixSegments(q) == PrefixSegments(p) + deeper;
    Regroup(PrefixSegments(p), deeper, ["x"]);
    KeysAreTheirSegments(ProviderKey(p, a), ProviderKey(q, b));
  }
}
