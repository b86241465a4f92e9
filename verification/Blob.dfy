/** Object stores on values: what each call of the in-memory store
    (blobx/testing.go) and of the file store (blobx/file.go) does when no
    system call fails. */
module Blob {
  import opened Text
  import opened Keys
  import opened FileSystem

  /** Object metadata, modification time aside. */
  datatype Object = Object(key: string, size: nat, contentType: string, etag: string)

  datatype StoreError =
    | BadKey(error: KeyError)
    | Cancelled
    | NotFound
    | CopyFailed       // reading the body, or writing it, failed
    | ParentFailed     // a parent directory could not be made
    | TempFailed       // no temporary file
    | CloseFailed
    | ReplaceFailed    // the rename
    | StatFailed
    | MetadataFailed
    | OpenFailed
    | DeleteFailed

  /** SHA-256 in hexadecimal, of a key and of a body. */
  datatype Sums = Sums(key: string -> string, body: seq<byte> -> string)

  /** JSON encoding of metadata. */
  datatype Codec = Codec(encode: Object -> seq<byte>, decode: seq<byte> -> Option<Object>)

  datatype Env = Env(root: Path, sums: Sums, codec: Codec)

  /** What is told of a file: its key and size, and the content type and ETag of its metadata if it has any. */
  function Labelled(key: string, size: nat, metadata: Option<Object>): Object {
    match metadata
    case Some(o) => Object(key, size, o.contentType, o.etag)
    case None => Object(key, size, "", "")
  }

  /** Encoded and decoded, the metadata still says the same of the object. */
  predicate Survives(c: Codec, o: Object) {
    Labelled(o.key, o.size, c.decode(c.encode(o))) == o
  }

  function Described(env: Env, key: string, body: seq<byte>, contentType: string): Object {
    Object(key, |body|, contentType, env.sums.body(body))
  }

  /** The calls, with what comes from outside: the body as its reader delivers it (and whether it ended well), and
      the temporary name drawn. */
  datatype Op =
    | Put(key: string, body: seq<byte>, complete: bool, contentType: string, temp: Draw)
    | Get(cancelled: bool, key: string)
    | Stat(cancelled: bool, key: string)
    | Delete(cancelled: bool, key: string)

  datatype Answer = Stored(Object) | Found(body: seq<byte>, info: Object) | Known(Object) | Deleted | Failed(StoreError)

  // ------------------------------------------------------------------
  // The in-memory store
  // ------------------------------------------------------------------

  datatype MemoryObject = MemoryObject(data: seq<byte>, info: Object)

  type Memory = map<string, MemoryObject>

  function MemoryGet(m: Memory, cancelled: bool, key: string): Result<MemoryObject, StoreError> {
    if cancelled then Err(Cancelled)
    else
      match NormalizeKey(key)
      case Err(e) => Err(BadKey(e))
      case Ok(k) => if k in m then Ok(m[k]) else Err(NotFound)
  }

  function MemoryOp(env: Env, m: Memory, op: Op): (Memory, Answer) {
    match op
    case Put(key, body, complete, contentType, _) =>
      (match NormalizeKey(key)
       case Err(e) => (m, Failed(BadKey(e)))
       case Ok(k) =>
         if !complete then (m, Failed(CopyFailed))
         else
           var info := Described(env, k, body, contentType);
           (m[k := MemoryObject(body, info)], Stored(info)))
    case Get(cancelled, key) =>
      (match MemoryGet(m, cancelled, key)
       case Ok(o) => (m, Found(o.data, o.info))
       case Err(e) => (m, Failed(e)))
    case Stat(cancelled, key) =>
      (match MemoryGet(m, cancelled, key)
       case Ok(o) => (m, Known(o.info))
       case Err(e) => (m, Failed(e)))
    case Delete(cancelled, key) =>
      if cancelled then (m, Failed(Cancelled))
      else
        match NormalizeKey(key)
        case Err(e) => (m, Failed(BadKey(e)))
        case Ok(k) => (m - {k}, Deleted)
  }

  // ------------------------------------------------------------------
  // The file store
  // ------------------------------------------------------------------

  function Target(env: Env, key: string): Path {
    ObjectPath(env.root, key)
  }

  function Sidecar(env: Env, key: string): Path {
    MetadataPath(env.root, env.sums.key(key))
  }

  function TargetDir(env: Env, key: string): Path {
    Parent(Target(env, key))
  }

  /** readMetadata: any failure counts as no metadata. */
  function ReadMetadata(env: Env, t: Tree, key: string): Option<Object> {
    match Resolve(t, Sidecar(env, key))
    case Ok(File(data)) => env.codec.decode(data)
    case _ => None
  }

  function FileStat(env: Env, t: Tree, cancelled: bool, key: string): Result<Object, StoreError> {
    if cancelled then Err(Cancelled)
    else
      match NormalizeKey(key)
      case Err(e) => Err(BadKey(e))
      case Ok(k) =>
        match Resolve(t, Target(env, k))
        case Err(NotExist) => Err(NotFound)
        case Err(_) => Err(StatFailed)
        case Ok(Dir) => Err(NotFound)
        case Ok(File(data)) => Ok(Labelled(k, |data|, ReadMetadata(env, t, k)))
  }

  function FileGet(env: Env, t: Tree, cancelled: bool, key: string): Result<(seq<byte>, Object), StoreError> {
    match FileStat(env, t, cancelled, key)
    case Err(e) => Err(e)
    case Ok(o) =>
      match Resolve(t, Target(env, o.key))
      case Ok(File(data)) => Ok((data, o))
      case Err(NotExist) => Err(NotFound)
      case _ => Err(OpenFailed)
  }

  /** The tree once the body is in place under its key. */
  function Replaced(env: Env, t: Tree, key: string, body: seq<byte>, temp: Path): Tree {
    (WithDirs(t, TargetDir(env, key))[temp := File(body)] - {temp})[Target(env, key) := File(body)]
  }

  /** The tree after a Put: body and metadata in place, and the temporary name removed once more. */
  function PutTree(env: Env, t: Tree, key: string, body: seq<byte>, contentType: string, temp: Path): Tree {
    WithDirs(Replaced(env, t, key, body, temp), MetadataDir(env.root))
      [Sidecar(env, key) := File(env.codec.encode(Described(env, key, body, contentType)))] - {temp}
  }

  function FilePut(env: Env, t: Tree, k: string, body: seq<byte>, complete: bool, contentType: string,
                   temp: Path): (Tree, Answer)
  {
    var dir := TargetDir(env, k);
    if !CanBeDir(t, dir) then (t, Failed(ParentFailed))
    else if !complete then (WithDirs(t, dir), Failed(CopyFailed))
    else if Target(env, k) in t && t[Target(env, k)].Dir? then (WithDirs(t, dir), Failed(ReplaceFailed))
    else if !CanBeDir(t, MetadataDir(env.root)) || (Sidecar(env, k) in t && t[Sidecar(env, k)].Dir?) then
      (Replaced(env, t, k, body, temp) - {temp}, Failed(MetadataFailed))
    else (PutTree(env, t, k, body, contentType, temp), Stored(Described(env, k, body, contentType)))
  }

  function FileDelete(env: Env, t: Tree, k: string): (Tree, Answer) {
    match RemoveError(t, Target(env, k))
    case Some(NotDirectory) => (t, Failed(DeleteFailed))
    case Some(Other) => (t, Failed(DeleteFailed))
    case e =>
      var t' := if e.None? then t - {Target(env, k)} else t;
      match RemoveError(t', Sidecar(env, k))
      case None => (t' - {Sidecar(env, k)}, Deleted)
      case Some(NotExist) => (t', Deleted)
      case Some(_) => (t', Failed(DeleteFailed))
  }

  function FileOp(env: Env, t: Tree, op: Op): (Tree, Answer) {
    match op
    case Put(key, body, complete, contentType, temp) =>
      (match NormalizeKey(key)
       case Err(e) => (t, Failed(BadKey(e)))
       case Ok(k) => FilePut(env, t, k, body, complete, contentType, TempPath(TargetDir(env, k), temp)))
    case Get(cancelled, key) =>
      (match FileGet(env, t, cancelled, key)
       case Ok(r) => (t, Found(r.0, r.1))
       case Err(e) => (t, Failed(e)))
    case Stat(cancelled, key) =>
      (match FileStat(env, t, cancelled, key)
       case Ok(o) => (t, Known(o))
       case Err(e) => (t, Failed(e)))
    case Delete(cancelled, key) =>
      if cancelled then (t, Failed(Cancelled))
      else
        match NormalizeKey(key)
        case Err(e) => (t, Failed(BadKey(e)))
        case Ok(k) => FileDelete(env, t, k)
  }
}
