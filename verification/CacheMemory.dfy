/** cachex.Memory as an object on the heap (cachex/memory.go): stored slices
    are copies, and so are returned ones.  Between two calls the caller may
    write to any slice it holds. */
module CacheMemory {
  import opened Text
  import C = Cache

  type Store = map<string, C.Entry>

  datatype Slot = Slot(value: array<byte>, deadline: Option<int>)

  datatype Error = Cancelled | EmptyKey | ErrMiss

  // ------------------------------------------------------------------
  // The calls on values
  // ------------------------------------------------------------------

  function GetStore(m: Store, key: string, now: int): Store {
    if key in m && C.Expired(m[key], now) then C.Evict(m, key, m[key]) else m
  }

  function SetStore(m: Store, key: string, value: seq<byte>, ttl: int, now: int): Store {
    if key == "" then m else if ttl < 0 then m - {key} else m[key := C.NewEntry(value, ttl, now)]
  }

  function DeleteStore(m: Store, key: string): Store {
    if key == "" then m else m - {key}
  }

  /** A Set on values, seen at any later time: the key holds the value while less than the TTL has passed, or for
      ever without one, and nothing for a negative TTL; an empty key changes nothing, and no other key changes. */
  lemma SetStoreMeans(m: Store, key: string, value: seq<byte>, ttl: int, now: int, elapsed: nat, k: string)
    ensures var m' := SetStore(m, key, value, ttl, now);
            C.Live(C.Lookup(m', k), now + elapsed) ==
            if k != key || key == "" then C.Live(C.Lookup(m, k), now + elapsed)
            else if ttl == 0 || elapsed < ttl then Some(value) else None
  {
  }

  /** A Delete on values: the key holds nothing, and no other key changes. */
  lemma DeleteStoreMeans(m: Store, key: string, k: string)
    ensures C.Lookup(DeleteStore(m, key), k) == if k == key && key != "" then None else C.Lookup(m, k)
  {
  }

  /** A Get on values takes away nothing but its own key, and that only when it has expired; no key ever shows it. */
  lemma GetStoreMeans(m: Store, key: string, now: int, elapsed: nat, k: string)
    ensures var m' := GetStore(m, key, now);
            && C.Live(C.Lookup(m', k), now + elapsed) == C.Live(C.Lookup(m, k), now + elapsed)
            && (k in m' ==> k in m && m'[k] == m[k])
            && (k in m && k !in m' <==> k == key && k in m && m[k].deadline.Some? && now >= m[k].deadline.value)
  {
  }

  /** On values a call does what it does undisturbed among threads. */
  lemma SameAsAlone(s: C.State, t: nat, key: string, value: seq<byte>, ttl: int)
    requires C.PcOf(s, t).Idle?
    ensures C.Do(s, t, C.Get(key)).entries == GetStore(s.entries, key, s.now)
    ensures C.Do(s, t, C.Set(key, value, ttl)).entries == SetStore(s.entries, key, value, ttl, s.now)
    ensures C.Do(s, t, C.Delete(key)).entries == DeleteStore(s.entries, key)
  {
    GetAlone(s, t, key);
    C.DoSet(s, t, key, value, ttl);
    C.DoDelete(s, t, key);
    hide C.Do;
  }

  lemma GetAlone(s: C.State, t: nat, key: string)
    requires C.PcOf(s, t).Idle?
    ensures C.Do(s, t, C.Get(key)).entries == GetStore(s.entries, key, s.now)
  {
  }

  // ------------------------------------------------------------------
  // The object
  // ------------------------------------------------------------------

  /** bytes.Clone */
  method Clone(a: array<byte>) returns (b: array<byte>)
    ensures fresh(b) && b[..] == a[..]
  {
    b := new byte[a.Length](i requires 0 <= i < a.Length reads a => a[i]);
    assert b[..] == a[..];
  }

  class Memory {
    var entries: map<string, Slot>
    ghost var owned: set<array<byte>> // every slice ever stored

    ghost predicate Valid()
      reads this
    {
      forall k :: k in entries ==> entries[k].value in owned
    }

    ghost function Contents(): Store
      requires Valid()
      reads this, owned
    {
      map k | k in entries :: C.Entry(entries[k].value[..], entries[k].deadline)
    }

    constructor ()
      ensures Valid() && owned == {} && Contents() == map[]
    {
      entries, owned := map[], {};
    }

    method Get(cancelled: bool, key: string, now: int) returns (r: Result<array<byte>, Error>)
      requires Valid()
      modifies this
      ensures Valid() && owned == old(owned)
      ensures r.Ok? ==> fresh(r.value)
      ensures cancelled ==> r == Err(Cancelled) && Contents() == old(Contents())
      ensures !cancelled ==> Contents() == GetStore(old(Contents()), key, now)
      ensures !cancelled ==>
                match C.Live(C.Lookup(old(Contents()), key), now)
                case Some(v) => r.Ok? && r.value[..] == v
                case None => r == Err(ErrMiss)
    {
      if cancelled {
        return Err(Cancelled);
      }
      if key !in entries {
        return Err(ErrMiss);
      }
      var item := entries[key];
      if item.deadline.Some? && now >= item.deadline.value {
        if key in entries && entries[key].deadline == item.deadline {
          entries := entries - {key};
        }
        return Err(ErrMiss);
      }
      var copy := Clone(item.value);
      r := Ok(copy);
    }

    method Delete(cancelled: bool, key: string) returns (e: Option<Error>)
      requires Valid()
      modifies this
      ensures Valid() && owned == old(owned)
      ensures e == if cancelled then Some(Cancelled) else if key == "" then Some(EmptyKey) else None
      ensures Contents() == if cancelled then old(Contents()) else DeleteStore(old(Contents()), key)
    {
      if cancelled {
        return Some(Cancelled);
      }
      if key == "" {
        return Some(EmptyKey);
      }
      entries := entries - {key};
      e := None;
    }

    method Set(cancelled: bool, key: string, value: array<byte>, ttl: int, now: int) returns (e: Option<Error>)
      requires Valid()
      modifies this
      ensures Valid() && old(owned) <= owned && fresh(owned - old(owned))
      ensures e == if cancelled then Some(Cancelled) else if key == "" then Some(EmptyKey) else None
      ensures Contents() == if cancelled then old(Contents()) else SetStore(old(Contents()), key, value[..], ttl, now)
    {
      if cancelled {
        return Some(Cancelled);
      }
      if key == "" {
        return Some(EmptyKey);
      }
      if ttl < 0 {
        e := Delete(cancelled, key);
        return;
      }
      var copy := Clone(value);
      var deadline := None;
      if ttl > 0 {
        deadline := Some(now + ttl);
      }
      entries := entries[key := Slot(copy, deadline)];
      owned := owned + {copy};
      e := None;
    }
  }

  // ------------------------------------------------------------------
  // A caller that writes to its slices at will
  // ------------------------------------------------------------------

  /** What a caller does: make a slice, write one byte of a slice it holds, wait, or call the cache.  Slices it is
      given back by Get join the ones it holds. */
  datatype Op =
    | Make(bytes: seq<byte>)
    | Scribble(slice: nat, index: nat, b: byte)
    | Wait(elapsed: nat)
    | Get(key: string)
    | Set(key: string, slice: nat, ttl: int)
    | Delete(key: string)

  /** The same, with every slice a value of its own: nothing can be shared. */
  datatype World = World(store: Store, slices: seq<seq<byte>>, now: int, answers: seq<Option<seq<byte>>>)

  function Overwrite(s: seq<byte>, i: nat, b: byte): seq<byte>
    requires i < |s|
  {
    s[i := b]
  }

  function Act(w: World, op: Op): World {
    match op
    case Make(bytes) => w.(slices := w.slices + [bytes])
    case Scribble(s, i, b) =>
      if s < |w.slices| && i < |w.slices[s]| then w.(slices := w.slices[s := Overwrite(w.slices[s], i, b)]) else w
    case Wait(elapsed) => w.(now := w.now + elapsed)
    case Get(key) =>
      var v := C.Live(C.Lookup(w.store, key), w.now);
      w.(store := GetStore(w.store, key, w.now), answers := w.answers + [v],
         slices := if v.Some? then w.slices + [v.value] else w.slices)
    case Set(key, s, ttl) =>
      if s < |w.slices| then w.(store := SetStore(w.store, key, w.slices[s], ttl, w.now)) else w
    case Delete(key) => w.(store := DeleteStore(w.store, key))
  }

  function Acts(w: World, ops: seq<Op>): World {
    if ops == [] then w else Act(Acts(w, ops[..|ops| - 1]), ops[|ops| - 1])
  }

  /** The slices a caller holds, none of which the cache owns. */
  ghost predicate Separate(memory: Memory, held: seq<array<byte>>)
    reads memory
  {
    && (forall i :: 0 <= i < |held| ==> held[i] !in memory.owned)
    && (forall i, j :: 0 <= i < j < |held| ==> held[i] != held[j])
  }

  /** The heap looks like the world of values. */
  ghost predicate Mirrors(memory: Memory, held: seq<array<byte>>, w: World)
    requires memory.Valid()
    reads memory, memory.owned, held
  {
    && memory.Contents() == w.store
    && |held| == |w.slices|
    && (forall i :: 0 <= i < |held| ==> held[i][..] == w.slices[i])
  }

  /** One action of the caller on the real object. */
  method Perform(memory: Memory, held: seq<array<byte>>, now: int, op: Op, ghost w: World)
    returns (held': seq<array<byte>>, now': int, answer: Option<Option<seq<byte>>>)
    requires memory.Valid() && Separate(memory, held) && Mirrors(memory, held, w) && now == w.now
    modifies memory, held
    ensures memory.Valid() && Separate(memory, held') && Mirrors(memory, held', Act(w, op)) && now' == Act(w, op).now
    ensures forall i :: 0 <= i < |held'| ==> held'[i] in held || fresh(held'[i])
    ensures Act(w, op).answers == if answer.Some? then w.answers + [answer.value] else w.answers
  {
    held', now', answer := held, now, None;
    match op
    case Make(bytes) =>
      var a := new byte[|bytes|](i requires 0 <= i < |bytes| => bytes[i]);
      held' := held + [a];
    case Scribble(s, i, b) =>
      if s < |held| && i < held[s].Length {
        held[s][i] := b;
      }
    case Wait(elapsed) =>
      now' := now + elapsed;
    case _ =>
      held', answer := PerformCall(memory, held, now, op, w);
  }

  /** A call of the cache. */
  method PerformCall(memory: Memory, held: seq<array<byte>>, now: int, op: Op, ghost w: World)
    returns (held': seq<array<byte>>, answer: Option<Option<seq<byte>>>)
    requires memory.Valid() && Separate(memory, held) && Mirrors(memory, held, w) && now == w.now
    requires op.Get? || op.Set? || op.Delete?
    modifies memory
    ensures memory.Valid() && Separate(memory, held') && Mirrors(memory, held', Act(w, op)) && now == Act(w, op).now
    ensures forall i :: 0 <= i < |held'| ==> held'[i] in held || fresh(held'[i])
    ensures Act(w, op).answers == if answer.Some? then w.answers + [answer.value] else w.answers
  {
    hide C.NewEntry, C.Evict, C.Expired;
    held', answer := held, None;
    match op
    case Get(key) =>
      var r := memory.Get(false, key, now);
      if r.Ok? {
        held' := held + [r.value];
        answer := Some(Some(r.value[..]));
      } else {
        answer := Some(None);
      }
    case Set(key, s, ttl) =>
      if s < |held| {
        var _ := memory.Set(false, key, held[s], ttl, now);
      }
    case Delete(key) =>
      var _ := memory.Delete(false, key);
  }

  function NewWorld(now: int): World {
    World(map[], [], now, [])
  }

  /** Whatever the caller does with its slices, the real cache answers every Get as if every slice were a value. */
  method RunCaller(start: int, ops: seq<Op>) returns (answers: seq<Option<seq<byte>>>)
    ensures answers == Acts(NewWorld(start), ops).answers
  {
    hide Act, Acts, Mirrors, Separate, Memory.Valid;
    var memory := new Memory();
    var held: seq<array<byte>> := [];
    var now := start;
    answers := [];
    ghost var w := NewWorld(start);
    StartMirrors(memory, w);
    NothingDone(w, ops);
    for k := 0 to |ops|
      invariant fresh(memory) && forall i :: 0 <= i < |held| ==> fresh(held[i])
      invariant memory.Valid() && Separate(memory, held) && Mirrors(memory, held, w) && now == w.now
      invariant w == Acts(NewWorld(start), ops[..k]) && answers == w.answers
    {
      OneMoreDone(NewWorld(start), ops, k);
      var answer;
      held, now, answer := Perform(memory, held, now, ops[k], w);
      if answer.Some? {
        answers := answers + [answer.value];
      }
      w := Act(w, ops[k]);
    }
    assert ops[..|ops|] == ops;
  }

  lemma NothingDone(w: World, ops: seq<Op>)
    ensures Acts(w, ops[..0]) == w
  {
  }

  lemma OneMoreDone(w: World, ops: seq<Op>, k: nat)
    requires k < |ops|
    ensures Acts(w, ops[..k + 1]) == Act(Acts(w, ops[..k]), ops[k])
  {
    hide Act;
    assert ops[..k + 1][..k] == ops[..k];
  }

  lemma StartMirrors(memory: Memory, w: World)
    requires memory.Valid() && memory.Contents() == map[] && w.store == map[] && w.slices == []
    ensures Separate(memory, []) && Mirrors(memory, [], w)
  {
  }
}
