/** cachex.Memory (cachex/memory.go) under any number of threads.

    Each critical section is one atomic step; the clock moves on between steps
    and never back.  Get reads under the read lock, consults the clock
    unlocked, and only then takes the write lock to evict. */
module Cache {
  import opened Text

  /** A stored value; no deadline means that it does not expire. */
  datatype Entry = Entry(value: seq<byte>, deadline: Option<int>)

  predicate Expired(e: Entry, now: int) {
    e.deadline.Some? && now >= e.deadline.value
  }

  /** Get's second critical section: the entry goes if it still has the deadline that was seen to pass. */
  function Evict(entries: map<string, Entry>, key: string, item: Entry): map<string, Entry> {
    if key in entries && entries[key].deadline == item.deadline then entries - {key} else entries
  }

  /** The entry that Set stores when the clock reads `now`. */
  function NewEntry(value: seq<byte>, ttl: int, now: int): Entry {
    Entry(value, if ttl > 0 then Some(now + ttl) else None)
  }

  // ------------------------------------------------------------------
  // Threads
  // ------------------------------------------------------------------

  datatype Call = Get(key: string) | Set(key: string, value: seq<byte>, ttl: int) | Delete(key: string)

  /** Where a read took place: after how many writes, and when. */
  datatype Moment = Moment(writes: nat, time: int)

  /** What a thread will do next. */
  datatype Pc =
    | Idle
    | Reading(key: string)
    | Checking(key: string, item: Entry, read: Moment)
    | Evicting(key: string, item: Entry, read: Moment, check: Moment)
    | Stamping(key: string, value: seq<byte>, ttl: int)
    | Storing(key: string, entry: Entry)
    | Deleting(key: string)

  /** Set and Delete in lock order. */
  datatype Write = Put(key: string, entry: Entry) | Remove(key: string)

  /** A completed Get: when it read, when it decided, and what it returned (none for a miss). */
  datatype Answer = Answer(key: string, read: Moment, check: Moment, value: Option<seq<byte>>)

  datatype State = State(entries: map<string, Entry>, now: int, threads: map<nat, Pc>,
                         writes: seq<Write>, answers: seq<Answer>)

  function Init(now: int): State {
    State(map[], now, map[], [], [])
  }

  function PcOf(s: State, t: nat): Pc {
    if t in s.threads then s.threads[t] else Idle
  }

  /** The first step of a call; an empty key and a negative TTL are settled before any lock is taken. */
  function Enter(call: Call): Pc {
    match call
    case Get(key) => Reading(key)
    case Set(key, value, ttl) =>
      if key == "" then Idle
      else if ttl < 0 then Deleting(key)
      else if ttl > 0 then Stamping(key, value, ttl)
      else Storing(key, Entry(value, None))
    case Delete(key) => if key == "" then Idle else Deleting(key)
  }

  datatype Step = Tick(elapsed: nat) | Invoke(thread: nat, call: Call) | Advance(thread: nat)

  /** One atomic step; a step that is not possible changes nothing. */
  function Next(s: State, step: Step): State {
    match step
    case Tick(elapsed) => s.(now := s.now + elapsed)
    case Invoke(t, call) => if PcOf(s, t).Idle? then s.(threads := s.threads[t := Enter(call)]) else s
    case Advance(t) => NextOf(s, t, PcOf(s, t))
  }

  function Here(s: State): Moment {
    Moment(|s.writes|, s.now)
  }

  function NextOf(s: State, t: nat, pc: Pc): State {
    match pc
    case Idle => s
    case Reading(key) =>
      if key in s.entries then s.(threads := s.threads[t := Checking(key, s.entries[key], Here(s))])
      else s.(threads := s.threads[t := Idle], answers := s.answers + [Answer(key, Here(s), Here(s), None)])
    case Checking(key, item, read) =>
      if Expired(item, s.now) then s.(threads := s.threads[t := Evicting(key, item, read, Here(s))])
      else s.(threads := s.threads[t := Idle], answers := s.answers + [Answer(key, read, Here(s), Some(item.value))])
    case Evicting(key, item, read, check) =>
      s.(entries := Evict(s.entries, key, item), threads := s.threads[t := Idle],
         answers := s.answers + [Answer(key, read, check, None)])
    case Stamping(key, value, ttl) =>
      s.(threads := s.threads[t := Storing(key, NewEntry(value, ttl, s.now))])
    case Storing(key, entry) =>
      s.(entries := s.entries[key := entry], threads := s.threads[t := Idle], writes := s.writes + [Put(key, entry)])
    case Deleting(key) =>
      s.(entries := s.entries - {key}, threads := s.threads[t := Idle], writes := s.writes + [Remove(key)])
  }

  /** Any interleaving is a sequence of steps. */
  function Run(now: int, steps: seq<Step>): State {
    if steps == [] then Init(now) else Next(Run(now, steps[..|steps| - 1]), steps[|steps| - 1])
  }

  // ------------------------------------------------------------------
  // The reference: writes in lock order, nothing ever evicted
  // ------------------------------------------------------------------

  /** What the latest write left under a key. */
  function Latest(writes: seq<Write>, key: string): Option<Entry> {
    if writes == [] then None
    else
      var last := writes[|writes| - 1];
      if last.key != key then Latest(writes[..|writes| - 1], key)
      else if last.Put? then Some(last.entry) else None
  }

  /** The value a key has at a given time, if it has one. */
  function Live(e: Option<Entry>, now: int): Option<seq<byte>> {
    if e.Some? && !Expired(e.value, now) then Some(e.value.value) else None
  }

  function Lookup(entries: map<string, Entry>, key: string): Option<Entry> {
    if key in entries then Some(entries[key]) else None
  }

  /** The map differs from the reference only where the reference holds what has expired. */
  ghost predicate Lazy(entries: map<string, Entry>, writes: seq<Write>, now: int) {
    forall key ::
      Lookup(entries, key) == Latest(writes, key)
      || (key !in entries && Latest(writes, key).Some? && Expired(Latest(writes, key).value, now))
  }

  ghost predicate Past(m: Moment, writes: seq<Write>, now: int) {
    m.writes <= |writes| && m.time <= now
  }

  ghost predicate PcOk(pc: Pc, writes: seq<Write>, now: int) {
    match pc
    case Checking(key, item, read) =>
      Past(read, writes, now) && Latest(writes[..read.writes], key) == Some(item)
    case Evicting(key, item, read, check) =>
      && Past(read, writes, now) && Latest(writes[..read.writes], key) == Some(item)
      && Past(check, writes, now) && read.writes <= check.writes && read.time <= check.time
      && Expired(item, check.time)
    case _ => true
  }

  /** A hit is the latest value at the read and live then and at the check; a miss means that nothing was there at
      the read, or that what was there had expired by the check. */
  ghost predicate Justified(a: Answer, writes: seq<Write>, now: int) {
    && Past(a.read, writes, now) && Past(a.check, writes, now)
    && a.read.writes <= a.check.writes && a.read.time <= a.check.time
    && a.value == Live(Latest(writes[..a.read.writes], a.key), a.check.time)
  }

  ghost predicate Inv(s: State) {
    && Lazy(s.entries, s.writes, s.now)
    && (forall t :: t in s.threads ==> PcOk(s.threads[t], s.writes, s.now))
    && (forall i :: 0 <= i < |s.answers| ==> Justified(s.answers[i], s.writes, s.now))
  }

  // ------------------------------------------------------------------
  // Every step keeps the invariant
  // ------------------------------------------------------------------

  lemma LatestAfter(writes: seq<Write>, w: Write, key: string)
    ensures Latest(writes + [w], key) ==
            if w.key != key then Latest(writes, key) else if w.Put? then Some(w.entry) else None
  {
    assert (writes + [w])[..|writes|] == writes;
  }

  lemma PcOkLater(pc: Pc, writes: seq<Write>, more: seq<Write>, now: int, later: int)
    requires PcOk(pc, writes, now) && now <= later
    ensures PcOk(pc, writes + more, later)
  {
    if pc.Checking? || pc.Evicting? {
      assert (writes + more)[..pc.read.writes] == writes[..pc.read.writes];
    }
  }

  lemma JustifiedLater(a: Answer, writes: seq<Write>, more: seq<Write>, now: int, later: int)
    requires Justified(a, writes, now) && now <= later
    ensures Justified(a, writes + more, later)
  {
    assert (writes + more)[..a.read.writes] == writes[..a.read.writes];
  }

  /** Old threads and answers stay in order as writes are added and time passes. */
  lemma KeepsOld(s: State, s': State, more: seq<Write>)
    requires Inv(s)
    requires s'.writes == s.writes + more && s.now <= s'.now
    requires Lazy(s'.entries, s'.writes, s'.now)
    requires forall t :: t in s'.threads ==>
               (t in s.threads && s'.threads[t] == s.threads[t]) || PcOk(s'.threads[t], s'.writes, s'.now)
    requires s.answers <= s'.answers
    requires forall i :: |s.answers| <= i < |s'.answers| ==> Justified(s'.answers[i], s'.writes, s'.now)
    ensures Inv(s')
  {
    hide Lazy, PcOk, Justified, Latest;
    forall t | t in s'.threads
      ensures PcOk(s'.threads[t], s'.writes, s'.now)
    {
      if t in s.threads && s'.threads[t] == s.threads[t] {
        PcOkLater(s.threads[t], s.writes, more, s.now, s'.now);
      }
    }
    forall i | 0 <= i < |s'.answers|
      ensures Justified(s'.answers[i], s'.writes, s'.now)
    {
      if i < |s.answers| {
        assert s'.answers[i] == s.answers[i];
        JustifiedLater(s.answers[i], s.writes, more, s.now, s'.now);
      }
    }
  }

  lemma LazyLater(entries: map<string, Entry>, writes: seq<Write>, now: int, later: int)
    requires Lazy(entries, writes, now) && now <= later
    ensures Lazy(entries, writes, later)
  {
    hide Latest;
  }

  lemma LazyPut(s: State, key: string, entry: Entry)
    requires Lazy(s.entries, s.writes, s.now)
    ensures Lazy(s.entries[key := entry], s.writes + [Put(key, entry)], s.now)
  {
    forall k ensures Latest(s.writes + [Put(key, entry)], k) == if k == key then Some(entry) else Latest(s.writes, k) {
      LatestAfter(s.writes, Put(key, entry), k);
    }
    hide Latest, Expired;
  }

  lemma LazyRemove(s: State, key: string)
    requires Lazy(s.entries, s.writes, s.now)
    ensures Lazy(s.entries - {key}, s.writes + [Remove(key)], s.now)
  {
    forall k ensures Latest(s.writes + [Remove(key)], k) == if k == key then None else Latest(s.writes, k) {
      LatestAfter(s.writes, Remove(key), k);
    }
    hide Latest, Expired;
  }

  /** Eviction takes only what has expired, even if it is not the entry that was read. */
  lemma LazyEvict(s: State, key: string, item: Entry)
    requires Lazy(s.entries, s.writes, s.now) && Expired(item, s.now)
    ensures Lazy(Evict(s.entries, key, item), s.writes, s.now)
    ensures forall k :: k in s.entries && k !in Evict(s.entries, key, item) ==> Expired(s.entries[k], s.now)
  {
    hide Latest;
  }

  lemma AdvanceKeeps(s: State, t: nat)
    requires Inv(s)
    ensures Inv(Next(s, Advance(t)))
  {
    var pc := PcOf(s, t);
    assert s.writes[..|s.writes|] == s.writes && s.writes + [] == s.writes;
    if pc.Reading? || pc.Checking? || pc.Evicting? {
      GetKeeps(s, t, pc);
    } else if !pc.Idle? {
      WriteKeeps(s, t, pc);
    }
  }

  lemma GetKeeps(s: State, t: nat, pc: Pc)
    requires Inv(s) && pc == PcOf(s, t) && (pc.Reading? || pc.Checking? || pc.Evicting?)
    ensures Inv(NextOf(s, t, pc))
  {
    var s' := NextOf(s, t, pc);
    assert s.writes[..|s.writes|] == s.writes && s.writes + [] == s.writes;
    assert Latest(s.writes, pc.key) == Lookup(s.entries, pc.key)
           || (pc.key !in s.entries && Latest(s.writes, pc.key).Some?
               && Expired(Latest(s.writes, pc.key).value, s.now));
    if pc.Evicting? {
      LazyEvict(s, pc.key, pc.item);
    }
    hide Latest, Lazy;
    KeepsOld(s, s', []);
  }

  lemma WriteKeeps(s: State, t: nat, pc: Pc)
    requires Inv(s) && pc == PcOf(s, t) && (pc.Stamping? || pc.Storing? || pc.Deleting?)
    ensures Inv(NextOf(s, t, pc))
  {
    hide Latest, Lazy, Justified;
    var s' := NextOf(s, t, pc);
    match pc
    case Stamping(key, value, ttl) =>
      assert s.writes + [] == s.writes;
      KeepsOld(s, s', []);
    case Storing(key, entry) =>
      LazyPut(s, key, entry);
      KeepsOld(s, s', [Put(key, entry)]);
    case Deleting(key) =>
      LazyRemove(s, key);
      KeepsOld(s, s', [Remove(key)]);
  }

  lemma NextKeeps(s: State, step: Step)
    requires Inv(s)
    ensures Inv(Next(s, step))
  {
    match step
    case Tick(elapsed) =>
      LazyLater(s.entries, s.writes, s.now, s.now + elapsed);
      hide Lazy, Latest;
      assert s.writes + [] == s.writes;
      KeepsOld(s, Next(s, step), []);
    case Invoke(t, call) =>
      hide Lazy, Latest;
      assert s.writes + [] == s.writes;
      KeepsOld(s, Next(s, step), []);
    case Advance(t) =>
      AdvanceKeeps(s, t);
  }

  lemma {:induction false} RunKeeps(now: int, steps: seq<Step>)
    ensures Inv(Run(now, steps))
  {
    if steps != [] {
      RunKeeps(now, steps[..|steps| - 1]);
      NextKeeps(Run(now, steps[..|steps| - 1]), steps[|steps| - 1]);
    }
  }

  // ------------------------------------------------------------------
  // What that means for callers, in every interleaving
  // ------------------------------------------------------------------

  /** A hit returns the value latest in lock order at its read, live at that moment and still when the clock was
      consulted; a miss means that the key was absent at the read or that the entry read had expired by then. */
  lemma AnswersAreJustified(now: int, steps: seq<Step>, i: nat)
    requires i < |Run(now, steps).answers|
    ensures var s := Run(now, steps); var a := s.answers[i];
            && a.read.writes <= |s.writes| && a.read.time <= a.check.time <= s.now
            && (var seen := Latest(s.writes[..a.read.writes], a.key);
                match a.value
                case Some(v) =>
                  seen.Some? && seen.value.value == v && !Expired(seen.value, a.read.time)
                  && !Expired(seen.value, a.check.time)
                case None => seen.None? || Expired(seen.value, a.check.time))
  {
    RunKeeps(now, steps);
    hide Run, Latest;
  }

  /** Lazy eviction is invisible: at any moment the live values are those of the reference that never evicts. */
  lemma LiveViewIsReference(now: int, steps: seq<Step>, key: string)
    ensures var s := Run(now, steps);
            Live(Lookup(s.entries, key), s.now) == Live(Latest(s.writes, key), s.now)
  {
    RunKeeps(now, steps);
    hide Run, Latest;
  }

  /** No step of a Get changes a live value, whatever other threads have done since it read. */
  lemma GetStepKeepsView(now: int, steps: seq<Step>, t: nat, key: string)
    requires var pc := PcOf(Run(now, steps), t); pc.Reading? || pc.Checking? || pc.Evicting?
    ensures var s, s' := Run(now, steps), Next(Run(now, steps), Advance(t));
            && s'.now == s.now && s'.writes == s.writes
            && Live(Lookup(s'.entries, key), s'.now) == Live(Lookup(s.entries, key), s.now)
            && (key in s.entries && key !in s'.entries ==> Expired(s.entries[key], s.now))
  {
    RunKeeps(now, steps);
    NextKeeps(Run(now, steps), Advance(t));
    hide Run, Latest;
  }

  /** A call run to its end with nothing in between; no call takes more than three steps. */
  function Do(s: State, t: nat, call: Call): State {
    Next(Next(Next(Next(s, Invoke(t, call)), Advance(t)), Advance(t)), Advance(t))
  }

  /** An undisturbed Set: one write, of an entry that lives for the TTL from now, or for ever; a negative TTL
      removes. */
  lemma DoSet(s: State, t: nat, key: string, value: seq<byte>, ttl: int)
    requires PcOf(s, t).Idle?
    ensures var s' := Do(s, t, Set(key, value, ttl));
            && s'.now == s.now && s'.answers == s.answers && PcOf(s', t).Idle?
            && (forall u :: u != t ==> PcOf(s', u) == PcOf(s, u))
            && s'.entries == if key == "" then s.entries
                             else if ttl < 0 then s.entries - {key}
                             else s.entries[key := Entry(value, if ttl == 0 then None else Some(s.now + ttl))]
  {
  }

  lemma DoGet(s: State, t: nat, key: string)
    requires PcOf(s, t).Idle?
    ensures var s' := Do(s, t, Get(key));
            && |s'.answers| == |s.answers| + 1 && s'.answers[|s.answers|].key == key
            && s'.answers[|s.answers|].value == Live(Lookup(s.entries, key), s.now)
            && s'.writes == s.writes
  {
  }

  /** From any state, reached or not: an undisturbed Set, a wait, an undisturbed Get of any key.  The key set
      answers with the value while less than the TTL has passed, or for ever without one, and misses for a negative
      TTL; any other key answers as it would have without the Set. */
  lemma SetThenGet(s: State, t: nat, u: nat, key: string, value: seq<byte>, ttl: int, elapsed: nat, other: string)
    requires PcOf(s, t).Idle? && PcOf(s, u).Idle? && key != ""
    ensures var waited := Next(Do(s, t, Set(key, value, ttl)), Tick(elapsed));
            var done := Do(waited, u, Get(other));
            && |done.answers| == |s.answers| + 1
            && done.answers[|s.answers|].value ==
               if other != key then Live(Lookup(s.entries, other), s.now + elapsed)
               else if ttl == 0 || elapsed < ttl then Some(value) else None
  {
    DoSet(s, t, key, value, ttl);
    var waited := Next(Do(s, t, Set(key, value, ttl)), Tick(elapsed));
    assert PcOf(waited, u).Idle?;
    DoGet(waited, u, other);
    hide Do;
  }

  /** An undisturbed Delete: the key goes, and nothing else does. */
  lemma DoDelete(s: State, t: nat, key: string)
    requires PcOf(s, t).Idle?
    ensures var s' := Do(s, t, Delete(key));
            && s'.now == s.now && s'.answers == s.answers && PcOf(s', t).Idle?
            && (forall u :: u != t ==> PcOf(s', u) == PcOf(s, u))
            && s'.entries == if key == "" then s.entries else s.entries - {key}
  {
  }

  /** From any state, reached or not: an undisturbed Delete, a wait, an undisturbed Get of any key.  The key deleted
      misses from then on; any other key answers as it would have without the Delete. */
  lemma DeleteThenGet(s: State, t: nat, u: nat, key: string, elapsed: nat, other: string)
    requires PcOf(s, t).Idle? && PcOf(s, u).Idle? && key != ""
    ensures var waited := Next(Do(s, t, Delete(key)), Tick(elapsed));
            var done := Do(waited, u, Get(other));
            && |done.answers| == |s.answers| + 1
            && done.answers[|s.answers|].value ==
               if other == key then None else Live(Lookup(s.entries, other), s.now + elapsed)
  {
    DoDelete(s, t, key);
    var waited := Next(Do(s, t, Delete(key)), Tick(elapsed));
    assert PcOf(waited, u).Idle?;
    DoGet(waited, u, other);
    hide Do;
  }

  /** Between the two moments a Set replaced the entry by one that is still live. */
  ghost predicate Overtaken(writes: seq<Write>, key: string, read: nat, check: nat, time: int)
    requires read <= check <= |writes|
  {
    exists i :: read <= i < check && writes[i].Put? && writes[i].key == key && !Expired(writes[i].entry, time)
                && (forall j :: i < j < check ==> writes[j].key != key)
  }

  lemma {:induction false} LatestSince(writes: seq<Write>, key: string, read: nat, check: nat, time: int)
    requires read <= check <= |writes|
    requires Live(Latest(writes[..read], key), time) == None
    ensures Live(Latest(writes[..check], key), time) != None <==> Overtaken(writes, key, read, check, time)
  {
    if read < check {
      var last := writes[check - 1];
      LatestSince(writes, key, read, check - 1, time);
      LatestAfter(writes[..check - 1], last, key);
      assert writes[..check] == writes[..check - 1] + [last];
      hide Latest;
      OvertakenStep(writes, key, read, check, time);
    }
  }

  /** What one more write means for having been overtaken. */
  lemma OvertakenStep(writes: seq<Write>, key: string, read: nat, check: nat, time: int)
    requires read < check <= |writes|
    ensures var last := writes[check - 1];
            Overtaken(writes, key, read, check, time) <==>
            if last.key == key then last.Put? && !Expired(last.entry, time)
            else Overtaken(writes, key, read, check - 1, time)
  {
    var last := writes[check - 1];
    hide Expired;
    if last.key != key && Overtaken(writes, key, read, check - 1, time) {
      var i :| read <= i < check - 1 && writes[i].Put? && writes[i].key == key && !Expired(writes[i].entry, time)
        && (forall j :: i < j < check - 1 ==> writes[j].key != key);
      assert forall j :: i < j < check ==> writes[j].key != key;
    }
  }

  /** A miss is also true of the moment of its clock check, except exactly when a Set overtook it. */
  lemma MissUnlessOvertaken(now: int, steps: seq<Step>, i: nat)
    requires i < |Run(now, steps).answers| && Run(now, steps).answers[i].value.None?
    ensures var s := Run(now, steps); var a := s.answers[i];
            && a.read.writes <= a.check.writes <= |s.writes|
            && (Live(Latest(s.writes[..a.check.writes], a.key), a.check.time) != None
                <==> Overtaken(s.writes, a.key, a.read.writes, a.check.writes, a.check.time))
  {
    RunKeeps(now, steps);
    hide Run, Latest;
    var s := Run(now, steps);
    var a := s.answers[i];
    LatestSince(s.writes, a.key, a.read.writes, a.check.writes, a.check.time);
  }

  // A run in which a Set overtakes a Get, state by state.

  lemma StoreAlone(key: string, first: seq<byte>, e: Entry)
    requires key != "" && e == Entry(first, Some(1))
    ensures Next(Init(0), Invoke(1, Set(key, first, 1))) == State(map[], 0, map[1 := Stamping(key, first, 1)], [], [])
    ensures Next(State(map[], 0, map[1 := Stamping(key, first, 1)], [], []), Advance(1)) ==
            State(map[], 0, map[1 := Storing(key, e)], [], [])
    ensures Next(State(map[], 0, map[1 := Storing(key, e)], [], []), Advance(1)) ==
            State(map[key := e], 0, map[1 := Idle], [Put(key, e)], [])
  {
    assert map[][1 := Stamping(key, first, 1)] == map[1 := Stamping(key, first, 1)];
    assert map[1 := Stamping(key, first, 1)][1 := Storing(key, e)] == map[1 := Storing(key, e)];
    assert map[1 := Storing(key, e)][1 := Idle] == map[1 := Idle];
    assert [] + [Put(key, e)] == [Put(key, e)];
  }

  lemma ReadStale(key: string, e: Entry, w: seq<Write>)
    requires |w| == 1
    ensures Next(State(map[key := e], 0, map[1 := Idle], w, []), Invoke(0, Get(key))) ==
            State(map[key := e], 0, map[1 := Idle, 0 := Reading(key)], w, [])
    ensures Next(State(map[key := e], 0, map[1 := Idle, 0 := Reading(key)], w, []), Advance(0)) ==
            State(map[key := e], 0, map[1 := Idle, 0 := Checking(key, e, Moment(1, 0))], w, [])
  {
    assert map[1 := Idle][0 := Reading(key)] == map[1 := Idle, 0 := Reading(key)];
    assert map[1 := Idle, 0 := Reading(key)][0 := Checking(key, e, Moment(1, 0))] ==
           map[1 := Idle, 0 := Checking(key, e, Moment(1, 0))];
  }

  lemma Replace(key: string, e: Entry, second: seq<byte>, f: Entry, waiting: Pc, w: seq<Write>)
    requires key != "" && f == Entry(second, None)
    ensures Next(State(map[key := e], 0, map[1 := Idle, 0 := waiting], w, []), Invoke(1, Set(key, second, 0))) ==
            State(map[key := e], 0, map[1 := Storing(key, f), 0 := waiting], w, [])
    ensures Next(State(map[key := e], 0, map[1 := Storing(key, f), 0 := waiting], w, []), Advance(1)) ==
            State(map[key := f], 0, map[1 := Idle, 0 := waiting], w + [Put(key, f)], [])
    ensures Next(State(map[key := f], 0, map[1 := Idle, 0 := waiting], w, []), Tick(1)) ==
            State(map[key := f], 1, map[1 := Idle, 0 := waiting], w, [])
  {
    assert map[1 := Idle, 0 := waiting][1 := Storing(key, f)] == map[1 := Storing(key, f), 0 := waiting];
    assert map[1 := Storing(key, f), 0 := waiting][1 := Idle] == map[1 := Idle, 0 := waiting];
    assert map[key := e][key := f] == map[key := f];
  }

  lemma ReportMiss(key: string, e: Entry, f: Entry, w: seq<Write>)
    requires |w| == 2 && e.deadline == Some(1) && f.deadline == None
    ensures Next(State(map[key := f], 1, map[1 := Idle, 0 := Checking(key, e, Moment(1, 0))], w, []), Advance(0)) ==
            State(map[key := f], 1, map[1 := Idle, 0 := Evicting(key, e, Moment(1, 0), Moment(2, 1))], w, [])
    ensures Next(State(map[key := f], 1, map[1 := Idle, 0 := Evicting(key, e, Moment(1, 0), Moment(2, 1))], w, []),
                 Advance(0)) ==
            State(map[key := f], 1, map[1 := Idle, 0 := Idle], w, [Answer(key, Moment(1, 0), Moment(2, 1), None)])
  {
    assert map[1 := Idle, 0 := Checking(key, e, Moment(1, 0))][0 := Evicting(key, e, Moment(1, 0), Moment(2, 1))] ==
           map[1 := Idle, 0 := Evicting(key, e, Moment(1, 0), Moment(2, 1))];
    assert map[1 := Idle, 0 := Evicting(key, e, Moment(1, 0), Moment(2, 1))][0 := Idle] == map[1 := Idle, 0 := Idle];
  }

  predicate LiveIn(s: State, key: string) {
    Live(Lookup(s.entries, key), s.now).Some?
  }

  /** A miss although the key was live all along: thread 0 reads an entry that is about to expire, thread 1 replaces
      it for good, time passes, and thread 0 judges by what it read. */
  lemma MissWhileLive(key: string, first: seq<byte>, second: seq<byte>)
    requires key != ""
    ensures var stored := Next(Next(Next(Init(0), Invoke(1, Set(key, first, 1))), Advance(1)), Advance(1));
            var read := Next(Next(stored, Invoke(0, Get(key))), Advance(0));
            var replaced := Next(Next(read, Invoke(1, Set(key, second, 0))), Advance(1));
            var later := Next(replaced, Tick(1));
            var decided := Next(later, Advance(0));
            var answered := Next(decided, Advance(0));
            && LiveIn(read, key) && LiveIn(replaced, key) && LiveIn(later, key) && LiveIn(decided, key)
            && LiveIn(answered, key)
            && answered.answers == [Answer(key, Moment(1, 0), Moment(2, 1), None)]
  {
    hide Next;
    var e, f := Entry(first, Some(1)), Entry(second, None);
    StoreAlone(key, first, e);
    ReadStale(key, e, [Put(key, e)]);
    Replace(key, e, second, f, Checking(key, e, Moment(1, 0)), [Put(key, e)]);
    var writes := [Put(key, e)] + [Put(key, f)];
    Replace(key, e, second, f, Checking(key, e, Moment(1, 0)), writes);
    ReportMiss(key, e, f, writes);
  }
}
