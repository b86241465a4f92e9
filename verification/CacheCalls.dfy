/** What each call of cachex.Memory has done by the time it returns
    (cachex/memory.go), in every interleaving.

    The ledger of a thread lists its calls in order, with the writes and the
    answers that its own steps made while each was under way. */
module CacheCalls {
  import opened Text
  import opened Cache

  /** A call: when it was made and when it last moved, and which of the run's writes and answers are its own. */
  datatype Record = Record(call: Call, since: Moment, until: Moment, wrote: seq<nat>, answered: seq<nat>)

  /** The numbers from one to below another. */
  function Range(from: nat, to: nat): seq<nat> {
    if from < to then seq(to - from, i requires 0 <= i < to - from => from + i) else []
  }

  /** The calls of a thread in a run. */
  function Ledger(now: int, steps: seq<Step>, t: nat): seq<Record> {
    if steps == [] then []
    else
      var before := Run(now, steps[..|steps| - 1]);
      Entered(before, Next(before, steps[|steps| - 1]), steps[|steps| - 1], t, Ledger(now, steps[..|steps| - 1], t))
  }

  /** What one step enters in the ledger. */
  function Entered(before: State, after: State, step: Step, t: nat, ledger: seq<Record>): seq<Record> {
    match step
    case Tick(_) => ledger
    case Invoke(u, call) =>
      if u == t && PcOf(before, t).Idle? then ledger + [Record(call, Here(before), Here(after), [], [])] else ledger
    case Advance(u) =>
      if u != t || PcOf(before, t).Idle? || ledger == [] then ledger
      else
        var r := ledger[|ledger| - 1];
        ledger[..|ledger| - 1] + [Record(r.call, r.since, Here(after),
                                         r.wrote + Range(|before.writes|, |after.writes|),
                                         r.answered + Range(|before.answers|, |after.answers|))]
  }

  predicate NotAfter(a: Moment, b: Moment) {
    a.writes <= b.writes && a.time <= b.time
  }

  // ------------------------------------------------------------------
  // What a call is for
  // ------------------------------------------------------------------

  /** A Get writes nothing and answers once for its key, by what it read while it was under way; a Set writes its
      value under its key once, to live for the TTL from a moment while it was under way or for ever, or removes the
      key once for a negative TTL; a Delete removes the key once; with an empty key the last two write nothing. */
  ghost predicate Fulfils(r: Record, writes: seq<Write>, answers: seq<Answer>) {
    match r.call
    case Get(key) =>
      && r.wrote == [] && |r.answered| == 1 && r.answered[0] < |answers|
      && (var a := answers[r.answered[0]];
          a.key == key && NotAfter(r.since, a.read) && NotAfter(a.read, a.check) && NotAfter(a.check, r.until))
    case Set(key, value, ttl) =>
      && r.answered == []
      && if key == "" then r.wrote == []
         else
           && |r.wrote| == 1 && r.wrote[0] < |writes| && r.since.writes <= r.wrote[0] < r.until.writes
           && (var w := writes[r.wrote[0]];
               if ttl < 0 then w == Remove(key)
               else
                 && w.Put? && w.key == key && w.entry.value == value
                 && if ttl == 0 then w.entry.deadline == None
                    else w.entry.deadline.Some?
                         && r.since.time + ttl <= w.entry.deadline.value <= r.until.time + ttl)
    case Delete(key) =>
      && r.answered == []
      && if key == "" then r.wrote == []
         else |r.wrote| == 1 && r.wrote[0] < |writes| && r.since.writes <= r.wrote[0] < r.until.writes
              && writes[r.wrote[0]] == Remove(key)
  }

  /** A call that has not returned. */
  ghost predicate UnderWay(r: Record) {
    r.wrote == [] && r.answered == []
  }

  /** Where a call under way has got to. */
  ghost predicate Got(pc: Pc, r: Record, here: Moment) {
    && UnderWay(r) && NotAfter(r.since, here)
    && match pc
       case Idle => false
       case Reading(key) => r.call == Get(key)
       case Checking(key, item, read) => r.call == Get(key) && NotAfter(r.since, read) && NotAfter(read, here)
       case Evicting(key, item, read, check) =>
         r.call == Get(key) && NotAfter(r.since, read) && NotAfter(read, check) && NotAfter(check, here)
       case Stamping(key, value, ttl) => r.call == Set(key, value, ttl) && key != "" && ttl > 0
       case Storing(key, entry) =>
         && key != "" && r.call.Set? && r.call.key == key && r.call.value == entry.value && r.call.ttl >= 0
         && if r.call.ttl == 0 then entry.deadline == None
            else entry.deadline.Some?
                 && r.since.time + r.call.ttl <= entry.deadline.value <= here.time + r.call.ttl
       case Deleting(key) =>
         key != "" && (r.call == Delete(key) || (r.call.Set? && r.call.key == key && r.call.ttl < 0))
  }

  /** All calls of a thread have done what they are for, but for the one under way. */
  ghost predicate Kept(s: State, pc: Pc, ledger: seq<Record>) {
    && (pc.Idle? || (ledger != [] && Got(pc, ledger[|ledger| - 1], Here(s))))
    && (forall i :: 0 <= i < |ledger| - (if pc.Idle? then 0 else 1) ==> Fulfils(ledger[i], s.writes, s.answers))
  }

  lemma FulfilsLater(r: Record, writes: seq<Write>, answers: seq<Answer>, writes': seq<Write>, answers': seq<Answer>)
    requires Fulfils(r, writes, answers) && writes <= writes' && answers <= answers'
    ensures Fulfils(r, writes', answers')
  {
  }

  lemma GotLater(pc: Pc, r: Record, here: Moment, later: Moment)
    requires Got(pc, r, here) && NotAfter(here, later)
    ensures Got(pc, r, later)
  {
  }

  lemma NextGrows(s: State, step: Step)
    ensures var s' := Next(s, step); s.writes <= s'.writes && s.answers <= s'.answers && NotAfter(Here(s), Here(s'))
    ensures forall t :: step != Advance(t) && !(step.Invoke? && step.thread == t) ==>
              PcOf(Next(s, step), t) == PcOf(s, t)
  {
  }

  /** A step of another thread, or of none, leaves a thread's calls as they are. */
  lemma OthersKeep(s: State, s': State, pc: Pc, ledger: seq<Record>)
    requires Kept(s, pc, ledger)
    requires s.writes <= s'.writes && s.answers <= s'.answers && NotAfter(Here(s), Here(s'))
    ensures Kept(s', pc, ledger)
  {
    hide Fulfils, Got;
    forall i | 0 <= i < |ledger| - (if pc.Idle? then 0 else 1)
      ensures Fulfils(ledger[i], s'.writes, s'.answers)
    {
      FulfilsLater(ledger[i], s.writes, s.answers, s'.writes, s'.answers);
    }
    if !pc.Idle? {
      GotLater(pc, ledger[|ledger| - 1], Here(s), Here(s'));
    }
  }

  /** A call begins, or ends at once. */
  lemma EnterGot(s: State, call: Call)
    ensures var r := Record(call, Here(s), Here(s), [], []);
            if Enter(call).Idle? then Fulfils(r, s.writes, s.answers) else Got(Enter(call), r, Here(s))
  {
  }

  /** A call moves on, or ends. */
  lemma AdvanceGot(s: State, t: nat, r: Record)
    requires Got(PcOf(s, t), r, Here(s))
    ensures var s' := Next(s, Advance(t));
            var r' := Record(r.call, r.since, Here(s'), Range(|s.writes|, |s'.writes|),
                             Range(|s.answers|, |s'.answers|));
            if PcOf(s', t).Idle? then Fulfils(r', s'.writes, s'.answers) else Got(PcOf(s', t), r', Here(s'))
  {
  }

  lemma InvokeKept(s: State, t: nat, call: Call, ledger: seq<Record>)
    requires Kept(s, Idle, ledger) && PcOf(s, t).Idle?
    ensures var s' := Next(s, Invoke(t, call));
            Kept(s', PcOf(s', t), ledger + [Record(call, Here(s), Here(s'), [], [])])
  {
    EnterGot(s, call);
    hide Fulfils, Got, Enter;
    var s' := Next(s, Invoke(t, call));
    assert Here(s') == Here(s) && PcOf(s', t) == Enter(call);
  }

  lemma AdvanceKept(s: State, t: nat, ledger: seq<Record>)
    requires Kept(s, PcOf(s, t), ledger) && !PcOf(s, t).Idle?
    ensures var s' := Next(s, Advance(t)); Kept(s', PcOf(s', t), Entered(s, s', Advance(t), t, ledger))
  {
    var s', r := Next(s, Advance(t)), ledger[|ledger| - 1];
    NextGrows(s, Advance(t));
    OthersKeep(s, s', PcOf(s, t), ledger);
    AdvanceGot(s, t, r);
    assert UnderWay(r);
    hide Fulfils, Got, Next;
    assert [] + Range(|s.writes|, |s'.writes|) == Range(|s.writes|, |s'.writes|);
    assert [] + Range(|s.answers|, |s'.answers|) == Range(|s.answers|, |s'.answers|);
    hide Range;
  }

  lemma NextKept(s: State, step: Step, t: nat, ledger: seq<Record>)
    requires Kept(s, PcOf(s, t), ledger)
    ensures var s' := Next(s, step); Kept(s', PcOf(s', t), Entered(s, s', step, t, ledger))
  {
    var s' := Next(s, step);
    if step.Invoke? && step.thread == t && PcOf(s, t).Idle? {
      InvokeKept(s, t, step.call, ledger);
    } else if step == Advance(t) && !PcOf(s, t).Idle? {
      AdvanceKept(s, t, ledger);
    } else {
      NextGrows(s, step);
      OthersKeep(s, s', PcOf(s, t), ledger);
    }
    hide Kept, Fulfils, Got;
  }

  /** In every run every call of every thread that has returned has done exactly what it is for, and one that has
      not has done nothing yet. */
  lemma {:induction false} CallsAreFulfilled(now: int, steps: seq<Step>, t: nat)
    ensures var s, ledger := Run(now, steps), Ledger(now, steps, t);
            && Kept(s, PcOf(s, t), ledger)
            && (forall i :: 0 <= i < |ledger| ==>
                  Fulfils(ledger[i], s.writes, s.answers)
                  || (i == |ledger| - 1 && !PcOf(s, t).Idle? && UnderWay(ledger[i])))
  {
    hide Fulfils, Next, Entered, Range;
    if steps != [] {
      CallsAreFulfilled(now, steps[..|steps| - 1], t);
      NextKept(Run(now, steps[..|steps| - 1]), steps[|steps| - 1], t, Ledger(now, steps[..|steps| - 1], t));
    }
  }

  // ------------------------------------------------------------------
  // Nothing happens that no call asked for
  // ------------------------------------------------------------------

  datatype Kind = Writes | Answers

  function Own(r: Record, kind: Kind): seq<nat> {
    if kind == Writes then r.wrote else r.answered
  }

  function Count(s: State, kind: Kind): nat {
    if kind == Writes then |s.writes| else |s.answers|
  }

  /** A write or an answer is a call's own. */
  ghost predicate Owns(ledger: seq<Record>, kind: Kind, j: nat, i: nat) {
    j < |ledger| && i in Own(ledger[j], kind)
  }

  lemma InRange(from: nat, to: nat, i: nat)
    ensures i in Range(from, to) <==> from <= i < to
  {
    if from <= i < to {
      assert Range(from, to)[i - from] == i;
    }
  }

  /** What a step adds goes to the last call of the thread that took it. */
  lemma EnteredOwns(s: State, step: Step, t: nat, ledger: seq<Record>, kind: Kind, j: nat, i: nat)
    requires PcOf(s, t).Idle? || ledger != []
    ensures var s' := Next(s, step);
            Owns(Entered(s, s', step, t, ledger), kind, j, i) <==>
            || Owns(ledger, kind, j, i)
            || (step == Advance(t) && !PcOf(s, t).Idle? && j == |ledger| - 1
                && Count(s, kind) <= i < Count(s', kind))
  {
    var s' := Next(s, step);
    InRange(|s.writes|, |s'.writes|, i);
    InRange(|s.answers|, |s'.answers|, i);
    hide Next, Range;
  }

  lemma OnlyAdvanceCounts(s: State, step: Step, kind: Kind)
    ensures Count(s, kind) <= Count(Next(s, step), kind)
    ensures Count(Next(s, step), kind) != Count(s, kind) ==> step.Advance? && !PcOf(s, step.thread).Idle?
  {
  }

  lemma OwnsWithin(s: State, pc: Pc, ledger: seq<Record>, kind: Kind, j: nat, i: nat)
    requires Kept(s, pc, ledger) && Owns(ledger, kind, j, i)
    ensures i < Count(s, kind)
  {
  }

  lemma LedgerOwns(now: int, steps: seq<Step>, kind: Kind, t: nat, j: nat, i: nat)
    requires steps != []
    ensures var s, step := Run(now, steps[..|steps| - 1]), steps[|steps| - 1];
            Owns(Ledger(now, steps, t), kind, j, i) <==>
            || Owns(Ledger(now, steps[..|steps| - 1], t), kind, j, i)
            || (step == Advance(t) && !PcOf(s, t).Idle? && j == |Ledger(now, steps[..|steps| - 1], t)| - 1
                && Count(s, kind) <= i < Count(Next(s, step), kind))
  {
    var s, step := Run(now, steps[..|steps| - 1]), steps[|steps| - 1];
    CallsAreFulfilled(now, steps[..|steps| - 1], t);
    EnteredOwns(s, step, t, Ledger(now, steps[..|steps| - 1], t), kind, j, i);
    hide Next, Owns, Entered, Run, Fulfils;
  }

  /** Every write and every answer of a run is some call's. */
  lemma {:induction false} EveryOneIsOwned(now: int, steps: seq<Step>, kind: Kind, i: nat) returns (t: nat, j: nat)
    requires i < Count(Run(now, steps), kind)
    ensures Owns(Ledger(now, steps, t), kind, j, i)
  {
    var s, step := Run(now, steps[..|steps| - 1]), steps[|steps| - 1];
    OnlyAdvanceCounts(s, step, kind);
    if i < Count(s, kind) {
      t, j := EveryOneIsOwned(now, steps[..|steps| - 1], kind, i);
    } else {
      t := step.thread;
      CallsAreFulfilled(now, steps[..|steps| - 1], t);
      j := |Ledger(now, steps[..|steps| - 1], t)| - 1;
    }
    LedgerOwns(now, steps, kind, t, j, i);
    hide Next, Owns, Ledger;
  }

  /** And of no other. */
  lemma {:induction false} NoneIsOwnedTwice(now: int, steps: seq<Step>, kind: Kind, i: nat,
                                            t: nat, j: nat, u: nat, k: nat)
    requires Owns(Ledger(now, steps, t), kind, j, i) && Owns(Ledger(now, steps, u), kind, k, i)
    ensures t == u && j == k && i < Count(Run(now, steps), kind)
  {
    hide Next, Owns, Entered, Fulfils, Range, Got;
    OwnedWithin(now, steps, kind, t, j, i);
    if steps == [] {
      NothingOwned(kind, j, i);
    } else {
      var before := steps[..|steps| - 1];
      LedgerOwns(now, steps, kind, t, j, i);
      LedgerOwns(now, steps, kind, u, k, i);
      if Owns(Ledger(now, before, t), kind, j, i) {
        OwnedWithin(now, before, kind, t, j, i);
        NoneIsOwnedTwice(now, before, kind, i, t, j, u, k);
      } else if Owns(Ledger(now, before, u), kind, k, i) {
        OwnedWithin(now, before, kind, u, k, i);
      }
    }
  }

  lemma OwnedWithin(now: int, steps: seq<Step>, kind: Kind, t: nat, j: nat, i: nat)
    requires Owns(Ledger(now, steps, t), kind, j, i)
    ensures i < Count(Run(now, steps), kind)
  {
    hide Run, Ledger, Owns;
    CallsAreFulfilled(now, steps, t);
    OwnsWithin(Run(now, steps), PcOf(Run(now, steps), t), Ledger(now, steps, t), kind, j, i);
  }

  lemma NothingOwned(kind: Kind, j: nat, i: nat)
    ensures !Owns([], kind, j, i)
  {
  }

  // ------------------------------------------------------------------
  // Calls return
  // ------------------------------------------------------------------

  /** A state and the steps that follow it. */
  function After(s: State, steps: seq<Step>): State
    decreases |steps|
  {
    if steps == [] then s else After(Next(s, steps[0]), steps[1..])
  }

  function Advances(steps: seq<Step>, t: nat): nat {
    if steps == [] then 0 else (if steps[0] == Advance(t) then 1 else 0) + Advances(steps[1..], t)
  }

  /** The steps a thread has before it, at most. */
  function Ahead(pc: Pc): nat {
    match pc
    case Idle => 0
    case Reading(_) => 3
    case Checking(_, _, _) => 2
    case Evicting(_, _, _, _) => 1
    case Stamping(_, _, _) => 2
    case Storing(_, _) => 1
    case Deleting(_) => 1
  }

  lemma NextAhead(s: State, step: Step, t: nat)
    requires !(step.Invoke? && step.thread == t)
    ensures var was, left := Ahead(PcOf(s, t)), Ahead(PcOf(Next(s, step), t));
            left <= (if step == Advance(t) && was > 0 then was - 1 else was)
  {
  }

  lemma {:induction false} AfterAhead(s: State, steps: seq<Step>, t: nat)
    requires forall i :: 0 <= i < |steps| ==> !(steps[i].Invoke? && steps[i].thread == t)
    ensures Ahead(PcOf(After(s, steps), t)) == 0
            || Ahead(PcOf(After(s, steps), t)) + Advances(steps, t) <= Ahead(PcOf(s, t))
    decreases |steps|
  {
    hide Next, Ahead;
    if steps != [] {
      NextAhead(s, steps[0], t);
      AfterAhead(Next(s, steps[0]), steps[1..], t);
    }
  }

  /** A call returns once its thread has had three steps, whatever the others do meanwhile. */
  lemma CallsReturn(s: State, steps: seq<Step>, t: nat)
    requires forall i :: 0 <= i < |steps| ==> !(steps[i].Invoke? && steps[i].thread == t)
    requires Advances(steps, t) >= 3
    ensures PcOf(After(s, steps), t).Idle?
  {
    AfterAhead(s, steps, t);
    hide After, Advances;
  }
}
