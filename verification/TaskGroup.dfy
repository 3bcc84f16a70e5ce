/** The group that owns named tasks and joins every one of them at shutdown. */
module TaskGroup {
  import opened Ordering
  import opened Text

  /** The runtime's task ids; one is never given to a task while another that holds it has not been joined. */
  type Id = nat

  datatype Exit = ExitCancelled | ExitCompleted | ExitError(error: Bytes)

  /** What the runtime hands over for one task. */
  datatype Joined = Finished(id: Id, exit: Exit) | Crashed(id: Id, cancelled: bool, message: Bytes)

  datatype Kind = Cancelled | PrematureCompletion | Failed(error: Bytes) | Panicked(message: Bytes) | Aborted

  datatype Outcome = Outcome(name: Bytes, kind: Kind)

  datatype Report = Report(outcomes: seq<Outcome>, deadlineExceeded: bool, unfinished: seq<Bytes>)

  /** The kinds of `task_outcome`. */
  function KindOf(j: Joined): Kind {
    match j
    case Finished(_, ExitCancelled) => Cancelled
    case Finished(_, ExitCompleted) => PrematureCompletion
    case Finished(_, ExitError(e)) => Failed(e)
    case Crashed(_, cancelled, message) => if cancelled then Aborted else Panicked(message)
  }

  predicate ByName(a: Outcome, b: Outcome) { BytesLess(a.name, b.name) }

  // ---- histories -------------------------------------------------------------------------------------------

  datatype Event = Spawn(id: Id, name: Bytes) | Join(joined: Joined)

  function IdOf(e: Event): Id { if e.Spawn? then e.id else e.joined.id }

  /** The names of all spawned and not yet joined tasks. */
  function Live(log: seq<Event>): map<Id, Bytes> {
    if log == [] then map[]
    else
      var m, e := Live(log[..|log| - 1]), log[|log| - 1];
      if e.Spawn? then m[e.id := e.name] else m - {e.joined.id}
  }

  /** The runtime's promise: an id is not given twice before it is joined, and only live tasks are joined. */
  predicate Proper(log: seq<Event>) {
    log == [] ||
    var before, e := log[..|log| - 1], log[|log| - 1];
    Proper(before) && (if e.Spawn? then e.id !in Live(before) else e.joined.id in Live(before))
  }

  /** One outcome for each join, under the name given at its spawn. */
  function Outcomes(log: seq<Event>): seq<Outcome>
    requires Proper(log)
  {
    if log == [] then []
    else
      var before, e := log[..|log| - 1], log[|log| - 1];
      if e.Spawn? then Outcomes(before) else Outcomes(before) + [Outcome(Live(before)[e.joined.id], KindOf(e.joined))]
  }

  lemma Snoc(log: seq<Event>, e: Event)
    ensures (log + [e])[..|log|] == log && (log + [e])[|log|] == e
  {
  }

  // ---- the group --------------------------------------------------------------------------------------------

  class Group {
    var cancelled: bool
    var tasks: set<Id>
    var names: map<Id, Bytes>
    var observed: seq<Outcome>
    ghost var log: seq<Event>

    /** Name-map keys are the ids of the unjoined tasks, and every observed outcome is the right one. */
    ghost predicate Valid()
      reads this
    {
      Proper(log) && names == Live(log) && tasks == names.Keys && observed == Outcomes(log)
    }

    constructor ()
      ensures Valid() && log == [] && tasks == {} && !cancelled
    {
      cancelled, tasks, names, observed, log := false, {}, map[], [], [];
    }

    method Spawned(id: Id, name: Bytes)
      requires Valid() && id !in tasks
      modifies this
      ensures Valid() && log == old(log) + [Spawn(id, name)] && tasks == old(tasks) + {id}
      ensures cancelled == old(cancelled)
    {
      tasks := tasks + {id};
      names := names[id := name];
      Snoc(log, Spawn(id, name));
      log := log + [Spawn(id, name)];
    }

    /** `task_outcome` and `task_name`: the default name for an unknown id is never used. */
    method TaskOutcome(joined: Joined, unknown: Id -> Bytes) returns (o: Outcome)
      requires Proper(log) && names == Live(log) && tasks == names.Keys && joined.id in tasks
      modifies this`names, this`tasks, this`log
      ensures log == old(log) + [Join(joined)] && Proper(log) && names == Live(log) && tasks == names.Keys
      ensures tasks == old(tasks) - {joined.id}
      ensures Outcomes(log) == Outcomes(old(log)) + [o] && o == Outcome(old(names)[joined.id], KindOf(joined))
    {
      tasks := tasks - {joined.id};
      var name := if joined.id in names then names[joined.id] else unknown(joined.id);
      names := names - {joined.id};
      Snoc(log, Join(joined));
      log := log + [Join(joined)];
      o := Outcome(name, KindOf(joined));
    }

    /** `try_next_completion` and `next_completion`: what the runtime joined, if anything. */
    method NextCompletion(joined: Option<Joined>, unknown: Id -> Bytes) returns (r: Option<Outcome>)
      requires Valid() && (joined.Some? ==> joined.value.id in tasks)
      modifies this
      ensures Valid() && r.Some? == joined.Some? && cancelled == old(cancelled)
      ensures log == if joined.Some? then old(log) + [Join(joined.value)] else old(log)
      ensures joined.Some? ==> r.value == Outcome(old(names)[joined.value.id], KindOf(joined.value))
    {
      if joined.None? { return None; }
      var outcome := TaskOutcome(joined.value, unknown);
      observed := observed + [outcome];
      return Some(outcome);
    }

    /** The group in the middle of `shutdown`, when `i` tasks of the schedule are joined. */
    ghost predicate Joining(start: seq<Event>, schedule: seq<Joined>, i: nat, outcomes: seq<Outcome>)
      requires i <= |schedule|
      reads this
    {
      && log == start + Joins(schedule[..i]) && Covers(schedule[i..], tasks) && cancelled && observed == []
      && Proper(log) && names == Live(log) && tasks == names.Keys && outcomes == Outcomes(log)
    }

    method JoinNext(ghost start: seq<Event>, schedule: seq<Joined>, i: nat, outcomes: seq<Outcome>, unknown: Id -> Bytes)
      returns (more: seq<Outcome>)
      requires i <= |schedule| && Joining(start, schedule, i, outcomes) && tasks != {}
      modifies this
      ensures i < |schedule| && Joining(start, schedule, i + 1, more)
    {
      NextJoin(start, schedule, i, tasks);
      var outcome := TaskOutcome(schedule[i], unknown);
      more := outcomes + [outcome];
    }

    /** The first loop of `shutdown`: join until none is left or the deadline passes. */
    method JoinInTime(ghost start: seq<Event>, schedule: seq<Joined>, inTime: nat, observed: seq<Outcome>, unknown: Id -> Bytes)
      returns (i: nat, outcomes: seq<Outcome>, exceeded: bool, unfinished: seq<Bytes>)
      requires Joining(start, schedule, 0, observed)
      modifies this
      ensures i <= |schedule| && Joining(start, schedule, i, outcomes) && (exceeded <==> tasks != {})
      ensures exceeded ==> i == inTime && SortedNames(unfinished, names)
      ensures !exceeded ==> i <= inTime && unfinished == []
    {
      i, outcomes, exceeded, unfinished := 0, observed, false, [];
      while tasks != {}
        invariant i <= |schedule| && i <= inTime && Joining(start, schedule, i, outcomes)
        decreases |schedule| - i
      {
        if i == inTime {
          exceeded := true;
          unfinished := CollectNames(names);
          return;
        }
        outcomes := JoinNext(start, schedule, i, outcomes, unknown);
        i := i + 1;
      }
    }

    /** The second loop, after the abort: join whatever is left. */
    method JoinRest(ghost start: seq<Event>, schedule: seq<Joined>, done: nat, outcomes: seq<Outcome>, unknown: Id -> Bytes)
      returns (all: seq<Outcome>)
      requires done <= |schedule| && Joining(start, schedule, done, outcomes)
      modifies this
      ensures Joining(start, schedule, |schedule|, all) && tasks == {}
    {
      var i := done;
      all := outcomes;
      while tasks != {}
        invariant i <= |schedule| && Joining(start, schedule, i, all)
        decreases |schedule| - i
      {
        all := JoinNext(start, schedule, i, all, unknown);
        i := i + 1;
      }
      assert schedule[i..] == [];
    }

    /** `shutdown`: the runtime joins the remaining tasks in the order of `schedule`, the first `inTime` of them
        before the deadline. */
    method Shutdown(schedule: seq<Joined>, inTime: nat, unknown: Id -> Bytes) returns (report: Report)
      requires Valid() && Covers(schedule, tasks)
      modifies this
      ensures log == old(log) + Joins(schedule) && Proper(log) && tasks == {} && names == map[] == Live(log) && cancelled
      ensures report.outcomes == SortBy(ByName, Outcomes(log))
      ensures report.deadlineExceeded <==> inTime < |schedule|
      ensures !report.deadlineExceeded ==> report.unfinished == []
      ensures report.deadlineExceeded ==> SortedNames(report.unfinished, Live(old(log) + Joins(schedule[..inTime])))
    {
      ghost var start := log;
      cancelled := true;
      var outcomes := observed;
      observed := [];
      assert schedule[0..] == schedule && start + Joins(schedule[..0]) == start;
      var i, joined, exceeded, unfinished := JoinInTime(start, schedule, inTime, outcomes, unknown);
      assert exceeded ==> schedule[i..] != [];
      assert !exceeded ==> schedule[i..] == [];
      var all := JoinRest(start, schedule, i, joined, unknown);
      assert schedule[..|schedule|] == schedule;
      report := Report(SortBy(ByName, all), exceeded, unfinished);
    }
  }

  // ---- schedules --------------------------------------------------------------------------------------------

  function JoinOf(j: Joined): Event { Join(j) }

  function Joins(schedule: seq<Joined>): seq<Event> { Map(JoinOf, schedule) }

  /** Each task of the set is joined exactly once. */
  predicate Covers(schedule: seq<Joined>, tasks: set<Id>) {
    if schedule == [] then tasks == {}
    else schedule[0].id in tasks && Covers(schedule[1..], tasks - {schedule[0].id})
  }

  lemma NextJoin(log: seq<Event>, schedule: seq<Joined>, i: nat, tasks: set<Id>)
    requires i <= |schedule| && Covers(schedule[i..], tasks) && tasks != {}
    ensures i < |schedule| && schedule[i].id in tasks && Covers(schedule[i + 1..], tasks - {schedule[i].id})
    ensures log + Joins(schedule[..i]) + [Join(schedule[i])] == log + Joins(schedule[..i + 1])
  {
    assert schedule[i..] != [];
    assert schedule[i..][1..] == schedule[i + 1..] && schedule[i..][0] == schedule[i];
    assert schedule[..i + 1] == schedule[..i] + [schedule[i]];
    assert Joins(schedule[..i + 1]) == Joins(schedule[..i]) + [JoinOf(schedule[i])];
  }

  // ---- counting by name -------------------------------------------------------------------------------------

  /** How many live tasks have a name. */
  function LiveCount(m: map<Id, Bytes>, name: Bytes): nat { |WithName(m, name)| }

  function WithName(m: map<Id, Bytes>, name: Bytes): set<Id> { set id | id in m && m[id] == name }

  ghost predicate SortedNames(s: seq<Bytes>, m: map<Id, Bytes>) {
    Sortedness(BytesLess, s) && forall n :: multiset(s)[n] == LiveCount(m, n)
  }

  lemma CountRemove(m: map<Id, Bytes>, id: Id, name: Bytes)
    requires id in m
    ensures LiveCount(m, name) == LiveCount(m - {id}, name) + if m[id] == name then 1 else 0
  {
    var rest := WithName(m - {id}, name);
    if m[id] == name {
      assert WithName(m, name) == rest + {id} && id !in rest;
    } else {
      assert WithName(m, name) == rest;
    }
  }

  lemma CountInsert(m: map<Id, Bytes>, id: Id, value: Bytes, name: Bytes)
    requires id !in m
    ensures LiveCount(m[id := value], name) == LiveCount(m, name) + if value == name then 1 else 0
  {
    assert m[id := value] - {id} == m;
    CountRemove(m[id := value], id, name);
  }

  lemma NoneLive(name: Bytes)
    ensures LiveCount(map[], name) == 0
  {
    assert WithName(map[], name) == {};
  }

  ghost predicate Collected(s: seq<Bytes>, left: map<Id, Bytes>, m: map<Id, Bytes>) {
    forall n :: multiset(s)[n] + LiveCount(left, n) == LiveCount(m, n)
  }

  lemma CollectedStep(s: seq<Bytes>, left: map<Id, Bytes>, m: map<Id, Bytes>, id: Id)
    requires Collected(s, left, m) && id in left
    ensures Collected(s + [left[id]], left - {id}, m)
  {
    forall n ensures multiset(s + [left[id]])[n] + LiveCount(left - {id}, n) == LiveCount(m, n) {
      CountRemove(left, id, n);
      assert multiset(s)[n] + LiveCount(left, n) == LiveCount(m, n);
    }
  }

  lemma BytesWeak()
    ensures WeakOrder(BytesLess)
  {
    BytesOrder();
  }

  /** `names.values().cloned().collect()` and `sort`. */
  method CollectNames(m: map<Id, Bytes>) returns (r: seq<Bytes>)
    ensures SortedNames(r, m)
  {
    var s: seq<Bytes>, left := [], m;
    while left != map[]
      invariant Collected(s, left, m)
      decreases left.Keys
    {
      assert left.Keys != {};
      var id :| id in left;
      CollectedStep(s, left, m, id);
      s, left := s + [left[id]], left - {id};
    }
    BytesWeak();
    SortBySorts(BytesLess, s);
    SortByPermutes(BytesLess, s);
    r := SortBy(BytesLess, s);
    forall n ensures multiset(r)[n] == LiveCount(m, n) {
      NoneLive(n);
      assert multiset(s)[n] + LiveCount(left, n) == LiveCount(m, n);
    }
  }

  // ---- conservation -------------------------------------------------------------------------------------------

  function SpawnCount(log: seq<Event>, name: Bytes): nat {
    if log == [] then 0
    else SpawnCount(log[..|log| - 1], name) + if log[|log| - 1].Spawn? && log[|log| - 1].name == name then 1 else 0
  }

  function OutcomeCount(s: seq<Outcome>, name: Bytes): nat {
    if s == [] then 0 else OutcomeCount(s[..|s| - 1], name) + if s[|s| - 1].name == name then 1 else 0
  }

  /** At every moment: tasks spawned under a name = outcomes under it + live tasks under it. */
  lemma {:induction false} TasksConserved(log: seq<Event>, name: Bytes)
    requires Proper(log)
    ensures SpawnCount(log, name) == OutcomeCount(Outcomes(log), name) + LiveCount(Live(log), name)
  {
    if log == [] {
      NoneLive(name);
    } else {
      var before, e := log[..|log| - 1], log[|log| - 1];
      TasksConserved(before, name);
      if e.Spawn? {
        CountInsert(Live(before), e.id, e.name, name);
      } else {
        CountRemove(Live(before), e.joined.id, name);
        var o := Outcome(Live(before)[e.joined.id], KindOf(e.joined));
        assert (Outcomes(before) + [o])[..|Outcomes(before)|] == Outcomes(before);
      }
    }
  }

  /** No event on the id strictly between two positions. */
  predicate Quiet(log: seq<Event>, from: nat, to: nat, id: Id) {
    forall k :: from < k < to && k < |log| ==> IdOf(log[k]) != id
  }

  /** A live task is live under the name of its own spawn. */
  lemma {:induction false} LiveSinceSpawn(log: seq<Event>, id: Id) returns (q: nat)
    requires Proper(log) && id in Live(log)
    ensures q < |log| && log[q] == Spawn(id, Live(log)[id]) && Quiet(log, q, |log|, id)
  {
    var before, e := log[..|log| - 1], log[|log| - 1];
    if e.Spawn? && e.id == id {
      q := |log| - 1;
    } else {
      q := LiveSinceSpawn(before, id);
      assert before[q] == log[q];
      forall k | q < k < |log| ensures IdOf(log[k]) != id {
        if k < |log| - 1 { assert before[k] == log[k]; }
      }
    }
  }

  lemma {:induction false} ProperPrefix(log: seq<Event>, n: nat)
    requires Proper(log) && n <= |log|
    ensures Proper(log[..n])
  {
    if n < |log| {
      ProperPrefix(log[..|log| - 1], n);
      assert log[..|log| - 1][..n] == log[..n];
    } else {
      assert log[..n] == log;
    }
  }

  lemma {:induction false} StaysLive(log: seq<Event>, q: nat, n: nat)
    requires Proper(log) && q < n <= |log| && log[q].Spawn? && Quiet(log, q, n, log[q].id)
    ensures log[q].id in Live(log[..n]) && Live(log[..n])[log[q].id] == log[q].name
    decreases n
  {
    assert log[..n][..n - 1] == log[..n - 1] && log[..n][n - 1] == log[n - 1];
    if q < n - 1 {
      StaysLive(log, q, n - 1);
      assert IdOf(log[n - 1]) != log[q].id;
    }
  }

  /** The outcome a join produces stays in the list. */
  lemma {:induction false} OutcomeAt(log: seq<Event>, p: nat)
    requires Proper(log) && p < |log| && log[p].Join?
    ensures log[p].joined.id in Live(log[..p])
    ensures Outcome(Live(log[..p])[log[p].joined.id], KindOf(log[p].joined)) in Outcomes(log)
  {
    var before := log[..|log| - 1];
    if p < |log| - 1 {
      assert before[p] == log[p] && before[..p] == log[..p];
      OutcomeAt(before, p);
    } else {
      assert log[..p] == before;
      var o := Outcome(Live(before)[log[p].joined.id], KindOf(log[p].joined));
      assert Outcomes(log)[|Outcomes(before)|] == o;
    }
  }

  /** The first event on an id after a position, if there is one. */
  function NextOn(log: seq<Event>, from: nat, id: Id): (p: nat)
    ensures from <= p && (p < |log| ==> IdOf(log[p]) == id)
    decreases |log| - from
  {
    if from >= |log| || IdOf(log[from]) == id then from else NextOn(log, from + 1, id)
  }

  lemma {:induction false} NextOnQuiet(log: seq<Event>, from: nat, id: Id, k: nat)
    requires from <= k < NextOn(log, from, id) && k < |log|
    ensures IdOf(log[k]) != id
    decreases |log| - from
  {
    if k > from { NextOnQuiet(log, from + 1, id, k); }
  }

  /** When the group ends empty, each spawned task has been joined exactly once, by the next event on its id, and its
      outcome, under its own name and of its own kind, is in the report. */
  lemma EveryTaskReported(log: seq<Event>, q: nat) returns (p: nat)
    requires Proper(log) && Live(log) == map[] && q < |log| && log[q].Spawn?
    ensures q < p < |log| && log[p].Join? && log[p].joined.id == log[q].id && Quiet(log, q, p, log[q].id)
    ensures Outcome(log[q].name, KindOf(log[p].joined)) in Outcomes(log)
  {
    var id := log[q].id;
    p := NextOn(log, q + 1, id);
    var end := if p < |log| then p else |log|;
    forall k | q < k < end ensures IdOf(log[k]) != id { NextOnQuiet(log, q + 1, id, k); }
    StaysLive(log, q, end);
    assert log[..|log|] == log;
    assert p < |log|;
    ProperPrefix(log, p + 1);
    assert log[..p + 1][..p] == log[..p] && log[..p + 1][p] == log[p];
    OutcomeAt(log, p);
  }

  // ---- the report -----------------------------------------------------------------------------------------------

  /** Where in the history something happened, in order. */
  function Positions(p: Event -> bool, log: seq<Event>): seq<nat> {
    if log == [] then []
    else Positions(p, log[..|log| - 1]) + if p(log[|log| - 1]) then [|log| - 1] else []
  }

  function IsSpawn(e: Event): bool { e.Spawn? }

  function IsJoin(e: Event): bool { e.Join? }

  lemma {:induction false} PositionsExact(p: Event -> bool, log: seq<Event>)
    ensures forall k: nat :: k in Positions(p, log) <==> k < |log| && p(log[k])
    ensures Distinct(Positions(p, log))
  {
    if log != [] {
      var before := log[..|log| - 1];
      PositionsExact(p, before);
      var s := Positions(p, before);
      forall i | 0 <= i < |s| ensures s[i] < |before| && before[s[i]] == log[s[i]] { assert s[i] in s; }
      assert forall k: nat :: k < |before| ==> before[k] == log[k];
    }
  }

  const NO_OUTCOME := Outcome([], Aborted)

  /** The outcome that the join at a position produces. */
  function Produced(log: seq<Event>, p: nat): Outcome {
    if p < |log| && log[p].Join? && log[p].joined.id in Live(log[..p])
    then Outcome(Live(log[..p])[log[p].joined.id], KindOf(log[p].joined)) else NO_OUTCOME
  }

  /** Where what was spawned at a position is joined: at the next event on its id. */
  function JoinOfSpawn(log: seq<Event>, q: nat): nat { if q < |log| then NextOn(log, q + 1, IdOf(log[q])) else q }

  /** The outcome of what was spawned at a position: its own name, and how its own join says it ended. */
  function Own(log: seq<Event>, q: nat): Outcome {
    var p := JoinOfSpawn(log, q);
    if q < |log| && log[q].Spawn? && p < |log| && log[p].Join?
    then Outcome(log[q].name, KindOf(log[p].joined)) else NO_OUTCOME
  }

  function ProducedAt(log: seq<Event>): nat -> Outcome { (p: nat) => Produced(log, p) }

  function JoinedAt(log: seq<Event>): nat -> nat { (q: nat) => JoinOfSpawn(log, q) }

  function OwnOutcome(log: seq<Event>): nat -> Outcome { (q: nat) => Own(log, q) }

  /** `f` gives the outcome of the join at `p`. */
  predicate Produces(log: seq<Event>, f: nat -> Outcome, p: nat)
    requires p < |log| && log[p].Join?
  {
    var id, live := log[p].joined.id, Live(log[..p]);
    id in live && f(p) == Outcome(live[id], KindOf(log[p].joined))
  }

  lemma OneMore(log: seq<Event>, k: nat)
    requires k < |log| && Proper(log[..k + 1])
    ensures Proper(log[..k])
    ensures log[k].Spawn? ==> Outcomes(log[..k + 1]) == Outcomes(log[..k])
    ensures log[k].Join? ==> log[k].joined.id in Live(log[..k])
    ensures log[k].Join? ==>
      Outcomes(log[..k + 1]) == Outcomes(log[..k]) + [Outcome(Live(log[..k])[log[k].joined.id], KindOf(log[k].joined))]
    ensures Positions(IsJoin, log[..k + 1]) == Positions(IsJoin, log[..k]) + if log[k].Join? then [k] else []
  {
    assert log[..k + 1][..k] == log[..k] && log[..k + 1][k] == log[k];
  }

  lemma {:induction false} OutcomesUpTo(log: seq<Event>, f: nat -> Outcome, n: nat)
    requires n <= |log| && Proper(log[..n]) && forall p: nat :: p < |log| && log[p].Join? ==> Produces(log, f, p)
    ensures Outcomes(log[..n]) == Map(f, Positions(IsJoin, log[..n]))
  {
    if n > 0 {
      var k: nat := n - 1;
      OneMore(log, k);
      OutcomesUpTo(log, f, k);
      if log[k].Join? {
        assert Produces(log, f, k);
        MapLast<nat, Outcome>(f, Positions(IsJoin, log[..k]), k);
      }
    }
  }

  lemma JoinProduces(log: seq<Event>, p: nat)
    requires Proper(log) && p < |log| && log[p].Join?
    ensures Produces(log, ProducedAt(log), p)
  {
    ProperPrefix(log, p + 1);
    assert log[..p + 1][..p] == log[..p] && log[..p + 1][p] == log[p];
  }

  lemma OutcomesByJoin(log: seq<Event>)
    requires Proper(log)
    ensures Outcomes(log) == Map(ProducedAt(log), Positions(IsJoin, log))
  {
    forall p: nat | p < |log| && log[p].Join? ensures Produces(log, ProducedAt(log), p) { JoinProduces(log, p); }
    assert log[..|log|] == log;
    OutcomesUpTo(log, ProducedAt(log), |log|);
  }

  lemma MapLast<S, T>(f: S -> T, s: seq<S>, x: S)
    ensures Map(f, s + [x]) == Map(f, s) + [f(x)]
  {
  }

  lemma {:induction false} NextOnIs(log: seq<Event>, from: nat, id: Id, p: nat)
    requires from <= p < |log| && IdOf(log[p]) == id && forall k :: from <= k < p ==> IdOf(log[k]) != id
    ensures NextOn(log, from, id) == p
    decreases p - from
  {
    if from < p { NextOnIs(log, from + 1, id, p); }
  }

  /** Every join ends one spawned task. */
  lemma JoinHasSpawn(log: seq<Event>, p: nat) returns (q: nat)
    requires Proper(log) && p < |log| && log[p].Join?
    ensures q < p && log[q].Spawn? && JoinOfSpawn(log, q) == p
  {
    ProperPrefix(log, p + 1);
    var before := log[..p];
    assert log[..p + 1][..p] == before && log[..p + 1][p] == log[p];
    q := LiveSinceSpawn(before, log[p].joined.id);
    assert before[q] == log[q];
    forall k | q + 1 <= k < p ensures IdOf(log[k]) != log[q].id { assert before[k] == log[k]; }
    NextOnIs(log, q + 1, log[q].id, p);
  }

  /** No join ends two. */
  lemma SpawnsApart(log: seq<Event>, q: nat, r: nat)
    requires q < r < |log| && log[q].Spawn? && log[r].Spawn? && JoinOfSpawn(log, q) < |log|
    ensures JoinOfSpawn(log, q) != JoinOfSpawn(log, r)
  {
    if JoinOfSpawn(log, q) == JoinOfSpawn(log, r) { NextOnQuiet(log, q + 1, log[q].id, r); }
  }

  lemma SpawnIsJoined(log: seq<Event>, q: nat)
    requires Proper(log) && Live(log) == map[] && q < |log| && log[q].Spawn?
    ensures JoinOfSpawn(log, q) < |log| && log[JoinOfSpawn(log, q)].Join?
    ensures Produced(log, JoinOfSpawn(log, q)) == Own(log, q)
  {
    var p := EveryTaskReported(log, q);
    NextOnIs(log, q + 1, log[q].id, p);
    StaysLive(log, q, p);
  }

  /** Spawns and joins are paired one to one. */
  lemma SpawnsPaired(log: seq<Event>)
    requires Proper(log) && Live(log) == map[]
    ensures multiset(Map(JoinedAt(log), Positions(IsSpawn, log))) == multiset(Positions(IsJoin, log))
  {
    var f, spawns, joins := JoinedAt(log), Positions(IsSpawn, log), Positions(IsJoin, log);
    PositionsExact(IsSpawn, log);
    PositionsExact(IsJoin, log);
    forall q | q in spawns ensures f(q) in joins { SpawnIsJoined(log, q); }
    forall q, r | q in spawns && r in spawns && q < r ensures f(q) != f(r) {
      SpawnIsJoined(log, q);
      SpawnsApart(log, q, r);
    }
    forall p | p in joins ensures exists q :: q in spawns && f(q) == p { var q := JoinHasSpawn(log, p); }
    PairedUp(f, spawns, joins);
  }

  lemma PairedUp(f: nat -> nat, a: seq<nat>, b: seq<nat>)
    requires Distinct(a) && Distinct(b)
    requires forall q :: q in a ==> f(q) in b
    requires forall q, r :: q in a && r in a && q < r ==> f(q) != f(r)
    requires forall p :: p in b ==> exists q :: q in a && f(q) == p
    ensures multiset(Map(f, a)) == multiset(b)
  {
    var c := Map(f, a);
    forall i, j | 0 <= i < j < |c| ensures c[i] != c[j] { assert a[i] < a[j] || a[j] < a[i]; }
    forall p | p in b ensures p in c {
      var q :| q in a && f(q) == p;
      var i :| 0 <= i < |a| && a[i] == q;
      assert c[i] == p;
    }
    forall p | p in c ensures p in b {
      var i :| 0 <= i < |c| && c[i] == p;
      assert a[i] in a;
    }
    SameDistinct(c, b);
  }

  lemma MapTwice<S, T, U>(f: S -> T, g: T -> U, h: S -> U, s: seq<S>)
    requires forall x :: x in s ==> g(f(x)) == h(x)
    ensures Map(g, Map(f, s)) == Map(h, s)
  {
  }

  /** The report of `shutdown` over a whole history: sorted by name, and it holds the own outcome of every spawned task
      once and nothing else. */
  lemma ReportComplete(log: seq<Event>)
    requires Proper(log) && Live(log) == map[]
    ensures Sortedness(ByName, SortBy(ByName, Outcomes(log)))
    ensures multiset(SortBy(ByName, Outcomes(log))) == multiset(Map(OwnOutcome(log), Positions(IsSpawn, log)))
  {
    BytesWeak();
    SortBySorts(ByName, Outcomes(log));
    SortByPermutes(ByName, Outcomes(log));
    OutcomesOwned(log);
  }

  lemma OutcomesOwned(log: seq<Event>)
    requires Proper(log) && Live(log) == map[]
    ensures multiset(Outcomes(log)) == multiset(Map(OwnOutcome(log), Positions(IsSpawn, log)))
  {
    var spawns, joins := Positions(IsSpawn, log), Positions(IsJoin, log);
    var joined, produced, own := JoinedAt(log), ProducedAt(log), OwnOutcome(log);
    OutcomesByJoin(log);
    SpawnsPaired(log);
    MapPermutes(produced, Map(joined, spawns), joins);
    PositionsExact(IsSpawn, log);
    forall q | q in spawns ensures produced(joined(q)) == own(q) { SpawnIsJoined(log, q); }
    MapTwice(joined, produced, own, spawns);
  }
}
