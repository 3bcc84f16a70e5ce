/** The admission gate: an open flag, an in-flight counter and a notifier, shared by any number of activities.

    Every atomic load, store, `fetch_add`, `fetch_sub` and `notify_waiters` is one step of one activity, and
    the steps of all activities interleave in any order (a sequentially consistent reading of the
    acquire/release operations).  An activity is one call of `open`, `close` or `wait_for_idle`, or one
    `try_enter` together with the life of the guard it returns.
 */
module AdmissionGate {

  const USIZE: nat := 0x1_0000_0000_0000_0000

  /** Atomic counters wrap around. */
  function Wrap(n: int): nat { n % USIZE }

  type Activity = nat

  /** Where an activity stands. */
  datatype Pc =
    | Idle
    | Entering                     // `try_enter`: first check passed
    | Entered                      // counter incremented, second check pending
    | Guarded                      // holds a guard
    | Leaving                      // in `leave`, before the decrement
    | LeaveNotifying               // decremented to zero, before `notify_waiters`
    | Closing                      // flag cleared, counter not yet read
    | CloseNotifying
    | WaitLoop                     // woken: back at the head of the loop in `wait_for_idle`
    | WaitSaw                      // read a nonzero counter
    | WaitRegistered(seen: nat)    // created the `Notified` future
    | Parked(seen: nat)            // awaits it
    | TimedOut

  /** `generation` counts the `notify_waiters` calls: a `Notified` future created at generation `g` is ready
      once the generation exceeds `g`.  `work` counts claims and dispatches by guarded workers. */
  datatype Gate = Gate(open: bool, inFlight: nat, generation: nat, pcs: map<Activity, Pc>, work: nat)

  datatype Action =
    | EnterCheck | Increment | EnterRecheck | Work | DropGuard | Decrement | Notify
    | OpenStore | CloseStore | CloseCheck
    | WaitCheck | WaitRegister | WaitRecheck | Wake | Timeout | TimeoutRead

  predicate Enabled(g: Gate, t: Activity, a: Action) {
    t in g.pcs &&
    match a
    case EnterCheck => g.pcs[t].Idle?
    case Increment => g.pcs[t].Entering?
    case EnterRecheck => g.pcs[t].Entered?
    case Work => g.pcs[t].Guarded?
    case DropGuard => g.pcs[t].Guarded?
    case Decrement => g.pcs[t].Leaving?
    case Notify => g.pcs[t].LeaveNotifying? || g.pcs[t].CloseNotifying?
    case OpenStore => g.pcs[t].Idle?
    case CloseStore => g.pcs[t].Idle?
    case CloseCheck => g.pcs[t].Closing?
    case WaitCheck => g.pcs[t].Idle? || g.pcs[t].WaitLoop?
    case WaitRegister => g.pcs[t].WaitSaw?
    case WaitRecheck => g.pcs[t].WaitRegistered?
    case Wake => g.pcs[t].Parked? && g.pcs[t].seen < g.generation
    case Timeout => g.pcs[t].Parked?
    case TimeoutRead => g.pcs[t].TimedOut?
  }

  function Goto(g: Gate, t: Activity, pc: Pc): Gate { g.(pcs := g.pcs[t := pc]) }

  function Do(g: Gate, t: Activity, a: Action): Gate
    requires Enabled(g, t, a)
  {
    match a
    case EnterCheck => Goto(g, t, if g.open then Entering else Idle)
    case Increment => Goto(g, t, Entered).(inFlight := Wrap(g.inFlight + 1))
    case EnterRecheck => Goto(g, t, if g.open then Guarded else Leaving)
    case Work => g.(work := g.work + 1)
    case DropGuard => Goto(g, t, Leaving)
    case Decrement =>
      Goto(g, t, if g.inFlight == 1 then LeaveNotifying else Idle).(inFlight := Wrap(g.inFlight - 1))
    case Notify => Goto(g, t, Idle).(generation := g.generation + 1)
    case OpenStore => g.(open := true)
    case CloseStore => Goto(g, t, Closing).(open := false)
    case CloseCheck => Goto(g, t, if g.inFlight == 0 then CloseNotifying else Idle)
    case WaitCheck => Goto(g, t, if g.inFlight == 0 then Idle else WaitSaw)
    case WaitRegister => Goto(g, t, WaitRegistered(g.generation))
    case WaitRecheck => Goto(g, t, if g.inFlight == 0 then Idle else Parked(g.pcs[t].seen))
    case Wake => Goto(g, t, WaitLoop)
    case Timeout => Goto(g, t, TimedOut)
    case TimeoutRead => Goto(g, t, Idle)
  }

  datatype Move = Move(activity: Activity, action: Action)

  ghost predicate IsRun(states: seq<Gate>, moves: seq<Move>) {
    && |states| == |moves| + 1
    && Initial(states[0])
    && forall i :: 0 <= i < |moves| ==>
         Enabled(states[i], moves[i].activity, moves[i].action)
         && states[i + 1] == Do(states[i], moves[i].activity, moves[i].action)
  }

  /** A fresh gate: closed, nothing in flight; fewer activities than the counter can hold. */
  predicate Initial(g: Gate) {
    && !g.open && g.inFlight == 0 && |g.pcs| < USIZE
    && forall t :: t in g.pcs ==> g.pcs[t] == Idle
  }

  // ---- invariants --------------------------------------------------------------------------------

  /** Counted activities: guards, and entrants between the increment and a possible leave. */
  function Counted(pcs: map<Activity, Pc>): set<Activity> {
    set t | t in pcs && (pcs[t].Entered? || pcs[t].Guarded? || pcs[t].Leaving?)
  }

  ghost predicate WakePending(g: Gate) { exists u :: u in g.pcs && g.pcs[u].LeaveNotifying? }

  /** A parked waiter that nobody has notified still has a reason to sleep, or a wakeup is on its way. */
  ghost predicate NotLost(g: Gate, pc: Pc) {
    && (pc.WaitRegistered? || pc.Parked? ==> pc.seen <= g.generation)
    && (pc.Parked? && pc.seen == g.generation && g.inFlight == 0 ==> WakePending(g))
  }

  ghost predicate Invariant(g: Gate) {
    && |g.pcs| < USIZE
    && g.inFlight == |Counted(g.pcs)|
    && forall t :: t in g.pcs ==> NotLost(g, g.pcs[t])
  }

  lemma CountedBound(pcs: map<Activity, Pc>)
    ensures |Counted(pcs)| <= |pcs|
  {
    SubsetSize(Counted(pcs), pcs.Keys);
  }

  lemma {:induction false} SubsetSize(a: set<Activity>, b: set<Activity>)
    requires a <= b
    ensures |a| <= |b|
  {
    if a != {} {
      var x :| x in a;
      SubsetSize(a - {x}, b - {x});
    }
  }

  /** How one move changes the set of counted activities. */
  lemma CountedStep(g: Gate, t: Activity, a: Action)
    requires Enabled(g, t, a)
    ensures Counted(Do(g, t, a).pcs)
         == (if a.Increment? then Counted(g.pcs) + {t} else if a.Decrement? then Counted(g.pcs) - {t} else Counted(g.pcs))
    ensures a.Increment? ==> t !in Counted(g.pcs)
    ensures a.Decrement? ==> t in Counted(g.pcs)
    ensures Do(g, t, a).pcs.Keys == g.pcs.Keys
  {
  }

  lemma DoInFlight(g: Gate, t: Activity, a: Action)
    requires Enabled(g, t, a)
    ensures Do(g, t, a).inFlight
         == (if a.Increment? then Wrap(g.inFlight + 1) else if a.Decrement? then Wrap(g.inFlight - 1) else g.inFlight)
  {
  }

  lemma CounterStep(g: Gate, t: Activity, a: Action)
    requires |g.pcs| < USIZE && g.inFlight == |Counted(g.pcs)| && Enabled(g, t, a)
    ensures var h := Do(g, t, a);
      && |h.pcs| < USIZE && h.inFlight == |Counted(h.pcs)|
      && (a.Increment? ==> h.inFlight == g.inFlight + 1)
      && (a.Decrement? ==> 1 <= g.inFlight && h.inFlight == g.inFlight - 1)
      && (!a.Increment? && !a.Decrement? ==> h.inFlight == g.inFlight)
  {
    CountedStep(g, t, a);
    DoInFlight(g, t, a);
    CountedBound(g.pcs);
    CountedBound(Do(g, t, a).pcs);
    CounterArithmetic(g.pcs, Do(g, t, a).pcs, t, g.inFlight);
  }

  lemma CounterArithmetic(before: map<Activity, Pc>, after: map<Activity, Pc>, t: Activity, n: nat)
    requires before.Keys == after.Keys && |before| < USIZE && n == |Counted(before)|
    requires |Counted(before)| <= |before| && |Counted(after)| <= |after|
    ensures |after| == |before|
    ensures t !in Counted(before) && Counted(after) == Counted(before) + {t} ==>
      Wrap(n + 1) == n + 1 == |Counted(after)|
    ensures t in Counted(before) && Counted(after) == Counted(before) - {t} ==>
      Wrap(n - 1) == n - 1 == |Counted(after)|
  {
    assert |after| == |after.Keys| == |before.Keys| == |before|;
    AddOne(Counted(before), t);
    WrapSmall(n + 1);
    WrapSmall(n - 1);
  }

  lemma AddOne(s: set<Activity>, t: Activity)
    ensures |s + {t}| == |s| + (if t in s then 0 else 1)
    ensures |s - {t}| == |s| - (if t in s then 1 else 0)
  {
    if t in s { assert s + {t} == s; } else { assert s - {t} == s; }
  }

  lemma WrapSmall(n: int)
    ensures 0 <= n < USIZE ==> Wrap(n) == n
  {
  }

  lemma WakeStep(g: Gate, t: Activity, a: Action, u: Activity)
    requires Invariant(g) && Enabled(g, t, a) && u in g.pcs
    ensures NotLost(Do(g, t, a), Do(g, t, a).pcs[u])
  {
    var h := Do(g, t, a);
    CounterStep(g, t, a);
    assert NotLost(g, g.pcs[u]) && NotLost(g, g.pcs[t]);
    var pc := h.pcs[u];
    if pc.Parked? && pc.seen == h.generation && h.inFlight == 0 {
      if a.Decrement? {
        assert h.pcs[t].LeaveNotifying?;
      } else {
        assert WakePending(g);
        var w :| w in g.pcs && g.pcs[w].LeaveNotifying?;
        assert h.pcs[w].LeaveNotifying?;
      }
    }
  }

  lemma StepKeepsInvariant(g: Gate, t: Activity, a: Action)
    requires Invariant(g) && Enabled(g, t, a)
    ensures Invariant(Do(g, t, a))
  {
    CounterStep(g, t, a);
    CountedStep(g, t, a);
    forall u | u in Do(g, t, a).pcs ensures NotLost(Do(g, t, a), Do(g, t, a).pcs[u]) {
      WakeStep(g, t, a, u);
    }
  }

  lemma {:induction false} RunInvariant(states: seq<Gate>, moves: seq<Move>, i: nat)
    requires IsRun(states, moves) && i < |states|
    ensures Invariant(states[i])
  {
    if i == 0 {
      assert Counted(states[0].pcs) == {};
    } else {
      RunInvariant(states, moves, i - 1);
      StepKeepsInvariant(states[i - 1], moves[i - 1].activity, moves[i - 1].action);
    }
  }

  // ---- the promises -------------------------------------------------------------------------------

  /** The counter is the number of live guards plus entrants that have been counted and not yet left, and no
      decrement finds it at zero. */
  lemma CounterExact(states: seq<Gate>, moves: seq<Move>, i: nat)
    requires IsRun(states, moves) && i < |states|
    ensures states[i].inFlight == |Counted(states[i].pcs)|
    ensures i < |moves| && moves[i].action.Decrement? ==> 1 <= states[i].inFlight
    ensures i < |moves| && moves[i].action.Increment? ==> states[i].inFlight + 1 < USIZE
  {
    RunInvariant(states, moves, i);
    if i < |moves| {
      CounterStep(states[i], moves[i].activity, moves[i].action);
      if moves[i].action.Increment? { CountedBound(states[i + 1].pcs); StepKeepsInvariant(states[i], moves[i].activity, moves[i].action); }
    }
  }

  /** No lost wakeup: while nothing is in flight, a parked waiter has been notified already, or an activity stands
      between its decrement to zero and its `notify_waiters`. */
  lemma NoLostWakeup(states: seq<Gate>, moves: seq<Move>, i: nat, t: Activity)
    requires IsRun(states, moves) && i < |states|
    requires t in states[i].pcs && states[i].pcs[t].Parked? && states[i].inFlight == 0
    ensures Enabled(states[i], t, Wake) || WakePending(states[i])
  {
    RunInvariant(states, moves, i);
    assert NotLost(states[i], states[i].pcs[t]);
  }

  /** Once every activity is idle or parked, every parked waiter can be woken: no waiter sleeps for ever. */
  lemma QuietWaitersWake(states: seq<Gate>, moves: seq<Move>, i: nat, t: Activity)
    requires IsRun(states, moves) && i < |states|
    requires forall u :: u in states[i].pcs ==> states[i].pcs[u].Idle? || states[i].pcs[u].Parked?
    requires t in states[i].pcs && states[i].pcs[t].Parked?
    ensures Enabled(states[i], t, Wake)
  {
    RunInvariant(states, moves, i);
    assert Counted(states[i].pcs) == {};
    NoLostWakeup(states, moves, i, t);
  }

  predicate Drained(g: Gate) {
    !g.open && forall t :: t in g.pcs ==> !g.pcs[t].Guarded?
  }

  ghost predicate NoOpen(moves: seq<Move>, from: nat) {
    forall i :: from <= i < |moves| ==> !moves[i].action.OpenStore?
  }

  lemma {:induction false} ClosedStaysClosed(states: seq<Gate>, moves: seq<Move>, c: nat, k: nat)
    requires IsRun(states, moves) && c < k < |states|
    requires moves[c].action.CloseStore? && NoOpen(moves, c)
    ensures !states[k].open
  {
    assert states[k] == Do(states[k - 1], moves[k - 1].activity, moves[k - 1].action);
    if c + 1 < k { ClosedStaysClosed(states, moves, c, k - 1); }
  }

  lemma {:induction false} DrainedStays(states: seq<Gate>, moves: seq<Move>, r: nat, k: nat)
    requires IsRun(states, moves) && r <= k < |states| && Drained(states[r]) && NoOpen(moves, r)
    ensures Drained(states[k]) && states[k].work == states[r].work
  {
    if r < k {
      DrainedStays(states, moves, r, k - 1);
      DrainedStep(states[k - 1], moves[k - 1].activity, moves[k - 1].action);
    }
  }

  lemma DrainedStep(g: Gate, t: Activity, a: Action)
    requires Drained(g) && Enabled(g, t, a) && !a.OpenStore?
    ensures Drained(Do(g, t, a)) && Do(g, t, a).work == g.work
  {
  }

  /** The move at `r` is a read of the counter in `wait_for_idle` that finds it zero: the call returns `Ok`. */
  predicate ReadsIdle(g: Gate, m: Move) {
    (m.action.WaitCheck? || m.action.WaitRecheck?) && g.inFlight == 0
  }

  /** After a close that no open follows, once a waiter has read zero no guard is live, then or later, and no
      guarded worker claims or dispatches again. */
  lemma DrainIsFinal(states: seq<Gate>, moves: seq<Move>, c: nat, r: nat, k: nat)
    requires IsRun(states, moves) && c < r < |moves| && r <= k < |states|
    requires moves[c].action.CloseStore? && NoOpen(moves, c)
    requires ReadsIdle(states[r], moves[r])
    ensures forall t :: t in states[k].pcs ==> !states[k].pcs[t].Guarded?
    ensures states[k].work == states[r].work
  {
    ClosedStaysClosed(states, moves, c, r);
    RunInvariant(states, moves, r);
    forall t | t in states[r].pcs ensures !states[r].pcs[t].Guarded? {
      assert t !in Counted(states[r].pcs);
    }
    DrainedStays(states, moves, r, k);
  }

  // ---- the condition is needed ------------------------------------------------------------------------

  /** A run and one more move. */
  lemma RunExtends(states: seq<Gate>, moves: seq<Move>, t: Activity, a: Action)
    requires IsRun(states, moves) && Enabled(states[|moves|], t, a)
    ensures IsRun(states + [Do(states[|moves|], t, a)], moves + [Move(t, a)])
  {
  }

  lemma RunPrefix(states: seq<Gate>, moves: seq<Move>, n: nat)
    requires IsRun(states, moves) && n <= |moves|
    ensures IsRun(states[..n + 1], moves[..n])
  {
  }

  /** One whole `try_enter`. */
  function Entry(t: Activity): seq<Move> { [Move(t, EnterCheck), Move(t, Increment), Move(t, EnterRecheck)] }

  /** The run up to its move `n`, followed by one `try_enter` that ends with a live guard. */
  ghost predicate Admitted(states: seq<Gate>, moves: seq<Move>, n: nat, t: Activity, states': seq<Gate>) {
    && n <= |moves| && n < |states| && IsRun(states', moves[..n] + Entry(t)) && states[..n + 1] <= states'
    && t in states'[n + 3].pcs && states'[n + 3].pcs[t].Guarded?
  }

  /** Through an open gate an idle activity comes to hold a guard. */
  lemma OpenGateAdmits(states: seq<Gate>, moves: seq<Move>, n: nat, t: Activity) returns (states': seq<Gate>)
    requires IsRun(states, moves) && n <= |moves|
    requires states[n].open && t in states[n].pcs && states[n].pcs[t].Idle?
    ensures Admitted(states, moves, n, t, states')
  {
    var g1 := Do(states[n], t, EnterCheck);
    var g2 := Do(g1, t, Increment);
    var g3 := Do(g2, t, EnterRecheck);
    var s, m := states[..n + 1], moves[..n];
    RunPrefix(states, moves, n);
    RunExtends(s, m, t, EnterCheck);
    RunExtends(s + [g1], m + [Move(t, EnterCheck)], t, Increment);
    RunExtends(s + [g1] + [g2], m + [Move(t, EnterCheck)] + [Move(t, Increment)], t, EnterRecheck);
    states' := s + [g1] + [g2] + [g3];
    assert m + [Move(t, EnterCheck)] + [Move(t, Increment)] + [Move(t, EnterRecheck)] == m + Entry(t);
  }

  /** Every open, after whatever close and whatever drained read, can be followed by a live guard: by the very activity
      that opened. */
  lemma ReopenedGateAdmits(states: seq<Gate>, moves: seq<Move>, o: nat) returns (states': seq<Gate>)
    requires IsRun(states, moves) && o < |moves| && moves[o].action.OpenStore?
    ensures Admitted(states, moves, o + 1, moves[o].activity, states')
  {
    assert states[o + 1] == Do(states[o], moves[o].activity, moves[o].action);
    states' := OpenGateAdmits(states, moves, o + 1, moves[o].activity);
  }

  /** After a close and a drained read, the drain is final exactly while nobody opens: some moment of the run can be
      followed by an admission if and only if the gate was opened again. */
  lemma DrainFinalExactly(states: seq<Gate>, moves: seq<Move>, c: nat, r: nat)
    requires IsRun(states, moves) && c < r < |moves| && moves[c].action.CloseStore? && ReadsIdle(states[r], moves[r])
    requires forall i :: c <= i <= r ==> !moves[i].action.OpenStore?
    ensures (exists n, t, states' :: r < n && Admitted(states, moves, n, t, states')) <==> !NoOpen(moves, c)
  {
    if !NoOpen(moves, c) {
      var o :| c <= o < |moves| && moves[o].action.OpenStore?;
      var states' := ReopenedGateAdmits(states, moves, o);
      assert r < o + 1;
    }
    if n, t, states' :| r < n && Admitted(states, moves, n, t, states') {
      if NoOpen(moves, c) { NoAdmission(states, moves, c, r, n, t, states'); }
    }
  }

  lemma NoAdmission(states: seq<Gate>, moves: seq<Move>, c: nat, r: nat, n: nat, t: Activity, states': seq<Gate>)
    requires c < r < n <= |moves| && n < |states| && moves[c].action.CloseStore? && ReadsIdle(states[r], moves[r])
    requires NoOpen(moves, c) && IsRun(states', moves[..n] + Entry(t)) && states[..n + 1] <= states'
    ensures t in states'[n + 3].pcs ==> !states'[n + 3].pcs[t].Guarded?
  {
    var moves' := moves[..n] + Entry(t);
    assert states'[r] == states[..n + 1][r] && moves'[c] == moves[c] && moves'[r] == moves[r];
    assert NoOpen(moves', c) by {
      forall i | c <= i < |moves'| ensures !moves'[i].action.OpenStore? {
        if i < n { assert moves'[i] == moves[i]; } else { assert moves'[i] == Entry(t)[i - n]; }
      }
    }
    DrainIsFinal(states', moves', c, r, n + 3);
  }
}
