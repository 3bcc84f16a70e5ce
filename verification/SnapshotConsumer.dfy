/** The fail-closed consumer of workload snapshots. */
module SnapshotConsumer {
  import opened Ordering
  import opened Encoding
  import opened Text
  import opened Snapshot
  import P = PolicyEncoding

  datatype Recovery = AnyCompleteValid | MatchingRetainedOrHigher | StrictlyHigherGeneration

  datatype Reason = Unusable | GenerationRegressed | DigestConflict

  datatype State =
    | Empty
    | Fresh(snapshot: Indexed, acceptedAt: int, freshUntil: int)
    | Stale(stale: Indexed)
    | Blocked(blocked: Option<Indexed>, reason: Reason, recovery: Recovery)

  /** `is_fresh`. */
  predicate IsFresh(s: State, now: int) { s.Fresh? && now < s.freshUntil }

  /** `expire`. */
  function Expired(s: State, now: int): State {
    if s.Fresh? && now >= s.freshUntil then Stale(s.snapshot) else s
  }

  /** `retained`. */
  function Retained(s: State): Option<Indexed> {
    match s
    case Empty => None
    case Fresh(x, _, _) => Some(x)
    case Stale(x) => Some(x)
    case Blocked(r, _, _) => r
  }

  function RecoveryOf(s: State): Option<Recovery> { if s.Blocked? then Some(s.recovery) else None }

  /** The ways through `consume`; `Unmatched` is its second silent return. */
  datatype Verdict = Rejected | Regressed | Conflict | Held | Unmatched | Accepted

  function Judge(retained: Option<Indexed>, recovery: Option<Recovery>, candidate: Option<Indexed>): Verdict {
    if candidate.None? then Rejected
    else if retained.None? then Accepted
    else
      var c, o := IdentityOf(candidate.value), IdentityOf(retained.value);
      if c.generation < o.generation then Regressed
      else if c.generation == o.generation && c != o then Conflict
      else if recovery == Some(StrictlyHigherGeneration) && c.generation <= o.generation then Held
      else if recovery == Some(MatchingRetainedOrHigher) && c.generation == o.generation && c != o then Unmatched
      else Accepted
  }

  /** The time for which an accepted snapshot counts as fresh. */
  function Budget(x: Indexed, wall: int): int {
    var until := match Duration(x.wire.validUntil) case None => 0 case Some(d) => d;
    var left := if until < wall then 0 else until - wall;
    if VALIDITY < left then VALIDITY else left
  }

  /** `consume`, for what the input decodes to; `None` stands for a transport error, a fence mismatch or invalid bytes. */
  function Consumed(state: State, candidate: Option<Indexed>, wall: int, now: int): State {
    var s := Expired(state, now);
    var retained, recovery := Retained(s), RecoveryOf(s);
    match Judge(retained, recovery, candidate)
    case Rejected =>
      Blocked(retained, Unusable,
              if recovery.Some? then recovery.value else if retained.Some? then MatchingRetainedOrHigher else AnyCompleteValid)
    case Regressed => Blocked(retained, GenerationRegressed, MatchingRetainedOrHigher)
    case Conflict => Blocked(retained, DigestConflict, StrictlyHigherGeneration)
    case Held => s
    case Unmatched => s
    case Accepted => Fresh(candidate.value, now, now + Budget(candidate.value, wall))
  }

  class Consumer {
    var state: State

    constructor ()
      ensures state == Empty
    {
      state := Empty;
    }

    method Expire(now: int)
      modifies this
      ensures state == Expired(old(state), now)
    {
      if state.Fresh? && now >= state.freshUntil {
        state := Stale(state.snapshot);
      }
    }

    /** `consume`: `raw` is `None` on a transport error. */
    method Consume(c: Codec, domain: Bytes, sha: Bytes -> Hash, enrollment: Enrollment -> bool, raw: Option<Bytes>,
                   cluster: Bytes, k: Projection, wall: int, now: int, fence: bool)
      modifies this
      ensures state == Consumed(old(state),
                                if raw.Some? && fence then Decoded(c, domain, sha, enrollment, raw.value, cluster, k, wall)
                                else None, wall, now)
    {
      Expire(now);
      var retained := Retained(state);
      var recovery := RecoveryOf(state);
      var candidate: Option<Indexed> := None;
      if raw.Some? && fence { candidate := DecodeSnapshot(c, domain, sha, enrollment, raw.value, cluster, k, wall); }
      if candidate.None? {
        var next := if recovery.Some? then recovery.value
                    else if retained.Some? then MatchingRetainedOrHigher else AnyCompleteValid;
        state := Blocked(retained, Unusable, next);
        return;
      }
      var cid := IdentityOf(candidate.value);
      if retained.Some? {
        var oid := IdentityOf(retained.value);
        if cid.generation < oid.generation {
          state := Blocked(retained, GenerationRegressed, MatchingRetainedOrHigher);
          return;
        }
        if cid.generation == oid.generation && cid != oid {
          state := Blocked(retained, DigestConflict, StrictlyHigherGeneration);
          return;
        }
        if recovery == Some(StrictlyHigherGeneration) && cid.generation <= oid.generation { return; }
        if recovery == Some(MatchingRetainedOrHigher) && cid.generation == oid.generation && cid != oid { return; }
      }
      state := Fresh(candidate.value, now, now + Budget(candidate.value, wall));
    }
  }

  // ---- runs --------------------------------------------------------------------------------------------------

  datatype Event = Consume(candidate: Option<Indexed>, wall: int, now: int) | Expire(now: int)

  function Step(s: State, e: Event): State {
    match e
    case Consume(candidate, wall, now) => Consumed(s, candidate, wall, now)
    case Expire(now) => Expired(s, now)
  }

  function Run(s: State, events: seq<Event>): State
    decreases |events|
  {
    if events == [] then s else Run(Step(s, events[0]), events[1..])
  }

  /** The second silent return is never taken: a differing identity of the same generation is a conflict before it. */
  lemma SecondSilentReturnUnreachable(retained: Option<Indexed>, recovery: Option<Recovery>, candidate: Option<Indexed>)
    ensures Judge(retained, recovery, candidate) != Unmatched
  {
  }

  /** Exactly when an input is accepted. */
  predicate Acceptable(retained: Option<Indexed>, recovery: Option<Recovery>, candidate: Option<Indexed>) {
    && candidate.Some?
    && (retained.None?
        || candidate.value.wire.generation > retained.value.wire.generation
        || (IdentityOf(candidate.value) == IdentityOf(retained.value) && recovery != Some(StrictlyHigherGeneration)))
  }

  /** An input leaves the state fresh exactly when it is accepted; every other input leaves it not fresh. */
  lemma FreshExactlyWhenAccepted(s: State, candidate: Option<Indexed>, wall: int, now: int)
    ensures Consumed(s, candidate, wall, now).Fresh?
       <==> Acceptable(Retained(Expired(s, now)), RecoveryOf(Expired(s, now)), candidate)
    ensures Consumed(s, candidate, wall, now).Fresh? ==> Consumed(s, candidate, wall, now).snapshot == candidate.value
    ensures !Consumed(s, candidate, wall, now).Fresh? ==> forall later :: !IsFresh(Consumed(s, candidate, wall, now), later)
  {
  }

  // ---- what every run keeps -----------------------------------------------------------------------------------

  /** A later state keeps what an earlier one retained, at the same or a higher generation. */
  predicate Keeps(before: State, after: State) {
    Retained(before).Some? ==>
      && Retained(after).Some?
      && Retained(before).value.wire.generation <= Retained(after).value.wire.generation
      && (Retained(before).value.wire.generation == Retained(after).value.wire.generation ==>
            IdentityOf(Retained(before).value) == IdentityOf(Retained(after).value))
  }

  lemma StepKeeps(s: State, e: Event)
    ensures Keeps(s, Step(s, e))
  {
  }

  lemma {:induction false} RunKeeps(s: State, events: seq<Event>)
    ensures Keeps(s, Run(s, events))
    decreases |events|
  {
    if events != [] {
      StepKeeps(s, events[0]);
      RunKeeps(Step(s, events[0]), events[1..]);
    }
  }

  lemma {:induction false} RunAppend(s: State, a: seq<Event>, b: seq<Event>)
    ensures Run(s, a + b) == Run(Run(s, a), b)
    decreases |a|
  {
    if a == [] {
      assert a + b == b;
    } else {
      assert (a + b)[1..] == a[1..] + b;
      RunAppend(Step(s, a[0]), a[1..], b);
    }
  }

  /** Between any two moments of a run a retained snapshot is not lost, its generation does not decrease, and within
      one generation its identity does not change. */
  lemma RetainedNeverLost(events: seq<Event>, i: nat, j: nat)
    requires i <= j <= |events|
    ensures Keeps(Run(Empty, events[..i]), Run(Empty, events[..j]))
  {
    RunAppend(Empty, events[..i], events[i..j]);
    assert events[..j] == events[..i] + events[i..j];
    RunKeeps(Run(Empty, events[..i]), events[i..j]);
  }

  /** Blocked without a snapshot is the same as blocked until any complete valid one. */
  predicate BlockedProperly(s: State) { s.Blocked? ==> (s.blocked.None? <==> s.recovery == AnyCompleteValid) }

  lemma {:induction false} RunBlocksProperly(s: State, events: seq<Event>)
    requires BlockedProperly(s)
    ensures BlockedProperly(Run(s, events))
    decreases |events|
  {
    if events != [] { RunBlocksProperly(Step(s, events[0]), events[1..]); }
  }

  // ---- what a consumer is fed ----------------------------------------------------------------------------------

  /** What a consumer expects: the codec, the digest, its own cluster and projection. */
  datatype Site = Site(codec: Codec, domain: Bytes, sha: Bytes -> Hash, enrollment: Enrollment -> bool, cluster: Bytes,
                       kind: Projection)

  /** One poll with what the manager answered, if it did, or one look at the clock. */
  datatype Input = Poll(raw: Option<Bytes>, fence: bool, wall: int, now: int) | Tick(now: int)

  ghost function EventOf(site: Site, i: Input): Event {
    match i
    case Tick(now) => Expire(now)
    case Poll(raw, fence, wall, now) =>
      Consume(if raw.Some? && fence
              then Decoded(site.codec, site.domain, site.sha, site.enrollment, raw.value, site.cluster, site.kind, wall)
              else None, wall, now)
  }

  ghost function EventsOf(site: Site, inputs: seq<Input>): (events: seq<Event>)
    ensures |events| == |inputs| && forall i :: 0 <= i < |inputs| ==> events[i] == EventOf(site, inputs[i])
  {
    seq(|inputs|, i requires 0 <= i < |inputs| => EventOf(site, inputs[i]))
  }

  /** The state after the first `n` inputs. */
  ghost function After(site: Site, inputs: seq<Input>, n: nat): State
    requires n <= |inputs|
  {
    Run(Empty, EventsOf(site, inputs)[..n])
  }

  // ---- the admitted set ---------------------------------------------------------------------------------------

  /** What decoding guarantees: the index is the index of the wire form, and the digest is its digest. */
  ghost predicate Genuine(domain: Bytes, sha: Bytes -> Hash, x: Indexed) {
    x == IndexOf(x.wire) && ProjectionDigest(domain, sha, x.wire) == Some(x.wire.projectionDigest)
  }

  lemma DecodedIsGenuine(c: Codec, domain: Bytes, sha: Bytes -> Hash, enrollment: Enrollment -> bool, raw: Bytes,
                         cluster: Bytes, k: Projection, wall: int)
    requires Decoded(c, domain, sha, enrollment, raw, cluster, k, wall).Some?
    ensures var x := Decoded(c, domain, sha, enrollment, raw, cluster, k, wall).value;
      Genuine(domain, sha, x) && TimesOk(x.wire, wall)
  {
  }

  ghost predicate AllGenuine(domain: Bytes, sha: Bytes -> Hash, events: seq<Event>) {
    forall i :: 0 <= i < |events| && events[i].Consume? && events[i].candidate.Some? ==>
      Genuine(domain, sha, events[i].candidate.value)
  }

  lemma InputsGenuine(site: Site, inputs: seq<Input>, n: nat)
    requires n <= |inputs|
    ensures AllGenuine(site.domain, site.sha, EventsOf(site, inputs)[..n])
  {
    var events := EventsOf(site, inputs);
    forall i | 0 <= i < n && events[i].Consume? && events[i].candidate.Some?
      ensures Genuine(site.domain, site.sha, events[i].candidate.value)
    {
      DecodedIsGenuine(site.codec, site.domain, site.sha, site.enrollment, inputs[i].raw.value, site.cluster, site.kind,
                       inputs[i].wall);
    }
  }

  /** What holds of every candidate holds of what is retained. */
  lemma {:induction false} RetainedKeeps(good: Indexed -> bool, s: State, events: seq<Event>)
    requires Retained(s).Some? ==> good(Retained(s).value)
    requires forall i :: 0 <= i < |events| && events[i].Consume? && events[i].candidate.Some? ==> good(events[i].candidate.value)
    ensures Retained(Run(s, events)).Some? ==> good(Retained(Run(s, events)).value)
    decreases |events|
  {
    if events != [] {
      assert Retained(Step(s, events[0])) == Retained(s)
        || (events[0].Consume? && Retained(Step(s, events[0])) == events[0].candidate);
      RetainedKeeps(good, Step(s, events[0]), events[1..]);
    }
  }

  lemma RetainedGenuine(domain: Bytes, sha: Bytes -> Hash, s: State, events: seq<Event>)
    requires AllGenuine(domain, sha, events) && (Retained(s).Some? ==> Genuine(domain, sha, Retained(s).value))
    ensures Retained(Run(s, events)).Some? ==> Genuine(domain, sha, Retained(Run(s, events)).value)
  {
    RetainedKeeps(x => Genuine(domain, sha, x), s, events);
  }

  /** What a snapshot's projection digest hashes. */
  function HashedText(domain: Bytes, x: Indexed): Bytes { if Fits(x.wire) then ProjectionBytes(domain, x.wire) else [] }

  lemma SameIdentitySameAdmissions(domain: Bytes, sha: Bytes -> Hash, x: Indexed, y: Indexed, principal: Bytes, leaf: Bytes)
    requires Genuine(domain, sha, x) && Genuine(domain, sha, y) && IdentityOf(x) == IdentityOf(y)
    ensures (Admits(x, principal, leaf) <==> Admits(y, principal, leaf))
         || Collide(sha, HashedText(domain, x), HashedText(domain, y))
  {
    SameDigest(sha, HashedText(domain, x), HashedText(domain, y));
    if HashedText(domain, x) == HashedText(domain, y) { ProjectionDetermines(domain, x.wire, y.wire); }
  }

  /** For whatever a consumer is fed, the admitted set depends on the retained generation only, unless the two retained
      snapshots' hashed texts are a collision of the hash. */
  lemma AdmissionsFixedPerGeneration(site: Site, inputs: seq<Input>, i: nat, j: nat, principal: Bytes, leaf: Bytes)
    requires i <= j <= |inputs|
    requires Retained(After(site, inputs, i)).Some? && Retained(After(site, inputs, j)).Some?
    requires Retained(After(site, inputs, i)).value.wire.generation == Retained(After(site, inputs, j)).value.wire.generation
    ensures var x, y := Retained(After(site, inputs, i)).value, Retained(After(site, inputs, j)).value;
      || (Admits(x, principal, leaf) <==> Admits(y, principal, leaf))
      || Collide(site.sha, HashedText(site.domain, x), HashedText(site.domain, y))
  {
    var events := EventsOf(site, inputs);
    RetainedNeverLost(events, i, j);
    InputsGenuine(site, inputs, i);
    InputsGenuine(site, inputs, j);
    RetainedGenuine(site.domain, site.sha, Empty, events[..i]);
    RetainedGenuine(site.domain, site.sha, Empty, events[..j]);
    SameIdentitySameAdmissions(site.domain, site.sha, Retained(After(site, inputs, i)).value,
                               Retained(After(site, inputs, j)).value, principal, leaf);
  }

  // ---- after a conflict ---------------------------------------------------------------------------------------

  /** No input of the run is a valid snapshot of the given generations. */
  predicate NoneBelow(events: seq<Event>, generation: nat) {
    forall i :: 0 <= i < |events| && events[i].Consume? && events[i].candidate.Some? ==>
      events[i].candidate.value.wire.generation >= generation
  }

  predicate NoneAbove(events: seq<Event>, generation: nat) {
    forall i :: 0 <= i < |events| && events[i].Consume? && events[i].candidate.Some? ==>
      events[i].candidate.value.wire.generation <= generation
  }

  predicate Brings(e: Event, generation: nat) {
    e.Consume? && e.candidate.Some? && e.candidate.value.wire.generation > generation
  }

  predicate Conflicted(s: State, retained: Indexed) {
    s.Blocked? && s.blocked == Some(retained) && s.recovery == StrictlyHigherGeneration
  }

  /** Without a valid snapshot of a lower or a higher generation a conflict stands, whatever else arrives. */
  lemma {:induction false} ConflictStands(s: State, retained: Indexed, events: seq<Event>)
    requires Conflicted(s, retained)
    requires NoneBelow(events, retained.wire.generation) && NoneAbove(events, retained.wire.generation)
    ensures Conflicted(Run(s, events), retained)
    decreases |events|
  {
    if events != [] { ConflictStands(Step(s, events[0]), retained, events[1..]); }
  }

  /** So the first fresh state after a conflict, in a run without a lower generation, holds a strictly higher one. */
  lemma {:induction false} ConflictNeedsHigher(s: State, retained: Indexed, events: seq<Event>)
    requires Conflicted(s, retained) && NoneBelow(events, retained.wire.generation)
    requires Run(s, events).Fresh?
    ensures exists i :: 0 <= i < |events| && Brings(events[i], retained.wire.generation)
    ensures Run(s, events).snapshot.wire.generation > retained.wire.generation
    decreases |events|
  {
    if !exists i :: 0 <= i < |events| && Brings(events[i], retained.wire.generation) {
      assert NoneAbove(events, retained.wire.generation) by {
        assert forall i :: 0 <= i < |events| ==> !Brings(events[i], retained.wire.generation);
      }
      ConflictStands(s, retained, events);
    }
    FreshIsHigher(s, retained, events);
  }

  lemma {:induction false} FreshIsHigher(s: State, retained: Indexed, events: seq<Event>)
    requires Conflicted(s, retained) && NoneBelow(events, retained.wire.generation) && Run(s, events).Fresh?
    ensures Run(s, events).snapshot.wire.generation > retained.wire.generation
    decreases |events|
  {
    if events != [] {
      var next := Step(s, events[0]);
      if Conflicted(next, retained) {
        FreshIsHigher(next, retained, events[1..]);
      } else {
        RunKeeps(next, events[1..]);
      }
    }
  }

  /** A valid snapshot of a lower generation is the exception: it forgets the conflict, and the retained snapshot is
      fresh again although no higher generation ever came. */
  lemma {:induction false} LowerGenerationForgetsConflict(a: Indexed, conflicting: Indexed, lower: Indexed, wall: int, now: int, until: int)
    requires conflicting.wire.generation == a.wire.generation && IdentityOf(conflicting) != IdentityOf(a)
    requires lower.wire.generation < a.wire.generation
    ensures var conflict := Consume(Some(conflicting), wall, now);
      && Conflicted(Run(Fresh(a, now, until), [conflict]), a)
      && Run(Fresh(a, now, until), [conflict, Consume(Some(lower), wall, now), Consume(Some(a), wall, now)])
         == Fresh(a, now, now + Budget(a, wall))
  {
    var s := Fresh(a, now, until);
    var e1, e2, e3 := Consume(Some(conflicting), wall, now), Consume(Some(lower), wall, now), Consume(Some(a), wall, now);
    var s1 := Step(s, e1);
    var s2 := Step(s1, e2);
    var s3 := Step(s2, e3);
    assert [e1, e2, e3][1..] == [e2, e3] && [e2, e3][1..] == [e3] && [e3][1..] == [] && [e1][1..] == [];
    assert Run(s, [e1]) == Run(s1, []) == s1;
    assert Run(s2, [e3]) == Run(s3, []) == s3;
    assert Run(s, [e1, e2, e3]) == Run(s1, [e2, e3]) == Run(s2, [e3]);
  }

  lemma ForgottenRun(events: seq<Event>, a: Indexed, conflicting: Indexed, lower: Indexed, wall: int, now: int)
    requires |events| == 4 && events[0] == Consume(Some(a), wall, now) == events[3]
    requires events[1] == Consume(Some(conflicting), wall, now) && events[2] == Consume(Some(lower), wall, now)
    requires conflicting.wire.generation == a.wire.generation && IdentityOf(conflicting) != IdentityOf(a)
    requires lower.wire.generation < a.wire.generation
    ensures Run(Empty, events[..1]) == Fresh(a, now, now + Budget(a, wall)) == Run(Empty, events[..4])
    ensures Conflicted(Run(Empty, events[..2]), a)
  {
    var e0, e1, e2 := events[0], events[1], events[2];
    assert events[..1] == [e0] + [] && events[..2] == [e0] + [e1] && events[..4] == [e0] + [e1, e2, e0];
    RunFirst(Empty, e0, []);
    RunFirst(Empty, e0, [e1]);
    RunFirst(Empty, e0, [e1, e2, e0]);
    LowerGenerationForgetsConflict(a, conflicting, lower, wall, now, now + Budget(a, wall));
  }

  /** The same for a consumer that is fed four answers, of which the last is the first again. */
  lemma PolledConflictForgotten(site: Site, inputs: seq<Input>, a: Indexed, conflicting: Indexed, lower: Indexed, wall: int,
                                now: int)
    requires |inputs| == 4 && EventOf(site, inputs[0]) == Consume(Some(a), wall, now) == EventOf(site, inputs[3])
    requires EventOf(site, inputs[1]) == Consume(Some(conflicting), wall, now)
    requires EventOf(site, inputs[2]) == Consume(Some(lower), wall, now)
    requires conflicting.wire.generation == a.wire.generation && IdentityOf(conflicting) != IdentityOf(a)
    requires lower.wire.generation < a.wire.generation
    ensures After(site, inputs, 1) == Fresh(a, now, now + Budget(a, wall)) == After(site, inputs, 4)
    ensures Conflicted(After(site, inputs, 2), a)
  {
    ForgottenRun(EventsOf(site, inputs), a, conflicting, lower, wall, now);
  }

  lemma RunFirst(s: State, e: Event, events: seq<Event>)
    ensures Run(s, [e] + events) == Run(Step(s, e), events)
  {
    assert ([e] + events)[1..] == events;
  }

  // ---- exactly when a conflict is forgotten -------------------------------------------------------------------

  predicate Lower(e: Event, r: Indexed) {
    e.Consume? && e.candidate.Some? && e.candidate.value.wire.generation < r.wire.generation
  }

  predicate Same(e: Event, r: Indexed) { e.Consume? && e.candidate.Some? && IdentityOf(e.candidate.value) == IdentityOf(r) }

  predicate Conflicting(e: Event, r: Indexed) {
    && e.Consume? && e.candidate.Some? && e.candidate.value.wire.generation == r.wire.generation
    && IdentityOf(e.candidate.value) != IdentityOf(r)
  }

  /** A lower generation at `i`, the retained identity at `j`, and no new conflict in between. */
  predicate Forgiving(events: seq<Event>, r: Indexed, i: nat, j: nat) {
    && i < j < |events| && Lower(events[i], r) && Same(events[j], r)
    && forall k :: i < k < j ==> !Conflicting(events[k], r)
  }

  /** What the inputs so far have done to a conflict. */
  datatype Memory = Standing | Forgotten | Over

  function Remembered(events: seq<Event>, r: Indexed): Memory {
    if events == [] then Standing
    else
      var m, e := Remembered(events[..|events| - 1], r), events[|events| - 1];
      if m == Over then Over
      else if Conflicting(e, r) then Standing
      else if Lower(e, r) then Forgotten
      else if Same(e, r) && m == Forgotten then Over
      else m
  }

  /** While it is not over, the state is blocked on the same snapshot, by the predicate that the memory names. */
  predicate BlockedAs(s: State, r: Indexed, m: Memory) {
    && s.Blocked? && s.blocked == Some(r)
    && s.recovery == (if m == Standing then StrictlyHigherGeneration else MatchingRetainedOrHigher)
  }

  lemma RunLast(s: State, events: seq<Event>)
    requires events != []
    ensures Run(s, events) == Step(Run(s, events[..|events| - 1]), events[|events| - 1])
  {
    var front, last := events[..|events| - 1], [events[|events| - 1]];
    assert events == front + last && last[1..] == [];
    RunAppend(s, front, last);
    assert Run(Run(s, front), last) == Run(Step(Run(s, front), last[0]), []);
  }

  lemma {:induction false} MemoryExact(s: State, r: Indexed, events: seq<Event>)
    requires Conflicted(s, r) && NoneAbove(events, r.wire.generation)
    ensures Remembered(events, r) != Over ==> BlockedAs(Run(s, events), r, Remembered(events, r))
    ensures Remembered(events, r) == Over ==> exists n :: 0 <= n <= |events| && Run(s, events[..n]).Fresh?
    decreases |events|
  {
    if events != [] {
      var front, e := events[..|events| - 1], events[|events| - 1];
      MemoryExact(s, r, front);
      RunLast(s, events);
      if Remembered(front, r) == Over {
        var n :| 0 <= n <= |front| && Run(s, front[..n]).Fresh?;
        assert front[..n] == events[..n];
      } else if Remembered(events, r) == Over {
        assert Step(Run(s, front), e).Fresh?;
        assert events[..|events|] == events;
      }
    }
  }

  lemma {:induction false} MemoryKept(r: Indexed, events: seq<Event>, n: nat)
    requires n <= |events| && Remembered(events[..n], r) == Over
    ensures Remembered(events, r) == Over
    decreases |events|
  {
    if n < |events| {
      var front := events[..|events| - 1];
      assert front[..n] == events[..n];
      MemoryKept(r, front, n);
    } else {
      assert events[..n] == events;
    }
  }

  /** The last lower generation, while no conflict has come since. */
  lemma {:induction false} SinceLower(r: Indexed, events: seq<Event>) returns (i: nat)
    requires Remembered(events, r) == Forgotten
    ensures i < |events| && Lower(events[i], r) && forall k :: i < k < |events| ==> !Conflicting(events[k], r)
    decreases |events|
  {
    var front, e := events[..|events| - 1], events[|events| - 1];
    if Lower(e, r) {
      i := |events| - 1;
    } else {
      i := SinceLower(r, front);
      assert front[i] == events[i];
      forall k | i < k < |events| ensures !Conflicting(events[k], r) {
        if k < |front| { assert front[k] == events[k]; }
      }
    }
  }

  lemma {:induction false} OverForgives(r: Indexed, events: seq<Event>) returns (i: nat, j: nat)
    requires Remembered(events, r) == Over
    ensures Forgiving(events, r, i, j)
    decreases |events|
  {
    var front := events[..|events| - 1];
    if Remembered(front, r) == Over {
      i, j := OverForgives(r, front);
      assert forall k :: 0 <= k < |front| ==> front[k] == events[k];
    } else {
      i := SinceLower(r, front);
      j := |events| - 1;
      assert forall k :: 0 <= k < |front| ==> front[k] == events[k];
    }
  }

  lemma {:induction false} ForgottenUntil(r: Indexed, events: seq<Event>, i: nat, n: nat)
    requires i < n <= |events| && Lower(events[i], r) && forall k :: i < k < n ==> !Conflicting(events[k], r)
    ensures Remembered(events[..n], r) != Standing
    decreases n
  {
    var prefix := events[..n];
    assert prefix[..n - 1] == events[..n - 1] && prefix[n - 1] == events[n - 1];
    if i < n - 1 { ForgottenUntil(r, events, i, n - 1); }
  }

  lemma ForgivingEnds(r: Indexed, events: seq<Event>, i: nat, j: nat)
    requires Forgiving(events, r, i, j)
    ensures Remembered(events, r) == Over
  {
    ForgottenUntil(r, events, i, j);
    var prefix := events[..j + 1];
    assert prefix[..j] == events[..j] && prefix[j] == events[j];
    MemoryKept(r, events, j + 1);
  }

  /** In a run without a higher generation, something becomes fresh after a conflict if and only if a valid snapshot of a
      lower generation is followed by the retained one with no new conflict in between. */
  lemma ConflictForgottenExactly(s: State, r: Indexed, events: seq<Event>)
    requires Conflicted(s, r) && NoneAbove(events, r.wire.generation)
    ensures (exists n :: 0 <= n <= |events| && Run(s, events[..n]).Fresh?)
       <==> (exists i: nat, j: nat :: Forgiving(events, r, i, j))
  {
    if n :| 0 <= n <= |events| && Run(s, events[..n]).Fresh? {
      MemoryExact(s, r, events[..n]);
      MemoryKept(r, events, n);
      var i, j := OverForgives(r, events);
    }
    if i: nat, j: nat :| Forgiving(events, r, i, j) {
      ForgivingEnds(r, events, i, j);
      MemoryExact(s, r, events);
    }
  }

  // ---- freshness ----------------------------------------------------------------------------------------------

  /** The budget is positive and at most the validity, and ends no later than the snapshot does. */
  lemma BudgetBound(x: Indexed, wall: int)
    requires TimesOk(x.wire, wall)
    ensures 0 < Budget(x, wall) <= VALIDITY
    ensures wall + Budget(x, wall) <= Duration(x.wire.validUntil).value
  {
  }

  /** Fresh only while valid, on clocks that are `offset` apart. */
  ghost predicate FreshWhileValid(s: State, offset: int) {
    s.Fresh? ==>
      && Duration(s.snapshot.wire.validUntil).Some?
      && s.acceptedAt < s.freshUntil <= s.acceptedAt + VALIDITY
      && s.freshUntil + offset <= Duration(s.snapshot.wire.validUntil).value
  }

  /** Wall and monotonic clock advance equally, and every candidate was decoded at its wall time. */
  ghost predicate ClocksAgree(events: seq<Event>, offset: int) {
    forall i :: 0 <= i < |events| && events[i].Consume? ==>
      && events[i].wall == events[i].now + offset
      && (events[i].candidate.Some? ==> TimesOk(events[i].candidate.value.wire, events[i].wall))
  }

  lemma {:induction false} RunFreshWhileValid(s: State, events: seq<Event>, offset: int)
    requires FreshWhileValid(s, offset) && ClocksAgree(events, offset)
    ensures FreshWhileValid(Run(s, events), offset)
    decreases |events|
  {
    if events != [] {
      var e := events[0];
      if e.Consume? && e.candidate.Some? { BudgetBound(e.candidate.value, e.wall); }
      RunFreshWhileValid(Step(s, e), events[1..], offset);
    }
  }

  lemma InputsOnTime(site: Site, inputs: seq<Input>, offset: int)
    requires forall i :: 0 <= i < |inputs| && inputs[i].Poll? ==> inputs[i].wall == inputs[i].now + offset
    ensures ClocksAgree(EventsOf(site, inputs), offset)
  {
    var events := EventsOf(site, inputs);
    forall i | 0 <= i < |events| && events[i].Consume? && events[i].candidate.Some?
      ensures TimesOk(events[i].candidate.value.wire, events[i].wall)
    {
      DecodedIsGenuine(site.codec, site.domain, site.sha, site.enrollment, inputs[i].raw.value, site.cluster, site.kind,
                       inputs[i].wall);
    }
  }

  /** If the wall clock and the monotonic clock advance equally, then whenever the state counts as fresh the wall time
      is before the end of the snapshot, whatever the consumer was fed and whatever the issuer's skew. */
  lemma FreshMeansValid(site: Site, inputs: seq<Input>, offset: int, now: int)
    requires forall i :: 0 <= i < |inputs| && inputs[i].Poll? ==> inputs[i].wall == inputs[i].now + offset
    requires IsFresh(After(site, inputs, |inputs|), now)
    ensures Duration(After(site, inputs, |inputs|).snapshot.wire.validUntil).Some?
    ensures now + offset < Duration(After(site, inputs, |inputs|).snapshot.wire.validUntil).value
  {
    var events := EventsOf(site, inputs);
    assert events[..|inputs|] == events;
    InputsOnTime(site, inputs, offset);
    RunFreshWhileValid(Empty, events, offset);
  }
}
