/**
 The edge admission protocol: rate-limited preparation, delayed commits against the shared replay cache,
 and the capacity rule that ties the two together.

 Time is in nanoseconds since the limiter was created, so its window is time / 10^9; the wall clock runs
 at the same rate from any offset and is read in whole seconds.
 */
module Admission {
  import opened Prelude
  import opened ReplayCache
  import opened SingleUse
  import RateLimiter

  const NANOS := 1_000_000_000
  const TIME_RANGE := RateLimiter.WINDOW_RANGE * NANOS

  // ---------- configuration ----------

  datatype Door = Door(rate: nat, capacity: nat, verifier: Verifier)

  function RetentionSecs(v: Verifier): nat {
    Saturated(Saturated(v.maxLifetime + Saturated(2 * v.clockSkew)) + 1)
  }

  function WithPath(v: Verifier): Door {
    Door(256, 131072, v)
  }

  function WithReplayCapacity(d: Door, capacity: nat): Option<Door> {
    if capacity < Saturated(d.rate * RetentionSecs(d.verifier)) then None
    else if capacity == 0 || capacity > 1_000_000 then None
    else Some(d.(capacity := capacity))
  }

  function WithMaxVerificationsPerSecond(d: Door, rate: nat): Option<Door> {
    if d.capacity < Saturated(rate * RetentionSecs(d.verifier)) then None
    else if rate == 0 || rate > RateLimiter.MAX_RATE then None
    else Some(d.(rate := rate))
  }

  /** The part of the limits check that concerns admission. */
  predicate LimitsValid(rate: nat, capacity: nat, v: Verifier) {
    1 <= capacity <= 1_000_000 && 1 <= rate <= 100_000 && 1 <= v.maxLifetime <= 3600 && v.clockSkew <= 300
    && capacity >= Saturated(rate * RetentionSecs(v))
  }

  /** The capacity covers everything the limiter can let in during one retention window. */
  ghost predicate Covers(d: Door) {
    1 <= d.rate <= RateLimiter.MAX_RATE && 1 <= d.capacity <= 1_000_000
    && d.rate * (d.verifier.maxLifetime + 2 * d.verifier.clockSkew + 1) <= d.capacity
  }

  lemma AtLeastOnce(rate: nat, r: nat)
    requires rate >= 1
    ensures rate * r >= r
  {
    assert rate * r == (rate - 1) * r + r;
    assert (rate - 1) * r >= 0;
  }

  /** The check with its saturating arithmetic is the exact inequality. */
  lemma CheckExactlyWhen(rate: nat, capacity: nat, v: Verifier)
    requires rate >= 1 && capacity <= 1_000_000
    ensures capacity >= Saturated(rate * RetentionSecs(v))
       <==> rate * (v.maxLifetime + 2 * v.clockSkew + 1) <= capacity
  {
    var exact := v.maxLifetime + 2 * v.clockSkew + 1;
    AtLeastOnce(rate, RetentionSecs(v));
    AtLeastOnce(rate, exact);
    if exact <= U64_MAX {
      assert RetentionSecs(v) == exact;
    }
  }

  /**
   The two builders and the limits check accept exactly the values in range that satisfy the inequality, and a
   builder changes nothing but its own value.
   */
  lemma BuildersExactlyWhen(d: Door, n: nat)
    requires d.rate >= 1 && d.capacity <= 1_000_000
    ensures WithReplayCapacity(d, n)
         == if 1 <= n <= 1_000_000
               && d.rate * (d.verifier.maxLifetime + 2 * d.verifier.clockSkew + 1) <= n
            then Some(d.(capacity := n)) else None
    ensures WithMaxVerificationsPerSecond(d, n)
         == if 1 <= n <= RateLimiter.MAX_RATE
               && n * (d.verifier.maxLifetime + 2 * d.verifier.clockSkew + 1) <= d.capacity
            then Some(d.(rate := n)) else None
    ensures LimitsValid(d.rate, d.capacity, d.verifier)
       <==> && 1 <= d.rate <= 100_000 && 1 <= d.capacity <= 1_000_000
            && 1 <= d.verifier.maxLifetime <= 3600 && d.verifier.clockSkew <= 300
            && d.rate * (d.verifier.maxLifetime + 2 * d.verifier.clockSkew + 1) <= d.capacity
  {
    if 1 <= n <= 1_000_000 {
      CheckExactlyWhen(d.rate, n, d.verifier);
      CheckExactlyWhen(n, d.capacity, d.verifier);
    }
    CheckExactlyWhen(d.rate, d.capacity, d.verifier);
  }

  // ---------- the protocol ----------

  /** A call that passed the limiter, and what verification made of its token. */
  datatype Admitted = Admitted(time: nat, outcome: Option<Verified>)

  /**
   owner, attempts and accepted are history: which call put a nonce in the cache, the capabilities presented
   to the cache with the clock readings, and those accepted.
   */
  datatype State = State(
    time: nat, word: u64, calls: seq<Admitted>, done: set<nat>,
    entries: Entries, owner: map<Nonce, nat>, attempts: seq<Attempt>, accepted: seq<Verified>)

  datatype Event =
    | Prepare(after: nat, token: Token)
    | Commit(after: nat, call: nat)

  const INITIAL := State(0, 0, [], {}, map[], map[], [], [])

  function Wall(offset: int, time: nat): int {
    (time + offset) / NANOS
  }

  /** `prepare` reads a clock before the epoch as 0. */
  function PrepareNow(offset: int, time: nat): nat {
    if Wall(offset, time) < 0 then 0 else Wall(offset, time)
  }

  predicate Pending(s: State, call: nat) {
    call < |s.calls| && call !in s.done && s.calls[call].outcome.Some?
  }

  function PrepareStep(d: Door, offset: int, s: State, token: Token): State {
    match RateLimiter.Proposal(d.rate, s.time / NANOS, s.word)
    case None => s
    case Some(word) =>
      var outcome := match VerifyForReplay(d.verifier, token, PrepareNow(offset, s.time))
                     case Ok(v) => Some(v)
                     case Err(_) => None;
      s.(word := word, calls := s.calls + [Admitted(s.time, outcome)])
  }

  function CommitResult(d: Door, offset: int, s: State, call: nat): (Entries, Result<Claims, CapabilityError>)
    requires Pending(s, call)
  {
    if Wall(offset, s.time) < 0 then (s.entries, Err(Malformed))
    else Consumed(d.capacity, s.entries, s.calls[call].outcome.value, Wall(offset, s.time))
  }

  function CommitStep(d: Door, offset: int, s: State, call: nat): State {
    if !Pending(s, call) then s
    else
      var (entries, r) := CommitResult(d, offset, s, call);
      var v := s.calls[call].outcome.value;
      var now := Wall(offset, s.time);
      var n := s.(done := s.done + {call}, entries := entries,
                  attempts := if now < 0 then s.attempts else s.attempts + [Attempt(v, now)]);
      if r.Ok? then n.(owner := n.owner[v.claims.nonce := call], accepted := n.accepted + [v]) else n
  }

  function Later(s: State, after: nat): State {
    s.(time := s.time + after)
  }

  function Step(d: Door, offset: int, s: State, e: Event): State {
    match e
    case Prepare(after, token) => PrepareStep(d, offset, Later(s, after), token)
    case Commit(after, call) => CommitStep(d, offset, Later(s, after), call)
  }

  function Run(d: Door, offset: int, events: seq<Event>): State {
    if events == [] then INITIAL
    else Step(d, offset, Run(d, offset, events[..|events| - 1]), events[|events| - 1])
  }

  // ---------- single use ----------

  /** The history is that of a cache under nondecreasing readings, and every capability comes from its claims. */
  ghost predicate History(d: Door, offset: int, s: State) {
    && s.entries == EntriesAfter(d.capacity, s.attempts)
    && s.accepted == AcceptedList(d.capacity, s.attempts)
    && Nondecreasing(s.attempts)
    && (forall i :: 0 <= i < |s.attempts| ==>
          FromClaims(d.verifier, s.attempts[i].capability) && s.attempts[i].now <= Wall(offset, s.time))
    && (forall i :: 0 <= i < |s.calls| && s.calls[i].outcome.Some? ==> FromClaims(d.verifier, s.calls[i].outcome.value))
  }

  lemma {:induction false} CommitKeepsHistory(d: Door, offset: int, s: State, call: nat)
    requires History(d, offset, s)
    ensures History(d, offset, CommitStep(d, offset, s, call))
  {
    if Pending(s, call) && Wall(offset, s.time) >= 0 {
      var a := Attempt(s.calls[call].outcome.value, Wall(offset, s.time));
      CommitAttempts(d, offset, s, call, a);
      HistoryGrows(d, offset, s, CommitStep(d, offset, s, call), a);
    } else {
      CommitIdles(d, offset, s, call);
    }
  }

  /** A commit that reads the clock presents its capability to the cache, and nothing else. */
  lemma {:induction false} CommitAttempts(d: Door, offset: int, s: State, call: nat, a: Attempt)
    requires Pending(s, call) && Wall(offset, s.time) >= 0
    requires a == Attempt(s.calls[call].outcome.value, Wall(offset, s.time))
    ensures Presents(d, s, CommitStep(d, offset, s, call), a)
  {
  }

  ghost predicate Presents(d: Door, s: State, n: State, a: Attempt) {
    var (entries, r) := Consumed(d.capacity, s.entries, a.capability, a.now);
    && n.entries == entries && n.attempts == s.attempts + [a] && n.calls == s.calls && n.time == s.time
    && n.accepted == s.accepted + if r.Ok? then [a.capability] else []
  }

  lemma {:induction false} CommitIdles(d: Door, offset: int, s: State, call: nat)
    requires !Pending(s, call) || Wall(offset, s.time) < 0
    ensures var n := CommitStep(d, offset, s, call);
            && n.entries == s.entries && n.attempts == s.attempts && n.accepted == s.accepted
            && n.calls == s.calls && n.time == s.time
  {
  }

  lemma {:induction false} HistoryGrows(d: Door, offset: int, s: State, n: State, a: Attempt)
    requires History(d, offset, s) && Presents(d, s, n, a)
    requires a.now == Wall(offset, s.time) && FromClaims(d.verifier, a.capability)
    ensures History(d, offset, n)
  {
    OneMore(d.capacity, s.attempts, a);
  }

  lemma LaterKeepsHistory(d: Door, offset: int, s: State, s': State)
    requires History(d, offset, s) && s' == s.(time := s'.time) && s.time <= s'.time
    ensures History(d, offset, s')
  {
    assert Wall(offset, s.time) <= Wall(offset, s'.time);
  }

  lemma PrepareKeepsHistory(d: Door, offset: int, s: State, token: Token)
    requires History(d, offset, s)
    ensures History(d, offset, PrepareStep(d, offset, s, token))
  {
  }

  lemma StepKeepsHistory(d: Door, offset: int, s: State, e: Event)
    requires History(d, offset, s)
    ensures History(d, offset, Step(d, offset, s, e))
  {
    var s' := Later(s, e.after);
    LaterKeepsHistory(d, offset, s, s');
    match e
    case Prepare(_, token) => PrepareKeepsHistory(d, offset, s', token);
    case Commit(_, call) => CommitKeepsHistory(d, offset, s', call);
  }

  lemma {:induction false} RunKeepsHistory(d: Door, offset: int, events: seq<Event>)
    ensures History(d, offset, Run(d, offset, events))
  {
    if events != [] {
      var n := |events| - 1;
      RunKeepsHistory(d, offset, events[..n]);
      StepKeepsHistory(d, offset, Run(d, offset, events[..n]), events[n]);
    }
  }

  /** For every interleaving of prepares and delayed commits, the same claims are never accepted twice. */
  lemma {:induction false} AdmittedOnce(d: Door, offset: int, events: seq<Event>, a: nat, b: nat)
    requires a < b < |Run(d, offset, events).accepted|
    ensures Run(d, offset, events).accepted[a].claims != Run(d, offset, events).accepted[b].claims
  {
    RunKeepsHistory(d, offset, events);
    var attempts := Run(d, offset, events).attempts;
    WithoutPeak(d.verifier, d.capacity, attempts);
    ListUsedOnce(d.capacity, attempts, a, b);
  }

  // ---------- which tokens get through ----------

  /** The claims are addressed to this door, not too long-lived, and valid at `now` up to the clock skew. */
  ghost predicate Eligible(v: Verifier, claims: Claims, now: nat) {
    && claims.audience == v.audience
    && claims.issuedAt < claims.expiresAt <= claims.issuedAt + v.maxLifetime
    && claims.issuedAt <= now + v.clockSkew && now < claims.expiresAt + v.clockSkew
  }

  /** Every verified call had eligible claims when it was prepared, and every acceptance was a verified call's. */
  ghost predicate Screened(d: Door, offset: int, s: State) {
    && (forall i :: 0 <= i < |s.calls| && s.calls[i].outcome.Some? ==>
          Eligible(d.verifier, s.calls[i].outcome.value.claims, PrepareNow(offset, s.calls[i].time)))
    && (forall a :: 0 <= a < |s.accepted| ==> Presented(s, s.accepted[a]))
  }

  ghost predicate Presented(s: State, v: Verified) {
    exists i :: 0 <= i < |s.calls| && s.calls[i].outcome == Some(v)
  }

  lemma PrepareScreens(d: Door, offset: int, s: State, token: Token)
    requires Screened(d, offset, s)
    ensures Screened(d, offset, PrepareStep(d, offset, s, token))
  {
    var n := PrepareStep(d, offset, s, token);
    forall a | 0 <= a < |n.accepted|
      ensures Presented(n, n.accepted[a])
    {
      assert Presented(s, s.accepted[a]);
      var i :| 0 <= i < |s.calls| && s.calls[i].outcome == Some(s.accepted[a]);
      assert n.calls[i] == s.calls[i];
    }
  }

  lemma CommitScreens(d: Door, offset: int, s: State, call: nat)
    requires Screened(d, offset, s)
    ensures Screened(d, offset, CommitStep(d, offset, s, call))
  {
    var n := CommitStep(d, offset, s, call);
    assert n.calls == s.calls;
    forall a | 0 <= a < |n.accepted|
      ensures Presented(n, n.accepted[a])
    {
      if a < |s.accepted| {
        assert Presented(s, s.accepted[a]);
      } else {
        assert n.calls[call].outcome == Some(n.accepted[a]);
      }
    }
  }

  /**
   In every run, whatever was verified or accepted carries claims that were eligible when its call was
   prepared: addressed to this door, within the permitted lifetime, and valid then.
   */
  lemma {:induction false} OnlyEligible(d: Door, offset: int, events: seq<Event>)
    ensures Screened(d, offset, Run(d, offset, events))
  {
    if events != [] {
      var n := |events| - 1;
      OnlyEligible(d, offset, events[..n]);
      var s := Later(Run(d, offset, events[..n]), events[n].after);
      LaterScreens(d, offset, Run(d, offset, events[..n]), events[n].after);
      match events[n]
      case Prepare(_, token) => PrepareScreens(d, offset, s, token);
      case Commit(_, call) => CommitScreens(d, offset, s, call);
    }
  }

  lemma LaterScreens(d: Door, offset: int, s: State, after: nat)
    requires Screened(d, offset, s)
    ensures Screened(d, offset, Later(s, after))
  {
    forall a | 0 <= a < |s.accepted|
      ensures Presented(Later(s, after), s.accepted[a])
    {
      assert Presented(s, s.accepted[a]);
    }
  }

  /**
   What a preparation at `time` makes of the calls so far: nothing new if the limiter's window is used up, and
   otherwise one more call, verified exactly if the token is signed and its claims are eligible, and then
   pending with those claims.
   */
  ghost predicate AddsCall(d: Door, offset: int, calls: seq<Admitted>, time: nat, token: Token, n: State) {
    if RateLimiter.AdmittedIn(Windows(calls), time / NANOS) >= d.rate then n.calls == calls
    else
      && |n.calls| == |calls| + 1 && n.calls[..|calls|] == calls && n.calls[|calls|].time == time
      && var outcome := n.calls[|calls|].outcome;
      && (outcome.Some? <==> token.Signed? && Eligible(d.verifier, token.claims, PrepareNow(offset, time)))
      && (outcome.Some? ==> outcome.value.claims == token.claims && Pending(n, |calls|))
  }

  lemma {:induction false} PreparedExactlyWhen(d: Door, offset: int, events: seq<Event>, after: nat, token: Token)
    requires 1 <= d.rate <= RateLimiter.MAX_RATE
    requires Run(d, offset, events).time + after < TIME_RANGE
    requires token.Signed? ==> token.claims.issuedAt <= U64_MAX
    ensures var s := Run(d, offset, events);
            AddsCall(d, offset, s.calls, s.time + after, token, Run(d, offset, events + [Prepare(after, token)]))
  {
    RunAppend(d, offset, events, Prepare(after, token));
    ReadyToPrepare(d, offset, events, after);
    PrepareAdds(d, offset, Later(Run(d, offset, events), after), token);
  }

  /** The limiter's word refuses exactly when the window of the present time has admitted its limit. */
  ghost predicate Ready(d: Door, s: State) {
    && (RateLimiter.Proposal(d.rate, s.time / NANOS, s.word).Some?
        <==> RateLimiter.AdmittedIn(Windows(s.calls), s.time / NANOS) < d.rate)
    && |s.calls| !in s.done
  }

  lemma {:induction false} ReadyToPrepare(d: Door, offset: int, events: seq<Event>, after: nat)
    requires 1 <= d.rate <= RateLimiter.MAX_RATE && Run(d, offset, events).time + after < TIME_RANGE
    ensures Ready(d, Later(Run(d, offset, events), after))
  {
    RunKeepsInv(d, offset, events);
    DoneAreCalls(d, offset, events);
    NotPast(d, offset, Run(d, offset, events), Run(d, offset, events).time + after);
  }

  lemma PrepareAdds(d: Door, offset: int, s: State, token: Token)
    requires Ready(d, s)
    requires token.Signed? ==> token.claims.issuedAt <= U64_MAX
    ensures AddsCall(d, offset, s.calls, s.time, token, PrepareStep(d, offset, s, token))
  {
    if token.Signed? {
      EligibleVerifies(d.verifier, token.claims, PrepareNow(offset, s.time));
    }
  }

  lemma EligibleVerifies(v: Verifier, claims: Claims, now: nat)
    requires claims.issuedAt <= U64_MAX
    ensures VerifyForReplay(v, Signed(claims), now).Ok? <==> Eligible(v, claims, now)
    ensures VerifyForReplay(v, Signed(claims), now).Ok? ==>
              VerifyForReplay(v, Signed(claims), now).value.claims == claims
  {
  }

  /** Time does not run back, so the packed window is never ahead of the clock. */
  lemma NotPast(d: Door, offset: int, s: State, time: nat)
    requires Inv(d, offset, s) && s.time <= time
    ensures RateLimiter.WindowOf(s.word) <= time / NANOS
  {
    var w := RateLimiter.WindowOf(s.word);
    if w > time / NANOS {
      forall i | 0 <= i < |s.calls|
        ensures Windows(s.calls)[i] < w
      {
        assert CallInv(d, offset, s, i);
      }
      NoneAdmitted(Windows(s.calls), w);
    }
  }

  lemma {:induction false} NoneAdmitted(admitted: seq<nat>, w: nat)
    requires forall i :: 0 <= i < |admitted| ==> admitted[i] < w
    ensures RateLimiter.AdmittedIn(admitted, w) == 0
  {
    if admitted != [] {
      NoneAdmitted(admitted[..|admitted| - 1], w);
    }
  }

  lemma {:induction false} DoneAreCalls(d: Door, offset: int, events: seq<Event>)
    ensures forall c :: c in Run(d, offset, events).done ==> c < |Run(d, offset, events).calls|
  {
    if events != [] {
      DoneAreCalls(d, offset, events[..|events| - 1]);
    }
  }

  // ---------- the capacity rule ----------

  function Windows(calls: seq<Admitted>): seq<nat> {
    seq(|calls|, i requires 0 <= i < |calls| => calls[i].time / NANOS)
  }

  ghost predicate CallInv(d: Door, offset: int, s: State, i: nat)
    requires i < |s.calls|
  {
    s.calls[i].time <= s.time
    && (s.calls[i].outcome.Some? ==>
          s.calls[i].outcome.value.replayExpiresAt
          <= PrepareNow(offset, s.calls[i].time) + d.verifier.maxLifetime + 2 * d.verifier.clockSkew)
  }

  /** The cached nonce n was put there by a call that is done with, with that call's expiry. */
  ghost predicate OwnerInv(s: State, n: Nonce)
    requires n in s.entries
  {
    n in s.owner && s.owner[n] in s.done && s.owner[n] < |s.calls|
    && s.calls[s.owner[n]].outcome.Some?
    && s.calls[s.owner[n]].outcome.value.claims.nonce == n
    && s.calls[s.owner[n]].outcome.value.replayExpiresAt == s.entries[n]
  }

  ghost predicate Inv(d: Door, offset: int, s: State) {
    && RateLimiter.Inv(d.rate, RateLimiter.State(s.word, map[], Windows(s.calls)))
    && (forall i :: 0 <= i < |s.calls| ==> CallInv(d, offset, s, i))
    && (forall n :: n in s.entries ==> OwnerInv(s, n))
  }

  lemma PrepareKeepsInv(d: Door, offset: int, s: State, token: Token)
    requires 1 <= d.rate <= RateLimiter.MAX_RATE && Inv(d, offset, s) && s.time < TIME_RANGE
    ensures Inv(d, offset, PrepareStep(d, offset, s, token))
  {
    var n := PrepareStep(d, offset, s, token);
    if n != s {
      var window := s.time / NANOS;
      var before := RateLimiter.State(s.word, map[], Windows(s.calls));
      var after := RateLimiter.State(n.word, map[], Windows(n.calls));
      assert after.admitted == before.admitted + [window];
      RateLimiter.Packing(d.rate, window, s.word);
      RateLimiter.Admission(before, window, after);
      forall i | 0 <= i < |n.calls|
        ensures CallInv(d, offset, n, i)
      {
        assert i < |s.calls| ==> CallInv(d, offset, s, i) && n.calls[i] == s.calls[i];
      }
      forall m | m in n.entries
        ensures OwnerInv(n, m)
      {
        assert OwnerInv(s, m);
      }
    }
  }

  /** What a commit leaves in the cache was there before, or is its own. */
  lemma {:induction false} CommitLeaves(d: Door, offset: int, s: State, call: nat, m: Nonce)
    requires m in CommitStep(d, offset, s, call).entries
    ensures var n := CommitStep(d, offset, s, call);
            || (m in s.entries && n.entries[m] == s.entries[m]
                && (m in s.owner ==> m in n.owner && n.owner[m] == s.owner[m]))
            || (&& Pending(s, call) && n.done == s.done + {call} && m in n.owner && n.owner[m] == call
                && m == s.calls[call].outcome.value.claims.nonce
                && n.entries[m] == s.calls[call].outcome.value.replayExpiresAt)
  {
  }

  lemma {:induction false} CommitKeepsInv(d: Door, offset: int, s: State, call: nat)
    requires Inv(d, offset, s)
    ensures Inv(d, offset, CommitStep(d, offset, s, call))
  {
    var n := CommitStep(d, offset, s, call);
    assert n.calls == s.calls && n.time == s.time && n.word == s.word && s.done <= n.done;
    forall i | 0 <= i < |n.calls|
      ensures CallInv(d, offset, n, i)
    {
      assert CallInv(d, offset, s, i);
    }
    forall m | m in n.entries
      ensures OwnerInv(n, m)
    {
      CommitLeaves(d, offset, s, call, m);
      assert m in s.entries ==> OwnerInv(s, m);
    }
  }

  lemma {:induction false} RunKeepsInv(d: Door, offset: int, events: seq<Event>)
    requires 1 <= d.rate <= RateLimiter.MAX_RATE && Run(d, offset, events).time < TIME_RANGE
    ensures Inv(d, offset, Run(d, offset, events))
  {
    if events == [] {
      assert Windows(INITIAL.calls) == [];
    } else {
      var n := |events| - 1;
      RunKeepsInv(d, offset, events[..n]);
      StepKeepsInv(d, offset, Run(d, offset, events[..n]), events[n]);
    }
  }

  lemma StepKeepsInv(d: Door, offset: int, s: State, e: Event)
    requires 1 <= d.rate <= RateLimiter.MAX_RATE && Inv(d, offset, s)
    requires Step(d, offset, s, e).time < TIME_RANGE
    ensures Inv(d, offset, Step(d, offset, s, e))
  {
    var s' := Later(s, e.after);
    LaterKeepsInv(d, offset, s, s');
    match e
    case Prepare(_, token) => PrepareKeepsInv(d, offset, s', token);
    case Commit(_, call) => CommitKeepsInv(d, offset, s', call);
  }

  lemma LaterKeepsInv(d: Door, offset: int, s: State, s': State)
    requires Inv(d, offset, s) && s' == s.(time := s'.time) && s.time <= s'.time
    ensures Inv(d, offset, s')
  {
    forall i | 0 <= i < |s.calls|
      ensures CallInv(d, offset, s', i)
    {
      assert CallInv(d, offset, s, i);
    }
    forall m | m in s.entries
      ensures OwnerInv(s', m)
    {
      assert OwnerInv(s, m);
    }
  }

  /** The calls admitted in the m windows from lo on. */
  ghost function InWindows(admitted: seq<nat>, lo: int, m: nat): set<nat> {
    set i | 0 <= i < |admitted| && lo <= admitted[i] < lo + m
  }

  lemma {:induction false} OneWindow(admitted: seq<nat>, w: int)
    ensures |InWindows(admitted, w, 1)| == if w < 0 then 0 else RateLimiter.AdmittedIn(admitted, w)
  {
    if admitted == [] {
      assert InWindows(admitted, w, 1) == {};
    } else {
      var n := |admitted| - 1;
      OneWindow(admitted[..n], w);
      var before := InWindows(admitted[..n], w, 1);
      if admitted[n] == w {
        assert InWindows(admitted, w, 1) == before + {n};
      } else {
        assert InWindows(admitted, w, 1) == before;
      }
    }
  }

  lemma {:induction false} ManyWindows(admitted: seq<nat>, lo: int, m: nat, limit: nat)
    requires forall w :: RateLimiter.AdmittedIn(admitted, w) <= limit
    ensures |InWindows(admitted, lo, m)| <= limit * m
  {
    if m == 0 {
      assert InWindows(admitted, lo, m) == {};
    } else {
      ManyWindows(admitted, lo, m - 1, limit);
      OneWindow(admitted, lo + m - 1);
      var a, b := InWindows(admitted, lo, m - 1), InWindows(admitted, lo + m - 1, 1);
      assert InWindows(admitted, lo, m) == a + b;
      assert |a + b| <= |a| + |b|;
      assert limit * m == limit * (m - 1) + limit;
    }
  }

  /** Seconds from a preparation to the latest expiry it can produce. */
  function Span(v: Verifier): nat {
    v.maxLifetime + 2 * v.clockSkew
  }

  /**
   The most limiter windows whose admissions can be live together. The second boundaries of the two clocks
   need not line up, which costs one more window; before the epoch every preparation reads the clock as 0,
   which costs all the windows up to there.
   */
  function Budget(v: Verifier, offset: int): nat {
    if offset < 0 then Span(v) + (-offset - 1) / NANOS + 1
    else if offset % NANOS == 0 then Span(v)
    else Span(v) + 1
  }

  /** The condition under which the cache never fills up. */
  predicate Enough(d: Door, offset: int) {
    d.rate * Budget(d.verifier, offset) <= d.capacity
  }

  /** The first window whose admissions can be live at wall second `now`. */
  function FirstLiveWindow(v: Verifier, offset: int, now: int): int {
    if offset < 0 && now < Span(v) then 0
    else ((now - Span(v) + 1) * NANOS - offset) / NANOS
  }

  lemma LiveWindows(v: Verifier, offset: int, time: nat, earlier: nat)
    requires earlier <= time && 0 <= Wall(offset, time) < PrepareNow(offset, earlier) + Span(v)
    ensures var lo := FirstLiveWindow(v, offset, Wall(offset, time));
            lo <= earlier / NANOS < lo + Budget(v, offset)
  {
  }

  lemma {:induction false} Injection(keys: set<Nonce>, owner: map<Nonce, nat>, target: set<nat>)
    requires forall n :: n in keys ==> n in owner && owner[n] in target
    requires forall m, n :: m in keys && n in keys && m != n ==> owner[m] != owner[n]
    ensures |keys| <= |target|
  {
    if keys != {} {
      var n :| n in keys;
      Injection(keys - {n}, owner, target - {owner[n]});
    }
  }

  /** When a verified capability reaches its commit, the live entries leave room for it. */
  lemma RoomAtCommit(d: Door, offset: int, s: State, call: nat)
    requires Enough(d, offset) && Inv(d, offset, s) && Pending(s, call)
    requires 0 <= Wall(offset, s.time) < s.calls[call].outcome.value.replayExpiresAt
    requires s.calls[call].outcome.value.claims.nonce !in Live(s.entries, Wall(offset, s.time))
    ensures |Live(s.entries, Wall(offset, s.time))| < d.capacity
  {
    var now := Wall(offset, s.time);
    var lo, budget := FirstLiveWindow(d.verifier, offset, now), Budget(d.verifier, offset);
    var target := InWindows(Windows(s.calls), lo, budget);
    CallInTarget(d, offset, s, call);
    var keys := Live(s.entries, now).Keys;
    forall n | n in keys
      ensures n in s.owner && s.owner[n] in target - {call}
    {
      assert OwnerInv(s, n);
      CallInTarget(d, offset, s, s.owner[n]);
    }
    forall m, n | m in keys && n in keys && m != n
      ensures s.owner[m] != s.owner[n]
    {
      assert OwnerInv(s, m) && OwnerInv(s, n);
    }
    Injection(keys, s.owner, target - {call});
    ManyWindows(Windows(s.calls), lo, budget, d.rate);
  }

  /** A call whose capability is still live was admitted in one of the budgeted windows. */
  lemma CallInTarget(d: Door, offset: int, s: State, call: nat)
    requires Inv(d, offset, s) && call < |s.calls| && s.calls[call].outcome.Some?
    requires 0 <= Wall(offset, s.time) < s.calls[call].outcome.value.replayExpiresAt
    ensures call in InWindows(Windows(s.calls), FirstLiveWindow(d.verifier, offset, Wall(offset, s.time)),
                              Budget(d.verifier, offset))
  {
    assert CallInv(d, offset, s, call);
    LiveWindows(d.verifier, offset, s.time, s.calls[call].time);
  }

  /** What a commit answers when the cache has no capacity limit: `Replay` means the nonce is still live. */
  function Unlimited(v: Verified, entries: Entries, now: int): Result<Claims, CapabilityError> {
    if now < 0 then Err(Malformed)
    else if now < v.validFrom then Err(NotYetValid)
    else if v.replayExpiresAt <= now then Err(Expired)
    else if v.claims.nonce in Live(entries, now) then Err(Replay)
    else Ok(v.claims)
  }

  lemma AnswersUnlimited(d: Door, offset: int, s: State, call: nat)
    requires Enough(d, offset) && Inv(d, offset, s) && Pending(s, call)
    ensures CommitResult(d, offset, s, call).1
         == Unlimited(s.calls[call].outcome.value, s.entries, Wall(offset, s.time))
  {
    var v, now := s.calls[call].outcome.value, Wall(offset, s.time);
    if 0 <= now < v.replayExpiresAt && v.claims.nonce !in Live(s.entries, now) {
      RoomAtCommit(d, offset, s, call);
    }
  }

  /**
   The capacity theorem: with a capacity that passed the check and a wall clock after the epoch, a commit
   after any run answers as a cache without a capacity limit would.
   */
  lemma {:induction false} ReplayOnlyForLiveNonces(d: Door, offset: int, events: seq<Event>, call: nat)
    requires Covers(d) && offset >= 0
    requires Run(d, offset, events).time < TIME_RANGE && Pending(Run(d, offset, events), call)
    ensures var s := Run(d, offset, events);
            CommitResult(d, offset, s, call).1
            == Unlimited(s.calls[call].outcome.value, s.entries, Wall(offset, s.time))
  {
    CoversIsEnough(d, offset);
    RunKeepsInv(d, offset, events);
    AnswersUnlimited(d, offset, Run(d, offset, events), call);
  }

  lemma CoversIsEnough(d: Door, offset: int)
    requires Covers(d) && offset >= 0
    ensures Enough(d, offset)
  {
    MoreTimes(d.rate, Budget(d.verifier, offset), Span(d.verifier) + 1);
  }

  lemma MoreTimes(rate: nat, a: nat, b: nat)
    requires a <= b
    ensures rate * a <= rate * b
  {
    assert rate * b == rate * a + rate * (b - a);
  }

  /** Over whole runs, raising a sufficient capacity further changes nothing. */
  lemma {:induction false} MoreCapacityChangesNothing(d: Door, offset: int, events: seq<Event>, more: nat)
    requires 1 <= d.rate <= RateLimiter.MAX_RATE && Enough(d, offset) && d.capacity <= more
    requires Run(d, offset, events).time < TIME_RANGE
    ensures Run(d.(capacity := more), offset, events) == Run(d, offset, events)
  {
    if events != [] {
      var n := |events| - 1;
      MoreCapacityChangesNothing(d, offset, events[..n], more);
      RunKeepsInv(d, offset, events[..n]);
      SameStep(d, offset, Run(d, offset, events[..n]), events[n], more);
    }
  }

  lemma SameStep(d: Door, offset: int, s: State, e: Event, more: nat)
    requires Enough(d, offset) && d.capacity <= more && Inv(d, offset, s)
    ensures Step(d.(capacity := more), offset, s, e) == Step(d, offset, s, e)
  {
    var s' := Later(s, e.after);
    if e.Commit? {
      LaterKeepsInv(d, offset, s, s');
      SameCommit(d, offset, s', e.call, more);
    } else {
      assert PrepareStep(d.(capacity := more), offset, s', e.token) == PrepareStep(d, offset, s', e.token);
    }
  }

  lemma SameCommit(d: Door, offset: int, s: State, call: nat, more: nat)
    requires Enough(d, offset) && d.capacity <= more && Inv(d, offset, s)
    ensures CommitStep(d.(capacity := more), offset, s, call) == CommitStep(d, offset, s, call)
  {
    if Pending(s, call) {
      var v, now := s.calls[call].outcome.value, Wall(offset, s.time);
      if 0 <= now < v.replayExpiresAt && v.claims.nonce !in Live(s.entries, now) {
        RoomAtCommit(d, offset, s, call);
      }
      if 0 <= now {
        SameConsumed(d.capacity, more, s.entries, v, now);
      }
      assert CommitResult(d.(capacity := more), offset, s, call) == CommitResult(d, offset, s, call);
    }
  }

  /** Capacity plays no part in a commit that finds room. */
  lemma SameConsumed(capacity: nat, more: nat, entries: Entries, v: Verified, now: nat)
    requires capacity <= more
    requires now < v.replayExpiresAt && v.claims.nonce !in Live(entries, now) ==> |Live(entries, now)| < capacity
    ensures Consumed(more, entries, v, now) == Consumed(capacity, entries, v, now)
  {
  }

  // ---------- exactly when the cache can fill up ----------

  /** In no run does a commit answer otherwise than a cache without a capacity limit. */
  ghost predicate NeverFull(d: Door, offset: int) {
    forall events, call: nat | Run(d, offset, events).time < TIME_RANGE && Pending(Run(d, offset, events), call) ::
      CommitResult(d, offset, Run(d, offset, events), call).1
      == Unlimited(Run(d, offset, events).calls[call].outcome.value, Run(d, offset, events).entries,
                   Wall(offset, Run(d, offset, events).time))
  }

  /** A door its constructors can build, with clocks that a signed 64-bit second count can hold. */
  predicate InDomain(d: Door, offset: int) {
    && 1 <= d.rate <= RateLimiter.MAX_RATE && 1 <= d.capacity <= 1_000_000
    && 1 <= d.verifier.maxLifetime && Span(d.verifier) < 0x400_0000_0000
    && -0x400_0000_0000 * NANOS < offset < 0x7FFF_FFFF_FFFF_FFFF * NANOS
  }

  /**
   The budget is exact: the cache never refuses a fresh nonce in any run if and only if the capacity is at
   least the rate times the budget.
   */
  lemma CapacityExactlyWhen(d: Door, offset: int)
    requires InDomain(d, offset)
    ensures NeverFull(d, offset) <==> Enough(d, offset)
  {
    if Enough(d, offset) {
      forall events, call: nat | Run(d, offset, events).time < TIME_RANGE && Pending(Run(d, offset, events), call)
        ensures CommitResult(d, offset, Run(d, offset, events), call).1
             == Unlimited(Run(d, offset, events).calls[call].outcome.value, Run(d, offset, events).entries,
                          Wall(offset, Run(d, offset, events).time))
      {
        RunKeepsInv(d, offset, events);
        AnswersUnlimited(d, offset, Run(d, offset, events), call);
      }
    } else {
      var start, finish := BusyPeriod(d.verifier, offset);
      var events := FullCache(d, offset, start, finish);
      assert Pending(Run(d, offset, events), d.capacity);
    }
  }

  /** The default front door is built without the check; this is when it is safe all the same. */
  lemma DefaultDoorExactlyWhen(v: Verifier, offset: int)
    requires InDomain(WithPath(v), offset)
    ensures NeverFull(WithPath(v), offset) <==> 256 * Budget(v, offset) <= 131072
    ensures Span(v) > 512 ==> !NeverFull(WithPath(v), offset)
  {
    CapacityExactlyWhen(WithPath(v), offset);
  }

  /** The passed check does not cover a clock before the epoch: here it is met and yet the cache fills. */
  lemma PreEpochClockFillsCache()
    ensures var d := Door(1, 2, Verifier("edge", 1, 0));
            Covers(d) && NeverFull(d, 0) && !NeverFull(d, -3 * NANOS)
  {
    var d := Door(1, 2, Verifier("edge", 1, 0));
    CapacityExactlyWhen(d, 0);
    CapacityExactlyWhen(d, -3 * NANOS);
  }

  /** Every capability prepared from start to finish can still be live at finish. */
  ghost predicate Busy(v: Verifier, offset: int, start: nat, finish: nat) {
    start <= finish < TIME_RANGE
    && forall t: nat | start <= t <= finish ::
         PrepareNow(offset, t) <= Wall(offset, finish) < PrepareNow(offset, t) + Span(v) <= U64_MAX
  }

  /** The longest such period meets as many limiter windows as the budget counts. */
  lemma BusyPeriod(v: Verifier, offset: int) returns (start: nat, finish: nat)
    requires 1 <= v.maxLifetime && Span(v) < 0x400_0000_0000
    requires -0x400_0000_0000 * NANOS < offset < 0x7FFF_FFFF_FFFF_FFFF * NANOS
    ensures Busy(v, offset, start, finish)
    ensures finish / NANOS - start / NANOS + 1 == Budget(v, offset)
  {
    if offset < 0 {
      start, finish := 0, Span(v) * NANOS - offset - 1;
      assert Wall(offset, finish) == Span(v) - 1;
    } else {
      start := 2 * NANOS - offset % NANOS;
      finish := (Span(v) + 2) * NANOS - offset % NANOS - 1;
      assert Wall(offset, start) == offset / NANOS + 2;
      assert Wall(offset, finish) == offset / NANOS + Span(v) + 1;
    }
  }

  /** The claims that stay in the cache longest when prepared at `now`. */
  function LongestClaims(v: Verifier, now: nat, nonce: Nonce): Claims {
    Claims(v.audience, now + v.clockSkew, now + v.clockSkew + v.maxLifetime, nonce)
  }

  /** Call k is verified, its nonce is k, and it is acceptable at the wall second `now`. */
  ghost predicate Acceptable(call: Admitted, k: nat, now: int) {
    call.outcome.Some? && call.outcome.value.claims.nonce == k
    && call.outcome.value.validFrom <= now < call.outcome.value.replayExpiresAt
  }

  /** i calls are prepared for distinct nonces and the first j of them committed. */
  ghost predicate Filled(offset: int, finish: nat, s: State, i: nat, j: nat) {
    && s.time <= finish && |s.calls| == i
    && (forall k :: 0 <= k < i ==> Acceptable(s.calls[k], k, Wall(offset, finish)))
    && (forall k :: k in s.done ==> k < j)
    && |s.entries| == j
    && (forall k :: k in s.entries ==> k < j && s.entries[k] > Wall(offset, finish))
  }

  lemma FillPrepare(d: Door, offset: int, start: nat, finish: nat, s: State, i: nat, time: nat) returns (e: Event)
    requires InDomain(d, offset) && Busy(d.verifier, offset, start, finish)
    requires Filled(offset, finish, s, i, 0) && s.time <= time && start <= time <= finish
    requires RateLimiter.Proposal(d.rate, time / NANOS, s.word).Some?
    ensures var n := Step(d, offset, s, e);
            && Filled(offset, finish, n, i + 1, 0) && n.time == time
            && Some(n.word) == RateLimiter.Proposal(d.rate, time / NANOS, s.word)
  {
    var now := PrepareNow(offset, time);
    e := Prepare(time - s.time, Signed(LongestClaims(d.verifier, now, i)));
    var n := Step(d, offset, s, e);
    assert n.calls == s.calls + [n.calls[i]];
    assert Acceptable(n.calls[i], i, Wall(offset, finish));
  }

  /** The time of the preparations in the w-th window from start on. */
  function FillTime(start: nat, w: nat): nat {
    if w == 0 then start else (start / NANOS + w) * NANOS
  }

  /** One more preparation in the w-th window from start on, where c callers were admitted so far. */
  lemma FillNext(d: Door, offset: int, start: nat, finish: nat, s: State, i: nat, w: nat, c: nat) returns (e: Event)
    requires InDomain(d, offset) && Busy(d.verifier, offset, start, finish)
    requires Filled(offset, finish, s, i, 0)
    requires w <= finish / NANOS - start / NANOS && c < d.rate
    requires if c == 0 then Before(s, start, w) else Paced(s, start, w, c)
    ensures var n := Step(d, offset, s, e);
            Filled(offset, finish, n, i + 1, 0) && Paced(n, start, w, c + 1)
  {
    var time := FillTime(start, w);
    assert time / NANOS == start / NANOS + w;
    e := FillPrepare(d, offset, start, finish, s, i, time);
    RateLimiter.Packing(d.rate, time / NANOS, s.word);
  }

  /** After i preparations the limiter stands at c callers in the w-th window from start on. */
  ghost predicate Filling(d: Door, offset: int, start: nat, finish: nat, s: State, i: nat, w: nat, c: nat) {
    && Filled(offset, finish, s, i, 0)
    && w <= finish / NANOS - start / NANOS && c <= d.rate && i == d.rate * w + c
    && if c == 0 then w == 0 && Before(s, start, w) else Paced(s, start, w, c)
  }

  lemma FillMore(d: Door, offset: int, start: nat, finish: nat, s: State, i: nat, w: nat, c: nat)
    returns (e: Event, w': nat, c': nat)
    requires InDomain(d, offset) && Busy(d.verifier, offset, start, finish)
    requires Filling(d, offset, start, finish, s, i, w, c)
    requires i < d.rate * (finish / NANOS - start / NANOS + 1)
    ensures Filling(d, offset, start, finish, Step(d, offset, s, e), i + 1, w', c')
  {
    w', c' := w, c;
    if c == d.rate {
      NextWindow(d.rate, w, finish / NANOS - start / NANOS, i);
      w', c' := w + 1, 0;
    }
    e := FillNext(d, offset, start, finish, s, i, w', c');
    c' := c' + 1;
  }

  /** As many preparations as the limiter admits from start to finish. */
  lemma FillPrepares(d: Door, offset: int, start: nat, finish: nat, count: nat) returns (events: seq<Event>)
    requires InDomain(d, offset) && Busy(d.verifier, offset, start, finish)
    requires count <= d.rate * (finish / NANOS - start / NANOS + 1)
    ensures Filled(offset, finish, Run(d, offset, events), count, 0)
  {
    events := [];
    var w, c := 0, 0;
    for i := 0 to count
      invariant w >= 0 && c >= 0 && Filling(d, offset, start, finish, Run(d, offset, events), i, w, c)
    {
      var e;
      e, w, c := FillMore(d, offset, start, finish, Run(d, offset, events), i, w, c);
      RunAppend(d, offset, events, e);
      events := events + [e];
    }
  }

  /** The limiter is in the w-th window from start on, and has admitted c callers there. */
  ghost predicate Paced(s: State, start: nat, w: nat, c: nat) {
    s.time == FillTime(start, w)
    && RateLimiter.WindowOf(s.word) == start / NANOS + w && RateLimiter.CountOf(s.word) == c
  }

  /** Nobody was admitted in the w-th window from start on, or later. */
  ghost predicate Before(s: State, start: nat, w: nat) {
    if w == 0 then s.time == 0 && s.word == 0
    else s.time == FillTime(start, w - 1) && RateLimiter.WindowOf(s.word) == start / NANOS + w - 1
  }

  lemma NextWindow(rate: nat, w: nat, windows: nat, i: nat)
    requires rate >= 1 && i == rate * w + rate && i < rate * (windows + 1)
    ensures w + 1 <= windows && i == rate * (w + 1) + 0
  {
    if w >= windows {
      MoreTimes(rate, windows + 1, w + 1);
    }
  }

  lemma FillCommit(d: Door, offset: int, finish: nat, s: State, i: nat, j: nat) returns (e: Event)
    requires Filled(offset, finish, s, i, j) && j < i && j < d.capacity && 0 <= Wall(offset, finish)
    ensures var n := Step(d, offset, s, e);
            Filled(offset, finish, n, i, j + 1) && n.time == finish
  {
    e := Commit(finish - s.time, j);
    assert Live(s.entries, Wall(offset, finish)) == s.entries;
    assert Acceptable(s.calls[j], j, Wall(offset, finish));
  }

  /** A run after which a fresh nonce finds the cache full of live ones. */
  lemma FullCache(d: Door, offset: int, start: nat, finish: nat) returns (events: seq<Event>)
    requires InDomain(d, offset) && Busy(d.verifier, offset, start, finish)
    requires d.capacity < d.rate * (finish / NANOS - start / NANOS + 1)
    ensures var s := Run(d, offset, events);
            && s.time < TIME_RANGE && Pending(s, d.capacity)
            && CommitResult(d, offset, s, d.capacity).1
               != Unlimited(s.calls[d.capacity].outcome.value, s.entries, Wall(offset, s.time))
  {
    events := FillPrepares(d, offset, start, finish, d.capacity + 1);
    for j := 0 to d.capacity
      invariant Filled(offset, finish, Run(d, offset, events), d.capacity + 1, j)
      invariant j > 0 ==> Run(d, offset, events).time == finish
    {
      assert PrepareNow(offset, finish) >= 0;
      var e := FillCommit(d, offset, finish, Run(d, offset, events), d.capacity + 1, j);
      RunAppend(d, offset, events, e);
      events := events + [e];
    }
    var s := Run(d, offset, events);
    assert Live(s.entries, Wall(offset, finish)) == s.entries;
    assert Acceptable(s.calls[d.capacity], d.capacity, Wall(offset, finish));
  }

  lemma RunAppend(d: Door, offset: int, events: seq<Event>, e: Event)
    ensures Run(d, offset, events + [e]) == Step(d, offset, Run(d, offset, events), e)
  {
    assert (events + [e])[..|events|] == events;
  }
}
