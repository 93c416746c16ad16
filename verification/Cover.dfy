/**
 The cover-traffic scheduler: a byte budget that payload earns and cover traffic spends, paced by an
 interval and stopped for good by cancellation. Times are nanoseconds on the caller's clock.
 */
module Cover {
  import opened Prelude

  datatype Policy = Policy(intervalMs: nat, idleTimeoutMs: nat, maximumBytes: nat, overheadPercent: nat)

  predicate ValidPolicy(p: Policy) {
    && 100 <= p.intervalMs <= 60_000
    && p.intervalMs <= p.idleTimeoutMs <= 300_000
    && 1 <= p.maximumBytes <= 64 * 1024 * 1024
    && 1 <= p.overheadPercent <= 100
  }

  datatype CoverError = InvalidBudget | ClockMovedBackwards

  datatype State = State(
    lastObserved: nat, lastData: Option<nat>, lastCover: Option<nat>, payloadBytes: u64, coverBytes: u64, stopped: bool)

  const INITIAL := State(0, None, None, 0, 0, false)

  /** What the payload seen so far entitles the session to spend on cover. */
  function Allowance(p: Policy, payload: u64): nat {
    var earned := payload as int * p.overheadPercent / 100;
    assert payload as int * p.overheadPercent >= 0;
    if earned < p.maximumBytes then earned else p.maximumBytes
  }

  /** The pacing and suppression conditions of `reserve`, budget aside. */
  predicate Due(p: Policy, s: State, now: nat, bytes: nat, pending: bool, congested: bool) {
    && s.lastData.Some? && !s.stopped && !pending && !congested && 0 < bytes <= 4096
    && now - s.lastData.value < p.idleTimeoutMs * 1_000_000
    && now - (if s.lastCover.Some? then s.lastCover.value else s.lastData.value) >= p.intervalMs * 1_000_000
  }

  function Recorded(s: State, now: nat, bytes: u64): (State, Result<(), CoverError>) {
    if now < s.lastObserved then (s, Err(ClockMovedBackwards))
    else (s.(lastObserved := now, lastData := Some(now), payloadBytes := Saturated(s.payloadBytes + bytes)), Ok(()))
  }

  function Reserved(policy: Option<Policy>, s: State, now: nat, bytes: nat,
                    pending: bool, congested: bool, cancelled: bool)
    : (State, Result<bool, CoverError>)
  {
    if now < s.lastObserved then (s, Err(ClockMovedBackwards))
    else
      var seen := s.(lastObserved := now, stopped := s.stopped || cancelled);
      if policy.None? || !Due(policy.value, seen, now, bytes, pending, congested) then (seen, Ok(false))
      else if s.coverBytes + bytes > Allowance(policy.value, s.payloadBytes) || s.coverBytes + bytes > U64_MAX
      then (seen, Ok(false))
      else (seen.(coverBytes := s.coverBytes + bytes, lastCover := Some(now)), Ok(true))
  }

  class CoverScheduler {
    const policy: Option<Policy>
    var lastObserved: nat
    var lastData: Option<nat>
    var lastCover: Option<nat>
    var payloadBytes: u64
    var coverBytes: u64
    var stopped: bool

    function View(): State
      reads this
    {
      State(lastObserved, lastData, lastCover, payloadBytes, coverBytes, stopped)
    }

    ghost predicate Valid()
      reads this
    {
      (policy.Some? ==> ValidPolicy(policy.value)) && Inv(policy, View())
    }

    constructor (policy: Option<Policy>)
      requires policy.Some? ==> ValidPolicy(policy.value)
      ensures Valid() && this.policy == policy && View() == INITIAL
    {
      this.policy := policy;
      lastObserved, lastData, lastCover := 0, None, None;
      payloadBytes, coverBytes, stopped := 0, 0, false;
    }

    method RecordPayload(now: nat, bytes: u64) returns (r: Result<(), CoverError>)
      requires Valid()
      modifies this
      ensures Valid() && (View(), r) == Recorded(old(View()), now, bytes)
    {
      RecordedKeepsInv(policy, View(), now, bytes);
      if now < lastObserved {
        return Err(ClockMovedBackwards);
      }
      lastObserved := now;
      lastData := Some(now);
      payloadBytes := Saturated(payloadBytes + bytes);
      r := Ok(());
    }

    method Reserve(now: nat, bytes: nat, pending: bool, congested: bool, cancelled: bool)
      returns (r: Result<bool, CoverError>)
      requires Valid()
      modifies this
      ensures Valid() && (View(), r) == Reserved(policy, old(View()), now, bytes, pending, congested, cancelled)
    {
      ReservedKeepsInv(policy, View(), now, bytes, pending, congested, cancelled);
      if now < lastObserved {
        return Err(ClockMovedBackwards);
      }
      lastObserved := now;
      stopped := stopped || cancelled;
      if policy.None? || lastData.None? {
        return Ok(false);
      }
      var p := policy.value;
      if stopped || pending || congested || bytes == 0 || bytes > 4096
         || now - lastData.value >= p.idleTimeoutMs * 1_000_000
         || now - (if lastCover.Some? then lastCover.value else lastData.value) < p.intervalMs * 1_000_000 {
        return Ok(false);
      }
      var allowance := Allowance(p, payloadBytes);
      if bytes > (if allowance < coverBytes then 0 else allowance - coverBytes) {
        return Ok(false);
      }
      coverBytes := coverBytes + bytes;
      lastCover := Some(now);
      r := Ok(true);
    }
  }

  method NewScheduler(policy: Option<Policy>) returns (r: Result<CoverScheduler, CoverError>)
    ensures r.Ok? <==> policy.None? ||
                       var p := policy.value;
                       && 100 <= p.intervalMs <= 60_000 && p.intervalMs <= p.idleTimeoutMs <= 300_000
                       && 1 <= p.maximumBytes <= 67_108_864 && 1 <= p.overheadPercent <= 100
    ensures r.Err? ==> r.error == InvalidBudget
    ensures r.Ok? ==> fresh(r.value) && r.value.Valid() && r.value.policy == policy && r.value.View() == INITIAL
  {
    if policy.Some? && !ValidPolicy(policy.value) {
      return Err(InvalidBudget);
    }
    var scheduler := new CoverScheduler(policy);
    r := Ok(scheduler);
  }

  // ---------- invariants ----------

  ghost predicate Inv(policy: Option<Policy>, s: State) {
    && (s.lastData.Some? ==> s.lastData.value <= s.lastObserved)
    && (s.lastCover.Some? ==> s.lastCover.value <= s.lastObserved && s.lastData.Some? && policy.Some?)
    && (if policy.Some? then s.coverBytes <= Allowance(policy.value, s.payloadBytes) else s.coverBytes == 0)
    && (policy.Some? ==> policy.value.maximumBytes <= 64 * 1024 * 1024)
  }

  lemma AllowanceGrows(p: Policy, a: u64, b: u64)
    requires a <= b
    ensures Allowance(p, a) <= Allowance(p, b)
  {
    assert a as int * p.overheadPercent <= b as int * p.overheadPercent;
  }

  lemma RecordedKeepsInv(policy: Option<Policy>, s: State, now: nat, bytes: u64)
    requires Inv(policy, s)
    ensures Inv(policy, Recorded(s, now, bytes).0)
  {
    if policy.Some? {
      AllowanceGrows(policy.value, s.payloadBytes, Saturated(s.payloadBytes + bytes));
    }
  }

  lemma ReservedKeepsInv(policy: Option<Policy>, s: State, now: nat, bytes: nat,
                         pending: bool, congested: bool, cancelled: bool)
    requires Inv(policy, s)
    ensures Inv(policy, Reserved(policy, s, now, bytes, pending, congested, cancelled).0)
  {
  }

  // ---------- whole runs ----------

  datatype Event =
    | Payload(now: nat, size: u64)
    | Reserve(now: nat, bytes: nat, pending: bool, congested: bool, cancelled: bool)

  datatype Sent = Sent(time: nat, bytes: nat)

  /** A run: the scheduler's state, the cover traffic it released, and whether a cancellation was observed. */
  datatype Run = Run(state: State, sent: seq<Sent>, cancelled: bool)

  function Step(policy: Option<Policy>, r: Run, e: Event): Run {
    match e
    case Payload(now, bytes) => r.(state := Recorded(r.state, now, bytes).0)
    case Reserve(now, bytes, pending, congested, cancelled) =>
      var (state, result) := Reserved(policy, r.state, now, bytes, pending, congested, cancelled);
      Run(state, if result == Ok(true) then r.sent + [Sent(now, bytes)] else r.sent,
          r.cancelled || (result.Ok? && cancelled))
  }

  function After(policy: Option<Policy>, events: seq<Event>): Run {
    if events == [] then Run(INITIAL, [], false)
    else Step(policy, After(policy, events[..|events| - 1]), events[|events| - 1])
  }

  ghost function Total(sent: seq<Sent>): nat {
    if sent == [] then 0 else Total(sent[..|sent| - 1]) + sent[|sent| - 1].bytes
  }

  ghost predicate Spaced(sent: seq<Sent>, interval: nat) {
    forall i, j :: 0 <= i < j < |sent| ==> sent[i].time + interval <= sent[j].time
  }

  ghost predicate RunInv(policy: Option<Policy>, r: Run) {
    Inv(policy, r.state) && Total(r.sent) == r.state.coverBytes && Paced(policy, r.state, r.sent)
    && r.state.stopped == r.cancelled
  }

  /** The state remembers the latest release, and releases are an interval apart. */
  ghost predicate Paced(policy: Option<Policy>, s: State, sent: seq<Sent>) {
    if sent == [] then s.lastCover.None?
    else policy.Some? && s.lastCover == Some(sent[|sent| - 1].time) && Spaced(sent, policy.value.intervalMs * 1_000_000)
  }

  lemma {:induction false} Released(sent: seq<Sent>, one: Sent, interval: nat)
    requires Spaced(sent, interval)
    requires sent != [] ==> sent[|sent| - 1].time + interval <= one.time
    ensures Spaced(sent + [one], interval) && Total(sent + [one]) == Total(sent) + one.bytes
  {
    assert (sent + [one])[..|sent|] == sent;
  }

  lemma ReservedMeans(policy: Option<Policy>, s: State, now: nat, bytes: nat,
                      pending: bool, congested: bool, cancelled: bool)
    ensures var (n, result) := Reserved(policy, s, now, bytes, pending, congested, cancelled);
            && (result == Ok(true) ==>
                  && policy.Some? && n.lastCover == Some(now) && n.coverBytes == s.coverBytes + bytes
                  && !s.stopped && !n.stopped && !cancelled && bytes > 0
                  && n.coverBytes <= policy.value.maximumBytes
                  && (s.lastCover.None? ==> policy.value.intervalMs < policy.value.idleTimeoutMs)
                  && (s.lastCover.Some? ==> now - s.lastCover.value >= policy.value.intervalMs * 1_000_000))
            && (result != Ok(true) ==> n.lastCover == s.lastCover && n.coverBytes == s.coverBytes)
            && n.stopped == (s.stopped || (result.Ok? && cancelled))
  {
  }

  lemma {:induction false} StepKeepsRunInv(policy: Option<Policy>, r: Run, e: Event)
    requires RunInv(policy, r)
    ensures RunInv(policy, Step(policy, r, e))
    ensures r.cancelled ==> Step(policy, r, e).cancelled && Step(policy, r, e).sent == r.sent
  {
    if e.Payload? {
      RecordedKeepsInv(policy, r.state, e.now, e.size);
    } else {
      ReserveKeepsRunInv(policy, r, e);
    }
  }

  lemma {:induction false} ReserveKeepsRunInv(policy: Option<Policy>, r: Run, e: Event)
    requires RunInv(policy, r) && e.Reserve?
    ensures RunInv(policy, Step(policy, r, e))
    ensures r.cancelled ==> Step(policy, r, e).cancelled && Step(policy, r, e).sent == r.sent
  {
    var (n, result) := Reserved(policy, r.state, e.now, e.bytes, e.pending, e.congested, e.cancelled);
    ReservedKeepsInv(policy, r.state, e.now, e.bytes, e.pending, e.congested, e.cancelled);
    ReservedMeans(policy, r.state, e.now, e.bytes, e.pending, e.congested, e.cancelled);
    if result == Ok(true) {
      PacedRelease(policy, r.state, n, r.sent, Sent(e.now, e.bytes));
    }
  }

  lemma {:induction false} PacedRelease(policy: Option<Policy>, s: State, n: State, sent: seq<Sent>, one: Sent)
    requires Paced(policy, s, sent) && policy.Some? && n.lastCover == Some(one.time)
    requires s.lastCover.Some? ==> one.time - s.lastCover.value >= policy.value.intervalMs * 1_000_000
    ensures Paced(policy, n, sent + [one]) && Total(sent + [one]) == Total(sent) + one.bytes
  {
    Released(sent, one, policy.value.intervalMs * 1_000_000);
  }

  // ---------- the counters, from the events alone ----------

  /** The clock of event i is not behind any reading before it, so the event is not refused. */
  ghost predicate Timely(events: seq<Event>, i: nat)
    requires i < |events|
  {
    forall k :: 0 <= k < i ==> events[k].now <= events[i].now
  }

  /** Payload recorded by a run. */
  ghost function PayloadTotal(events: seq<Event>): nat {
    if events == [] then 0
    else
      var n := |events| - 1;
      PayloadTotal(events[..n]) + if events[n].Payload? && Timely(events, n) then events[n].size else 0
  }

  /** Event i reports a cancellation that is observed. */
  ghost predicate Cancels(events: seq<Event>, i: int) {
    0 <= i < |events| && events[i].Reserve? && events[i].cancelled && Timely(events, i)
  }

  ghost predicate Latest(events: seq<Event>, time: nat) {
    (forall i :: 0 <= i < |events| ==> events[i].now <= time)
    && (time == 0 || exists i :: 0 <= i < |events| && events[i].now == time)
  }

  lemma {:induction false} ObservedIsLatest(policy: Option<Policy>, events: seq<Event>)
    ensures Latest(events, After(policy, events).state.lastObserved)
  {
    if events != [] {
      var n := |events| - 1;
      ObservedIsLatest(policy, events[..n]);
      LatestStep(events, After(policy, events[..n]).state.lastObserved);
    }
  }

  lemma LatestStep(events: seq<Event>, time: nat)
    requires events != [] && Latest(events[..|events| - 1], time)
    ensures var last := events[|events| - 1].now;
            Latest(events, if last < time then time else last) && (Timely(events, |events| - 1) <==> time <= last)
  {
    var n := |events| - 1;
    assert forall i :: 0 <= i < n ==> events[..n][i] == events[i];
    if time != 0 {
      var i :| 0 <= i < n && events[..n][i].now == time;
      assert events[i].now == time;
    }
  }

  /** The scheduler's payload counter is the saturated sum of what was recorded in time. */
  lemma {:induction false} PayloadIsTotal(policy: Option<Policy>, events: seq<Event>)
    ensures After(policy, events).state.payloadBytes == Saturated(PayloadTotal(events))
  {
    if events != [] {
      var n := |events| - 1;
      PayloadIsTotal(policy, events[..n]);
      ObservedIsLatest(policy, events[..n]);
      LatestStep(events, After(policy, events[..n]).state.lastObserved);
    }
  }

  /** A run counts as cancelled exactly when some reported cancellation came with a clock not behind any before. */
  lemma {:induction false} CancelledExactlyWhen(policy: Option<Policy>, events: seq<Event>)
    ensures After(policy, events).cancelled <==> exists i :: Cancels(events, i)
  {
    if events != [] {
      var n := |events| - 1;
      CancelledExactlyWhen(policy, events[..n]);
      ObservedIsLatest(policy, events[..n]);
      LatestStep(events, After(policy, events[..n]).state.lastObserved);
      CancelsStep(events);
    }
  }

  lemma CancelsStep(events: seq<Event>)
    requires events != []
    ensures var n := |events| - 1;
            (exists i :: Cancels(events, i)) <==> (exists i :: Cancels(events[..n], i)) || Cancels(events, n)
  {
    var n := |events| - 1;
    assert forall i :: 0 <= i < n ==> events[..n][i] == events[i];
    forall i | 0 <= i < n
      ensures Cancels(events, i) <==> Cancels(events[..n], i)
    {
      assert forall k :: 0 <= k < i ==> events[..n][k] == events[k];
    }
  }

  // ---------- what runs release ----------

  lemma {:induction false} RunKeepsInv(policy: Option<Policy>, events: seq<Event>)
    requires policy.Some? ==> ValidPolicy(policy.value)
    ensures RunInv(policy, After(policy, events))
  {
    if events != [] {
      var n := |events| - 1;
      RunKeepsInv(policy, events[..n]);
      StepKeepsRunInv(policy, After(policy, events[..n]), events[n]);
    }
  }

  /**
   Over every run: the cover traffic released never exceeds the smaller of the maximum and the percentage of
   the payload recorded in time, comes at least one interval apart, and is none at all without a policy.
   */
  lemma RunBounds(policy: Option<Policy>, events: seq<Event>)
    requires policy.Some? ==> ValidPolicy(policy.value)
    ensures var sent := After(policy, events).sent;
            if policy.None? then sent == []
            else
              && Total(sent) <= policy.value.maximumBytes
              && 100 * Total(sent) <= policy.value.overheadPercent * Saturated(PayloadTotal(events))
              && forall i, j :: 0 <= i < j < |sent| ==>
                   sent[i].time + policy.value.intervalMs * 1_000_000 <= sent[j].time
  {
    RunKeepsInv(policy, events);
    PayloadIsTotal(policy, events);
    if policy.Some? {
      AllowanceMeans(policy.value, Saturated(PayloadTotal(events)), Total(After(policy, events).sent));
    }
  }

  /** The allowance is the largest number of bytes within both bounds. */
  lemma AllowanceMeans(p: Policy, payload: u64, bytes: nat)
    ensures bytes <= Allowance(p, payload) <==> bytes <= p.maximumBytes && 100 * bytes <= p.overheadPercent * payload
  {
    assert payload as int * p.overheadPercent == p.overheadPercent * payload;
  }

  /** When the latest payload was recorded. */
  ghost function LastPayload(events: seq<Event>): Option<nat> {
    if events == [] then None
    else
      var n := |events| - 1;
      if events[n].Payload? && Timely(events, n) then Some(events[n].now) else LastPayload(events[..n])
  }

  lemma {:induction false} DataIsLastPayload(policy: Option<Policy>, events: seq<Event>)
    ensures After(policy, events).state.lastData == LastPayload(events)
  {
    if events != [] {
      var n := |events| - 1;
      DataIsLastPayload(policy, events[..n]);
      ObservedIsLatest(policy, events[..n]);
      LatestStep(events, After(policy, events[..n]).state.lastObserved);
    }
  }

  /**
   From the history alone, when a request is granted: it reports no cancellation, pending data or congestion, none
   was ever reported in time, its clock is not behind, its size is in range, payload was recorded within the idle
   timeout, the interval has passed since the last release (or that payload), and both byte bounds still hold.
   */
  ghost predicate Granted(policy: Option<Policy>, events: seq<Event>, e: Event) {
    && policy.Some? && e.Reserve? && LastPayload(events).Some?
    && !e.cancelled && !e.pending && !e.congested && 1 <= e.bytes <= 4096
    && (forall k :: 0 <= k < |events| ==> events[k].now <= e.now) && (forall i :: !Cancels(events, i))
    && e.now < LastPayload(events).value + policy.value.idleTimeoutMs * 1_000_000
    && var sent := After(policy, events).sent;
    && (if sent == [] then LastPayload(events).value else sent[|sent| - 1].time)
       + policy.value.intervalMs * 1_000_000 <= e.now
    && Total(sent) + e.bytes <= policy.value.maximumBytes
    && 100 * (Total(sent) + e.bytes) <= policy.value.overheadPercent * Saturated(PayloadTotal(events))
  }

  /** After every run, an event releases cover exactly if it is a request that the history grants. */
  lemma {:induction false} ReleasedExactlyWhen(policy: Option<Policy>, events: seq<Event>, e: Event)
    requires policy.Some? ==> ValidPolicy(policy.value)
    ensures After(policy, events + [e]).sent
         == After(policy, events).sent + if Granted(policy, events, e) then [Sent(e.now, e.bytes)] else []
  {
    var r := After(policy, events);
    RunAppend(policy, events, e);
    RunKeepsInv(policy, events);
    DataIsLastPayload(policy, events);
    PayloadIsTotal(policy, events);
    CancelledExactlyWhen(policy, events);
    ObservedIsLatest(policy, events);
    if policy.Some? && e.Reserve? {
      AllowanceMeans(policy.value, r.state.payloadBytes, r.state.coverBytes + e.bytes);
      ReservedExactlyWhen(policy.value, r.state, e);
    }
  }

  lemma ReservedExactlyWhen(p: Policy, s: State, e: Event)
    requires e.Reserve? && p.maximumBytes <= 64 * 1024 * 1024
    ensures Reserved(Some(p), s, e.now, e.bytes, e.pending, e.congested, e.cancelled).1 == Ok(true) <==>
              && s.lastObserved <= e.now && !s.stopped && !e.cancelled && !e.pending && !e.congested
              && 1 <= e.bytes <= 4096 && s.lastData.Some?
              && e.now < s.lastData.value + p.idleTimeoutMs * 1_000_000
              && (if s.lastCover.Some? then s.lastCover.value else s.lastData.value) + p.intervalMs * 1_000_000 <= e.now
              && s.coverBytes + e.bytes <= Allowance(p, s.payloadBytes)
  {
  }

  lemma RunAppend(policy: Option<Policy>, events: seq<Event>, e: Event)
    ensures After(policy, events + [e]) == Step(policy, After(policy, events), e)
  {
    assert (events + [e])[..|events|] == events;
  }

  /** Nothing can be released any more, now or ever. */
  ghost predicate Barred(policy: Option<Policy>, r: Run) {
    || policy.None? || r.cancelled || Total(r.sent) == policy.value.maximumBytes
    || (policy.value.intervalMs == policy.value.idleTimeoutMs && r.sent == [])
  }

  lemma BarredStays(policy: Option<Policy>, r: Run, e: Event)
    requires policy.Some? ==> ValidPolicy(policy.value)
    requires RunInv(policy, r) && Barred(policy, r)
    ensures Step(policy, r, e).sent == r.sent && Barred(policy, Step(policy, r, e))
  {
    StepKeepsRunInv(policy, r, e);
    if e.Reserve? {
      ReservedMeans(policy, r.state, e.now, e.bytes, e.pending, e.congested, e.cancelled);
    }
  }

  lemma {:induction false} BarredForever(policy: Option<Policy>, events: seq<Event>, more: seq<Event>)
    requires policy.Some? ==> ValidPolicy(policy.value)
    requires Barred(policy, After(policy, events))
    ensures After(policy, events + more).sent == After(policy, events).sent
    ensures Barred(policy, After(policy, events + more))
  {
    if more == [] {
      assert events + more == events;
    } else {
      var n := |more| - 1;
      BarredForever(policy, events, more[..n]);
      assert events + more == (events + more[..n]) + [more[n]];
      RunAppend(policy, events + more[..n], more[n]);
      RunKeepsInv(policy, events + more[..n]);
      BarredStays(policy, After(policy, events + more[..n]), more[n]);
    }
  }

  /** With the interval as long as the idle timeout, the first release is never due. */
  lemma {:induction false} NothingDue(p: Policy, events: seq<Event>)
    requires ValidPolicy(p) && p.intervalMs == p.idleTimeoutMs
    ensures After(Some(p), events).sent == []
  {
    assert [] + events == events;
    assert Barred(Some(p), After(Some(p), []));
    BarredForever(Some(p), [], events);
  }

  /** Otherwise, more payload and one interval of waiting make another byte due. */
  lemma OneMoreByte(p: Policy, events: seq<Event>) returns (more: seq<Event>)
    requires ValidPolicy(p) && p.intervalMs < p.idleTimeoutMs
    requires !After(Some(p), events).cancelled && Total(After(Some(p), events).sent) < p.maximumBytes
    ensures After(Some(p), events + more).sent != After(Some(p), events).sent
  {
    var r := After(Some(p), events);
    RunKeepsInv(Some(p), events);
    var time := r.state.lastObserved;
    var a := Payload(time, U64_MAX);
    var b := Reserve(time + p.intervalMs * 1_000_000, 1, false, false, false);
    more := [a, b];
    assert events + more == (events + [a]) + [b];
    RunAppend(Some(p), events, a);
    RunAppend(Some(p), events + [a], b);
    FullAllowance(p);
    ByteReleased(p, r, a, b);
  }

  lemma FullAllowance(p: Policy)
    requires ValidPolicy(p)
    ensures Allowance(p, U64_MAX) == p.maximumBytes
  {
  }

  lemma ByteReleased(p: Policy, r: Run, a: Event, b: Event)
    requires RunInv(Some(p), r) && !r.cancelled && Total(r.sent) < p.maximumBytes == Allowance(p, U64_MAX)
    requires 0 < p.intervalMs < p.idleTimeoutMs && p.maximumBytes <= 64 * 1024 * 1024
    requires a == Payload(r.state.lastObserved, U64_MAX)
    requires b == Reserve(r.state.lastObserved + p.intervalMs * 1_000_000, 1, false, false, false)
    ensures Step(Some(p), Step(Some(p), r, a), b).sent == r.sent + [Sent(b.now, 1)]
  {
    var s := Step(Some(p), r, a).state;
    assert s.payloadBytes == U64_MAX && s.lastData == Some(r.state.lastObserved) && s.coverBytes == r.state.coverBytes;
    assert Due(p, s.(lastObserved := b.now, stopped := s.stopped || b.cancelled), b.now, 1, false, false);
  }

  ghost predicate Silent(policy: Option<Policy>, events: seq<Event>) {
    forall more :: After(policy, events + more).sent == After(policy, events).sent
  }

  /**
   After a run nothing is ever released again if and only if there is no policy, a cancellation was reported
   with a clock not behind any reading before it, the maximum is spent, or the interval is the idle timeout.
   */
  lemma SilentExactlyWhen(policy: Option<Policy>, events: seq<Event>)
    requires policy.Some? ==> ValidPolicy(policy.value)
    ensures Silent(policy, events) <==>
              || policy.None? || (exists i :: Cancels(events, i))
              || Total(After(policy, events).sent) == policy.value.maximumBytes
              || policy.value.intervalMs == policy.value.idleTimeoutMs
  {
    CancelledExactlyWhen(policy, events);
    RunBounds(policy, events);
    if policy.Some? && policy.value.intervalMs == policy.value.idleTimeoutMs {
      NothingDue(policy.value, events);
    }
    if Barred(policy, After(policy, events)) {
      forall more
        ensures After(policy, events + more).sent == After(policy, events).sent
      {
        BarredForever(policy, events, more);
      }
    } else {
      var more := OneMoreByte(policy.value, events);
    }
  }

  /**
   A cancellation reported after an uncancelled run stops all cover traffic if and only if its clock is not
   behind any earlier reading, or nothing was left to release anyway.
   */
  lemma CancellationWorksExactlyWhen(policy: Option<Policy>, events: seq<Event>, e: Event)
    requires policy.Some? ==> ValidPolicy(policy.value)
    requires e.Reserve? && e.cancelled && !After(policy, events).cancelled
    ensures After(policy, events + [e]).sent == After(policy, events).sent
    ensures Silent(policy, events + [e]) <==>
              || policy.None? || (forall k :: 0 <= k < |events| ==> events[k].now <= e.now)
              || Total(After(policy, events).sent) == policy.value.maximumBytes
              || policy.value.intervalMs == policy.value.idleTimeoutMs
  {
    RunAppend(policy, events, e);
    ReservedMeans(policy, After(policy, events).state, e.now, e.bytes, e.pending, e.congested, true);
    SilentExactlyWhen(policy, events + [e]);
    CancelledExactlyWhen(policy, events);
    CancelsStep(events + [e]);
    assert (events + [e])[..|events|] == events;
    assert Timely(events + [e], |events|) <==> forall k :: 0 <= k < |events| ==> events[k].now <= e.now;
  }

  /** A cancellation that arrives together with a clock reading in the past is lost. */
  lemma BackwardClockLosesCancellation()
    ensures var p := Some(Policy(100, 500, 500, 10));
            !Silent(p, [Payload(1_000_000_000, 2560), Reserve(0, 128, false, false, true)])
  {
    var p := Some(Policy(100, 500, 500, 10));
    var events := [Payload(1_000_000_000, 2560)];
    RunAppend(p, [], events[0]);
    assert [] + [events[0]] == events;
    assert After(p, events).sent == [] && !After(p, events).cancelled;
    var e := Reserve(0, 128, false, false, true);
    CancellationWorksExactlyWhen(p, events, e);
    assert events[0].now > 0;
    assert events + [e] == [Payload(1_000_000_000, 2560), e];
  }

  /** An accepted policy can release cover at all exactly when its interval is below the idle timeout. */
  lemma ReleasesExactlyWhen(p: Policy)
    requires ValidPolicy(p)
    ensures (exists events :: After(Some(p), events).sent != []) <==> p.intervalMs < p.idleTimeoutMs
  {
    if p.intervalMs < p.idleTimeoutMs {
      var events := OneMoreByte(p, []);
      assert [] + events == events;
    } else {
      forall events
        ensures After(Some(p), events).sent == []
      {
        NothingDue(p, events);
      }
    }
  }
}
