/**
 The lock-free per-second admission limiter of the edge front door.

 One 64-bit word packs the window number above a 20-bit count. Any number of threads run
 load / compare-exchange-weak / retry; the model interleaves their atomic steps in every order, with
 any (even stale) window per call and with spurious compare-exchange failures.
 */
module RateLimiter {
  import opened Prelude

  const MAX_RATE := 100_000
  const COUNT_RANGE := 0x10_0000
  const WINDOW_RANGE := 0x1000_0000_0000

  type ThreadId = nat

  function WindowOf(word: u64): nat { word / COUNT_RANGE }
  function CountOf(word: u64): nat { word % COUNT_RANGE }

  /** `(window << 20) | 1` in 64 bits: window bits above 2^44 are lost. */
  function FirstOfWindow(window: nat): u64 {
    window % WINDOW_RANGE * COUNT_RANGE + 1
  }

  /** The new word a caller of `window` tries to install over `observed`, or None for a refusal. */
  function Proposal(limit: nat, window: nat, observed: u64): Option<u64> {
    if window > WindowOf(observed) then Some(FirstOfWindow(window))
    else if window < WindowOf(observed) || CountOf(observed) >= limit then None
    else Some((observed + 1) % 0x1_0000_0000_0000_0000)
  }

  /** A thread inside the retry loop: the window it was called for and the word it last saw. */
  datatype Call = Call(window: nat, observed: u64)

  datatype State = State(word: u64, calls: map<ThreadId, Call>, admitted: seq<nat>)

  datatype Event =
    | Load(thread: ThreadId, window: nat)
    | Exchange(thread: ThreadId, spurious: bool)

  /** An atomic step. A thread that is not where the event needs it takes no step. */
  function Step(limit: nat, s: State, e: Event): State {
    match e
    case Load(t, window) =>
      if t in s.calls then s else s.(calls := s.calls[t := Call(window, s.word)])
    case Exchange(t, spurious) =>
      if t !in s.calls then s
      else
        var call := s.calls[t];
        match Proposal(limit, call.window, call.observed)
        case None => s.(calls := s.calls - {t})
        case Some(next) =>
          if s.word == call.observed && !spurious
          then State(next, s.calls - {t}, s.admitted + [call.window])
          else s.(calls := s.calls[t := call.(observed := s.word)])
  }

  const INITIAL := State(0, map[], [])

  function Run(limit: nat, events: seq<Event>): State {
    if events == [] then INITIAL
    else Step(limit, Run(limit, events[..|events| - 1]), events[|events| - 1])
  }

  function AdmittedIn(admitted: seq<nat>, window: nat): nat {
    if admitted == [] then 0
    else AdmittedIn(admitted[..|admitted| - 1], window)
         + if admitted[|admitted| - 1] == window then 1 else 0
  }

  ghost predicate InRange(events: seq<Event>) {
    forall i :: 0 <= i < |events| && events[i].Load? ==> events[i].window < WINDOW_RANGE
  }

  /** The packed count is exactly the number admitted in the packed window, and later windows are empty. */
  ghost predicate Inv(limit: nat, s: State) {
    && CountOf(s.word) <= limit && (s.word == 0 || CountOf(s.word) >= 1)
    && AdmittedIn(s.admitted, WindowOf(s.word)) == CountOf(s.word)
    && (forall w :: w > WindowOf(s.word) ==> AdmittedIn(s.admitted, w) == 0)
    && (forall w :: AdmittedIn(s.admitted, w) <= limit)
    && (forall t :: t in s.calls ==> s.calls[t].window < WINDOW_RANGE && Witnessed(s, s.calls[t].observed))
  }

  /** An observed word is a past value: its window has admitted at least its count since. */
  ghost predicate Witnessed(s: State, observed: u64) {
    observed <= s.word && AdmittedIn(s.admitted, WindowOf(observed)) >= CountOf(observed)
  }

  lemma Append(admitted: seq<nat>, window: nat, w: nat)
    ensures AdmittedIn(admitted + [window], w) == AdmittedIn(admitted, w) + if w == window then 1 else 0
  {
    assert (admitted + [window])[..|admitted|] == admitted;
  }

  lemma Admission(s: State, window: nat, n: State)
    requires n.admitted == s.admitted + [window]
    ensures forall w: nat ::
              AdmittedIn(n.admitted, w) == AdmittedIn(s.admitted, w) + if w == window then 1 else 0
  {
    forall w: nat
      ensures AdmittedIn(n.admitted, w) == AdmittedIn(s.admitted, w) + if w == window then 1 else 0
    {
      Append(s.admitted, window, w);
    }
  }

  /** What an accepted compare-exchange does to the two packed fields. */
  lemma Packing(limit: nat, window: nat, word: u64)
    requires 1 <= limit <= MAX_RATE && window < WINDOW_RANGE && Proposal(limit, window, word).Some?
    ensures var next := Proposal(limit, window, word).value;
            && word < next && WindowOf(next) == window
            && CountOf(next) == if window > WindowOf(word) then 1 else CountOf(word) + 1
  {
  }

  lemma {:induction false} StepKeepsInv(limit: nat, s: State, e: Event)
    requires 1 <= limit <= MAX_RATE && Inv(limit, s)
    requires e.Load? ==> e.window < WINDOW_RANGE
    ensures Inv(limit, Step(limit, s, e))
    ensures s.word <= Step(limit, s, e).word
    ensures |Step(limit, s, e).admitted| > |s.admitted| ==> s.word < Step(limit, s, e).word
  {
    var n := Step(limit, s, e);
    if |n.admitted| > |s.admitted| {
      AdmissionKeepsInv(limit, s, n, s.calls[e.thread].window);
    } else {
      WaitingKeepsInv(limit, s, n);
    }
  }

  lemma {:induction false} AdmissionKeepsInv(limit: nat, s: State, n: State, window: nat)
    requires 1 <= limit <= MAX_RATE && Inv(limit, s) && window < WINDOW_RANGE
    requires Proposal(limit, window, s.word) == Some(n.word) && n.admitted == s.admitted + [window]
    requires forall t :: t in n.calls ==> t in s.calls && n.calls[t] == s.calls[t]
    ensures Inv(limit, n) && s.word < n.word
  {
    Packing(limit, window, s.word);
    Admission(s, window, n);
    forall t | t in n.calls
      ensures Witnessed(n, n.calls[t].observed)
    {
      assert Witnessed(s, s.calls[t].observed);
    }
  }

  lemma {:induction false} WaitingKeepsInv(limit: nat, s: State, n: State)
    requires Inv(limit, s) && n.word == s.word && n.admitted == s.admitted
    requires forall t :: t in n.calls ==>
               n.calls[t].window < WINDOW_RANGE
               && (n.calls[t].observed == s.word || (t in s.calls && n.calls[t] == s.calls[t]))
    ensures Inv(limit, n)
  {
    forall t | t in n.calls
      ensures Witnessed(n, n.calls[t].observed)
    {
      assert t in s.calls && n.calls[t] == s.calls[t] ==> Witnessed(s, s.calls[t].observed);
    }
  }

  lemma {:induction false} RunKeepsInv(limit: nat, events: seq<Event>)
    requires 1 <= limit <= MAX_RATE && InRange(events)
    ensures Inv(limit, Run(limit, events))
  {
    if events != [] {
      var n := |events| - 1;
      RunKeepsInv(limit, events[..n]);
      StepKeepsInv(limit, Run(limit, events[..n]), events[n]);
    }
  }

  /** Over every interleaving, no window admits more than `limit` callers. */
  lemma WindowBound(limit: nat, events: seq<Event>, window: nat)
    requires 1 <= limit <= MAX_RATE && InRange(events)
    ensures AdmittedIn(Run(limit, events).admitted, window) <= limit
  {
    RunKeepsInv(limit, events);
  }

  /** Every admission strictly increases the packed word, and no step decreases it. */
  lemma WordIncreases(limit: nat, events: seq<Event>, e: Event)
    requires 1 <= limit <= MAX_RATE && InRange(events + [e])
    ensures Run(limit, events).word <= Run(limit, events + [e]).word
    ensures |Run(limit, events + [e]).admitted| > |Run(limit, events).admitted|
            ==> Run(limit, events).word < Run(limit, events + [e]).word
  {
    InRangeAppend(events, e);
    RunAppend(limit, events, e);
    RunKeepsInv(limit, events);
    StepKeepsInv(limit, Run(limit, events), e);
  }

  lemma RunAppend(limit: nat, events: seq<Event>, e: Event)
    ensures Run(limit, events + [e]) == Step(limit, Run(limit, events), e)
  {
    assert (events + [e])[..|events|] == events;
  }

  lemma InRangeAppend(events: seq<Event>, e: Event)
    ensures InRange(events + [e]) <==> InRange(events) && (e.Load? ==> e.window < WINDOW_RANGE)
  {
    var all := events + [e];
    assert all[|events|] == e && forall i :: 0 <= i < |events| ==> all[i] == events[i];
  }

  /** A window is open while it is not past and has admitted fewer than the limit. */
  ghost predicate Open(limit: nat, s: State, window: nat) {
    WindowOf(s.word) <= window && AdmittedIn(s.admitted, window) < limit
  }

  /**
   Over every run: a call that ends without being admitted ends because its window is no longer open. In
   particular a lost or spuriously failed compare-exchange never ends a call.
   */
  lemma {:induction false} RefusalsAreHonest(limit: nat, events: seq<Event>, e: Event, t: ThreadId)
    requires 1 <= limit <= MAX_RATE && InRange(events + [e])
    requires t in Run(limit, events).calls && t !in Run(limit, events + [e]).calls
    requires |Run(limit, events + [e]).admitted| == |Run(limit, events).admitted|
    ensures !Open(limit, Run(limit, events), Run(limit, events).calls[t].window)
  {
    InRangeAppend(events, e);
    RunKeepsInv(limit, events);
    RunAppend(limit, events, e);
    var s := Run(limit, events);
    assert Witnessed(s, s.calls[t].observed);
  }

  /** An exchange by a thread that saw the current word settles its call. */
  lemma Settled(limit: nat, s: State, t: ThreadId)
    requires 1 <= limit <= MAX_RATE && Inv(limit, s) && t in s.calls && s.calls[t].observed == s.word
    ensures var n := Step(limit, s, Exchange(t, false));
            && t !in n.calls
            && n.admitted == s.admitted + if Open(limit, s, s.calls[t].window) then [s.calls[t].window] else []
  {
    var w := s.calls[t].window;
    assert WindowOf(s.word) < w ==> AdmittedIn(s.admitted, w) == 0;
  }

  /**
   Two exchanges in a row, undisturbed, settle every call whatever word it had seen: its window is added to
   the admitted ones exactly if it is open.
   */
  lemma {:induction false} RetrySettles(limit: nat, events: seq<Event>, t: ThreadId)
    requires 1 <= limit <= MAX_RATE && InRange(events) && t in Run(limit, events).calls
    ensures var s, n := Run(limit, events), Run(limit, events + [Exchange(t, false)] + [Exchange(t, false)]);
            && t !in n.calls
            && n.admitted == s.admitted + if Open(limit, s, s.calls[t].window) then [s.calls[t].window] else []
  {
    var e := Exchange(t, false);
    RunKeepsInv(limit, events);
    RunAppend(limit, events, e);
    RunAppend(limit, events + [e], e);
    var s := Run(limit, events);
    var m := Step(limit, s, e);
    StepKeepsInv(limit, s, e);
    if s.calls[t].observed == s.word {
      Settled(limit, s, t);
    } else if t in m.calls {
      Settled(limit, m, t);
    } else {
      assert Witnessed(s, s.calls[t].observed);
    }
  }

  /** An undisturbed call of an open window is admitted; one of any other window is not. */
  lemma {:induction false} Progress(limit: nat, events: seq<Event>, t: ThreadId, window: nat)
    requires 1 <= limit <= MAX_RATE && InRange(events) && window < WINDOW_RANGE && t !in Run(limit, events).calls
    ensures var s, n := Run(limit, events), Run(limit, events + [Load(t, window)] + [Exchange(t, false)]);
            && t !in n.calls
            && n.admitted == s.admitted + if Open(limit, s, window) then [window] else []
  {
    RunKeepsInv(limit, events);
    RunAppend(limit, events, Load(t, window));
    RunAppend(limit, events + [Load(t, window)], Exchange(t, false));
    var s := Run(limit, events);
    StepKeepsInv(limit, s, Load(t, window));
    Settled(limit, Step(limit, s, Load(t, window)), t);
  }

  /** k calls in a row, each loading and then exchanging undisturbed. */
  function Solo(window: nat, k: nat): seq<Event> {
    if k == 0 then [] else Solo(window, k - 1) + [Load(0, window), Exchange(0, false)]
  }

  /** Window numbers that lose bits in the packing defeat the limit: every such call is admitted. */
  lemma {:induction false} LostBitsAdmitAll(limit: nat, window: nat, k: nat)
    requires window >= WINDOW_RANGE
    ensures AdmittedIn(Run(limit, Solo(window, k)).admitted, window) == k
    ensures Run(limit, Solo(window, k)).calls == map[]
  {
    if k > 0 {
      LostBitsAdmitAll(limit, window, k - 1);
      SoloCall(limit, window, Solo(window, k - 1));
    }
  }

  lemma SoloCall(limit: nat, window: nat, before: seq<Event>)
    requires window >= WINDOW_RANGE && Run(limit, before).calls == map[]
    ensures var after := Run(limit, before + [Load(0, window), Exchange(0, false)]);
            && after.calls == map[]
            && AdmittedIn(after.admitted, window) == AdmittedIn(Run(limit, before).admitted, window) + 1
  {
    var s := Run(limit, before);
    var all := before + [Load(0, window), Exchange(0, false)];
    assert all[..|all| - 1] == before + [Load(0, window)];
    assert (before + [Load(0, window)])[..|before|] == before;
    SoloSteps(limit, window, s);
    Append(s.admitted, window, window);
  }

  lemma SoloSteps(limit: nat, window: nat, s: State)
    requires window >= WINDOW_RANGE && s.calls == map[]
    ensures var after := Step(limit, Step(limit, s, Load(0, window)), Exchange(0, false));
            after.calls == map[] && after.admitted == s.admitted + [window]
  {
  }

  ghost predicate UpTo(events: seq<Event>, top: nat) {
    forall i :: 0 <= i < |events| && events[i].Load? ==> events[i].window <= top
  }

  lemma {:induction false} SoloUpTo(window: nat, k: nat)
    ensures UpTo(Solo(window, k), window)
  {
    if k > 0 {
      SoloUpTo(window, k - 1);
    }
  }

  /** The limit holds in every run over the windows up to `top` exactly when `top` fits its 44 bits. */
  lemma BoundExactlyWhen(limit: nat, top: nat)
    requires 1 <= limit <= MAX_RATE
    ensures (forall events, window: nat :: UpTo(events, top) ==>
               AdmittedIn(Run(limit, events).admitted, window) <= limit)
       <==> top < WINDOW_RANGE
  {
    if top < WINDOW_RANGE {
      forall events, window: nat | UpTo(events, top)
        ensures AdmittedIn(Run(limit, events).admitted, window) <= limit
      {
        WindowBound(limit, events, window);
      }
    } else {
      SoloUpTo(top, limit + 1);
      LostBitsAdmitAll(limit, top, limit + 1);
    }
  }
}
