/**
 The capture converter's record loop: one pass over a dictionary of open flows, proved to produce exactly
 the sessions obtained by grouping the selected packets by unordered flow key and cutting each group.

 A record carries what reading and parsing its frame yields; timestamps are in nanoseconds, and a row keeps
 its session number and its time since the session began.
 */
module Sessionizer {
  import opened Prelude
  import Words

  const MAX_RECORDS := 200_000
  const MAX_ROWS := 40_000
  const MAX_SESSIONS := 3_000
  const MAX_PACKET_LENGTH := 1_000_000

  datatype Address = Address(version: nat, packed: nat)
  datatype Transport = Transport(sourcePort: nat, destinationPort: nat, flags: nat)

  /** transport is None when the transport header is fragmented or malformed. */
  datatype Frame =
    | Broken
    | NoPacket
    | Ip(source: Address, destination: Address, protocol: nat, length: nat, transport: Option<Transport>)

  datatype Record = Record(timestamp: nat, frame: Frame)

  datatype Config = Config(observer: Address, remotePorts: seq<nat>, endpointPort: Option<nat>, idle: nat)

  // ---------- flow keys ----------

  datatype Endpoint = Endpoint(address: Address, port: nat)

  /** Python's order on (version, packed, port) tuples. */
  predicate EndpointLe(a: Endpoint, b: Endpoint) {
    a.address.version < b.address.version
    || (a.address.version == b.address.version
        && (a.address.packed < b.address.packed
            || (a.address.packed == b.address.packed && a.port <= b.port)))
  }

  datatype FlowKey = FlowKey(protocol: nat, low: Endpoint, high: Endpoint)

  function KeyOf(protocol: nat, a: Endpoint, b: Endpoint): FlowKey {
    if EndpointLe(a, b) then FlowKey(protocol, a, b) else FlowKey(protocol, b, a)
  }

  /** Two packets share a key exactly when they run between the same endpoints, in either direction. */
  lemma KeyIsUnordered(p: nat, a: Endpoint, b: Endpoint, q: nat, c: Endpoint, d: Endpoint)
    ensures KeyOf(p, a, b) == KeyOf(q, c, d) <==> p == q && ((a == c && b == d) || (a == d && b == c))
  {
  }

  // ---------- selecting packets ----------

  datatype Packet = Packet(time: nat, key: FlowKey, outgoing: bool, length: nat, closes: bool)
  datatype Verdict = Refuse | Drop | Select(packet: Packet)

  /** The remote port and direction of a packet, None when the packet is not one of the observer's. */
  function Direction(cfg: Config, f: Frame, t: Transport): Option<(bool, nat)>
    requires f.Ip?
  {
    if f.source == cfg.observer && f.destination != cfg.observer then Some((true, t.destinationPort))
    else if f.destination == cfg.observer && f.source != cfg.observer then Some((false, t.sourcePort))
    else if cfg.endpointPort == Some(t.sourcePort) && t.destinationPort != t.sourcePort
    then Some((true, t.destinationPort))
    else if cfg.endpointPort == Some(t.destinationPort) && t.sourcePort != t.destinationPort
    then Some((false, t.sourcePort))
    else None
  }

  /** FIN or RST in the TCP flags. */
  predicate Closing(protocol: nat, flags: nat) {
    protocol == 6 && Words.And(flags, 0x05) != 0
  }

  /** Those are bit 0 and bit 2 of the flags. */
  lemma ClosingBits(flags: nat)
    ensures Closing(6, flags) <==> flags % 2 == 1 || flags / 4 % 2 == 1
    ensures Closing(6, flags) <==> Words.Bit(flags, 0) || Words.Bit(flags, 2)
  {
    assert Words.And(flags / 2 / 2, 1) != 0 <==> flags / 2 / 2 % 2 == 1 by {
      assert Words.And(flags / 2 / 2 / 2, 0) == 0;
    }
    assert Words.And(flags / 2, 2) != 0 <==> Words.And(flags / 2 / 2, 1) != 0;
    assert Words.Bit(flags / 2 / 2, 0) <==> Words.Bit(flags, 2) by {
      assert Words.Bit(flags / 2, 1) <==> Words.Bit(flags / 2 / 2, 0);
    }
  }

  function Classify(cfg: Config, record: Record): Verdict {
    match record.frame
    case Broken => Refuse
    case NoPacket => Drop
    case Ip(source, destination, protocol, length, transport) =>
      if source != cfg.observer && destination != cfg.observer then Drop
      else if length > MAX_PACKET_LENGTH || transport.None? then Refuse
      else
        var t := transport.value;
        match Direction(cfg, record.frame, t)
        case None => if cfg.endpointPort.None? then Refuse else Drop
        case Some((outgoing, remote)) =>
          if remote !in cfg.remotePorts then Drop
          else Select(Packet(record.timestamp,
                             KeyOf(protocol, Endpoint(source, t.sourcePort), Endpoint(destination, t.destinationPort)),
                             outgoing, length, Closing(protocol, t.flags)))
  }

  /** The named end is the observer's and the other is not, or both are and only its port is the endpoint port. */
  ghost predicate NearEnd(cfg: Config, near: Endpoint, far: Endpoint) {
    near.address == cfg.observer
    && (far.address == cfg.observer ==>
          cfg.endpointPort.Some? && near.port == cfg.endpointPort.value && far.port != cfg.endpointPort.value)
  }

  /**
   From the record alone: a packet is selected exactly if it has a near end, its transport header is there, its
   length is within the limit and its far port is listed. It is outgoing exactly if the near end is its
   source, and closes its flow exactly if it is TCP with FIN or RST.
   */
  lemma SelectedExactlyWhen(cfg: Config, r: Record, p: Packet)
    ensures Classify(cfg, r) == Select(p) <==>
              && r.frame.Ip? && r.frame.transport.Some? && r.frame.length <= MAX_PACKET_LENGTH
              && var from := Endpoint(r.frame.source, r.frame.transport.value.sourcePort);
              && var to := Endpoint(r.frame.destination, r.frame.transport.value.destinationPort);
              && ((NearEnd(cfg, from, to) && to.port in cfg.remotePorts)
                  || (NearEnd(cfg, to, from) && from.port in cfg.remotePorts))
              && p.outgoing == NearEnd(cfg, from, to)
              && p.closes == (r.frame.protocol == 6 && Words.And(r.frame.transport.value.flags, 0x05) != 0)
              && p.time == r.timestamp && p.length == r.frame.length
              && p.key == KeyOf(r.frame.protocol, from, to)
  {
  }

  /** No packet has two near ends. */
  lemma OneNearEnd(cfg: Config, a: Endpoint, b: Endpoint)
    ensures !(NearEnd(cfg, a, b) && NearEnd(cfg, b, a))
  {
  }

  /**
   A record ends the conversion exactly if its frame is broken, or one of its ends is the observer and it is
   too long, its transport header is unusable, or both ends are the observer and no endpoint port is set.
   */
  lemma RefusedExactlyWhen(cfg: Config, r: Record)
    ensures Classify(cfg, r) == Refuse <==> Unusable(cfg, r)
  {
  }

  ghost predicate Unusable(cfg: Config, r: Record) {
    || r.frame.Broken?
    || (&& r.frame.Ip? && (r.frame.source == cfg.observer || r.frame.destination == cfg.observer)
        && (|| r.frame.length > 1_000_000 || r.frame.transport.None?
            || (r.frame.source == r.frame.destination && cfg.endpointPort.None?)))
  }

  /** The answer to a packet: the same frame with its two ends exchanged. */
  function Reply(r: Record): Record {
    match r.frame
    case Ip(source, destination, protocol, length, Some(t)) =>
      var back := t.(sourcePort := t.destinationPort, destinationPort := t.sourcePort);
      r.(frame := Ip(destination, source, protocol, length, Some(back)))
    case _ => r
  }

  /** A packet and its reply are selected alike, into the same flow, in opposite directions. */
  lemma ReplyIsOpposite(cfg: Config, r: Record)
    requires r.frame.Ip? && r.frame.transport.Some?
    ensures match Classify(cfg, r)
            case Select(p) => Classify(cfg, Reply(r)) == Select(p.(outgoing := !p.outgoing))
            case other => Classify(cfg, Reply(r)) == other
  {
    var f, t := r.frame, r.frame.transport.value;
    KeyIsUnordered(f.protocol, Endpoint(f.source, t.sourcePort), Endpoint(f.destination, t.destinationPort),
                   f.protocol, Endpoint(f.destination, t.destinationPort), Endpoint(f.source, t.sourcePort));
  }

  function Selected(cfg: Config, records: seq<Record>): seq<Packet> {
    if records == [] then []
    else
      var rest := Selected(cfg, records[1..]);
      match Classify(cfg, records[0])
      case Select(p) => [p] + rest
      case _ => rest
  }

  // ---------- group, then cut ----------

  /** The previous packet of the same flow. */
  function Previous(packets: seq<Packet>, i: nat, key: FlowKey): (p: Option<nat>)
    requires i <= |packets|
    ensures p.Some? ==> p.value < i && packets[p.value].key == key
  {
    if i == 0 then None
    else if packets[i - 1].key == key then Some(i - 1)
    else Previous(packets, i - 1, key)
  }

  lemma {:induction false} PreviousIs(packets: seq<Packet>, i: nat, key: FlowKey)
    requires i <= |packets|
    ensures match Previous(packets, i, key)
            case None => forall k :: 0 <= k < i ==> packets[k].key != key
            case Some(p) => p < i && packets[p].key == key && forall k :: p < k < i ==> packets[k].key != key
  {
    if i > 0 && packets[i - 1].key != key {
      PreviousIs(packets, i - 1, key);
    }
  }

  /** A session starts at the first packet of a flow, after an idle gap, and after a closing packet. */
  predicate Starts(packets: seq<Packet>, idle: nat, i: nat)
    requires i < |packets|
  {
    match Previous(packets, i, packets[i].key)
    case None => true
    case Some(p) => packets[p].closes || packets[i].time > packets[p].time + idle
  }

  ghost function StartCount(packets: seq<Packet>, idle: nat, n: nat): nat
    requires n <= |packets|
  {
    if n == 0 then 0 else StartCount(packets, idle, n - 1) + if Starts(packets, idle, n - 1) then 1 else 0
  }

  /** The packet that began the session of packet i. */
  ghost function Opening(packets: seq<Packet>, idle: nat, i: nat): (o: nat)
    requires i < |packets|
    ensures o <= i && packets[o].key == packets[i].key && Starts(packets, idle, o)
  {
    if Starts(packets, idle, i) then i
    else
      PreviousIs(packets, i, packets[i].key);
      Opening(packets, idle, Previous(packets, i, packets[i].key).value)
  }

  datatype Row = Row(session: nat, elapsed: int, outgoing: bool, length: nat)

  /** The row of packet i: sessions are numbered from 1 in the order in which they begin. */
  ghost function RowOf(packets: seq<Packet>, idle: nat, i: nat): Row
    requires i < |packets|
  {
    var o := Opening(packets, idle, i);
    Row(StartCount(packets, idle, o + 1), packets[i].time - packets[o].time, packets[i].outgoing, packets[i].length)
  }

  // ---------- the one-pass loop ----------

  datatype FlowState = FlowState(session: nat, first: nat, last: nat)
  datatype Output = Output(rows: seq<Row>, records: nat, skipped: nat, sessions: nat)

  /** The dictionary holds exactly the flows whose last packet did not close them. */
  ghost predicate FlowsMatch(flows: map<FlowKey, FlowState>, packets: seq<Packet>, idle: nat, n: nat)
    requires n <= |packets|
  {
    forall key ::
      match Previous(packets, n, key)
      case None => key !in flows
      case Some(p) =>
        if packets[p].closes then key !in flows
        else key in flows && flows[key] == StateAt(packets, idle, n, key)
  }

  ghost function StateAt(packets: seq<Packet>, idle: nat, n: nat, key: FlowKey): FlowState
    requires n <= |packets| && Previous(packets, n, key).Some?
  {
    PreviousIs(packets, n, key);
    var p := Previous(packets, n, key).value;
    var o := Opening(packets, idle, p);
    FlowState(StartCount(packets, idle, o + 1), packets[o].time, packets[p].time)
  }

  /** Record i cannot be parsed or used, or is older than the one before it. */
  predicate BadRecord(cfg: Config, records: seq<Record>, i: int) {
    0 <= i < |records|
    && (Classify(cfg, records[i]).Refuse? || (i > 0 && records[i].timestamp < records[i - 1].timestamp))
  }

  ghost predicate Fails(cfg: Config, records: seq<Record>) {
    || (exists i :: BadRecord(cfg, records, i))
    || |records| > MAX_RECORDS
    || |Selected(cfg, records)| > MAX_ROWS || |Selected(cfg, records)| == 0
    || StartCount(Selected(cfg, records), cfg.idle, |Selected(cfg, records)|) > MAX_SESSIONS
  }

  /**
   A conversion fails exactly if some record is unusable or older than the one before it, nothing is selected, or
   there are too many records, selected packets or sessions.
   */
  lemma FailsExactlyWhen(cfg: Config, records: seq<Record>)
    ensures var packets := Selected(cfg, records);
            Fails(cfg, records) <==>
              || (exists i :: 0 <= i < |records| && Unusable(cfg, records[i]))
              || (exists i :: OutOfOrder(records, i))
              || |records| > 200_000 || |packets| == 0 || |packets| > 40_000
              || StartCount(packets, cfg.idle, |packets|) > 3_000
  {
    if i :| BadRecord(cfg, records, i) {
      RefusedExactlyWhen(cfg, records[i]);
      assert Unusable(cfg, records[i]) || OutOfOrder(records, i);
    }
    if i :| 0 <= i < |records| && Unusable(cfg, records[i]) {
      RefusedExactlyWhen(cfg, records[i]);
      assert BadRecord(cfg, records, i);
    }
    if i :| OutOfOrder(records, i) {
      assert BadRecord(cfg, records, i);
    }
  }

  /** Record i is older than the one before it. */
  ghost predicate OutOfOrder(records: seq<Record>, i: int) {
    0 < i < |records| && records[i].timestamp < records[i - 1].timestamp
  }

  /** What one selected packet does to the dictionary, and the state its row is taken from. */
  function Enter(flows: map<FlowKey, FlowState>, idle: nat, sessions: nat, p: Packet): (FlowState, nat) {
    if p.key in flows && p.time - flows[p.key].last <= idle
    then (flows[p.key].(last := p.time), sessions)
    else (FlowState(sessions + 1, p.time, p.time), sessions + 1)
  }

  function Leave(flows: map<FlowKey, FlowState>, p: Packet, state: FlowState): map<FlowKey, FlowState> {
    if p.closes then flows - {p.key} else flows[p.key := state]
  }

  lemma EnterCorrect(flows: map<FlowKey, FlowState>, packets: seq<Packet>, idle: nat, n: nat, sessions: nat)
    requires n < |packets| && FlowsMatch(flows, packets, idle, n) && sessions == StartCount(packets, idle, n)
    ensures var (state, sessions') := Enter(flows, idle, sessions, packets[n]);
            && sessions' == StartCount(packets, idle, n + 1)
            && state == StateAt(packets, idle, n + 1, packets[n].key)
            && RowOf(packets, idle, n)
               == Row(state.session, packets[n].time - state.first, packets[n].outgoing, packets[n].length)
  {
    PreviousIs(packets, n, packets[n].key);
    assert Previous(packets, n + 1, packets[n].key) == Some(n);
  }

  lemma LeaveCorrect(flows: map<FlowKey, FlowState>, packets: seq<Packet>, idle: nat, n: nat)
    requires n < |packets| && FlowsMatch(flows, packets, idle, n)
    ensures FlowsMatch(Leave(flows, packets[n], StateAt(packets, idle, n + 1, packets[n].key)), packets, idle, n + 1)
  {
    var flows' := Leave(flows, packets[n], StateAt(packets, idle, n + 1, packets[n].key));
    forall key
      ensures match Previous(packets, n + 1, key)
              case None => key !in flows'
              case Some(p) =>
                if packets[p].closes then key !in flows'
                else key in flows' && flows'[key] == StateAt(packets, idle, n + 1, key)
    {
      if key != packets[n].key {
        assert Previous(packets, n + 1, key) == Previous(packets, n, key);
      }
    }
  }

  /** Converts a capture, or fails exactly when some record or limit is violated. */
  method Convert(cfg: Config, records: seq<Record>) returns (r: Option<Output>)
    ensures r.None? <==> Fails(cfg, records)
    ensures r.Some? ==>
              var packets := Selected(cfg, records);
              && |r.value.rows| == |packets|
              && (forall i :: 0 <= i < |packets| ==> r.value.rows[i] == RowOf(packets, cfg.idle, i))
              && r.value.records == |records| == r.value.skipped + |r.value.rows|
              && r.value.sessions == StartCount(packets, cfg.idle, |packets|)
  {
    ghost var packets := Selected(cfg, records);
    var rows: seq<Row> := [];
    var flows: map<FlowKey, FlowState> := map[];
    var recordCount: nat, skipped: nat, sessions: nat := 0, 0, 0;
    for i := 0 to |records|
      invariant recordCount == i == skipped + |rows| && i <= MAX_RECORDS
      invariant |rows| <= MAX_ROWS && sessions <= MAX_SESSIONS
      invariant Tracks(rows, flows, sessions, packets, cfg.idle)
      invariant Selected(cfg, records[i..]) == packets[|rows|..]
      invariant forall k :: 0 <= k < i ==> !BadRecord(cfg, records, k)
    {
      recordCount := recordCount + 1;
      if recordCount > MAX_RECORDS {
        return None;
      }
      if i > 0 && records[i].timestamp < records[i - 1].timestamp {
        assert BadRecord(cfg, records, i);
        return None;
      }
      SelectedStep(cfg, records, i, packets, |rows|);
      var verdict := Classify(cfg, records[i]);
      if verdict.Refuse? {
        assert BadRecord(cfg, records, i);
        return None;
      }
      assert !BadRecord(cfg, records, i);
      if verdict.Drop? {
        skipped := skipped + 1;
      } else {
        var next := AddPacket(rows, flows, sessions, verdict.packet, cfg.idle, packets);
        if next.None? {
          LimitExceeded(cfg, records, |rows|);
          return None;
        }
        rows, flows, sessions := next.value.0, next.value.1, next.value.2;
      }
    }
    if rows == [] {
      return None;
    }
    NothingFails(cfg, records, rows, sessions);
    r := Some(Output(rows, recordCount, skipped, sessions));
  }

  lemma LimitExceeded(cfg: Config, records: seq<Record>, n: nat)
    requires n < |Selected(cfg, records)|
    requires StartCount(Selected(cfg, records), cfg.idle, n + 1) > MAX_SESSIONS || n >= MAX_ROWS
    ensures Fails(cfg, records)
  {
    StartCountGrows(Selected(cfg, records), cfg.idle, n + 1);
  }

  lemma NothingFails(cfg: Config, records: seq<Record>, rows: seq<Row>, sessions: nat)
    requires forall k :: 0 <= k < |records| ==> !BadRecord(cfg, records, k)
    requires |records| <= MAX_RECORDS && 0 < |rows| == |Selected(cfg, records)| <= MAX_ROWS
    requires sessions == StartCount(Selected(cfg, records), cfg.idle, |rows|) <= MAX_SESSIONS
    ensures !Fails(cfg, records)
  {
  }

  /** The loop's variables are those the specification gives for the packets handled so far. */
  ghost predicate Tracks(rows: seq<Row>, flows: map<FlowKey, FlowState>, sessions: nat,
                         packets: seq<Packet>, idle: nat)
  {
    && |rows| <= |packets|
    && (forall k :: 0 <= k < |rows| ==> rows[k] == RowOf(packets, idle, k))
    && sessions == StartCount(packets, idle, |rows|)
    && FlowsMatch(flows, packets, idle, |rows|)
  }

  lemma TracksStep(rows: seq<Row>, flows: map<FlowKey, FlowState>, sessions: nat, packets: seq<Packet>, idle: nat)
    requires |rows| < |packets| && Tracks(rows, flows, sessions, packets, idle)
    ensures var p := packets[|rows|];
            var (state, sessions') := Enter(flows, idle, sessions, p);
            && sessions' == StartCount(packets, idle, |rows| + 1)
            && Tracks(rows + [Row(state.session, p.time - state.first, p.outgoing, p.length)],
                      Leave(flows, p, state), sessions', packets, idle)
  {
    EnterCorrect(flows, packets, idle, |rows|, sessions);
    LeaveCorrect(flows, packets, idle, |rows|);
    MoreRows(rows, RowOf(packets, idle, |rows|), packets, idle);
  }

  lemma MoreRows(rows: seq<Row>, row: Row, packets: seq<Packet>, idle: nat)
    requires |rows| < |packets| && row == RowOf(packets, idle, |rows|)
    requires forall k :: 0 <= k < |rows| ==> rows[k] == RowOf(packets, idle, k)
    ensures forall k :: 0 <= k < |rows + [row]| ==> (rows + [row])[k] == RowOf(packets, idle, k)
  {
  }

  /** The part of the loop that handles one selected packet. */
  method AddPacket(rows: seq<Row>, flows: map<FlowKey, FlowState>, sessions: nat, p: Packet, idle: nat,
                   ghost packets: seq<Packet>)
    returns (r: Option<(seq<Row>, map<FlowKey, FlowState>, nat)>)
    requires |rows| < |packets| && packets[|rows|] == p && Tracks(rows, flows, sessions, packets, idle)
    ensures r.None? <==> StartCount(packets, idle, |rows| + 1) > MAX_SESSIONS || |rows| >= MAX_ROWS
    ensures r.Some? ==> |r.value.0| == |rows| + 1 && r.value.2 <= MAX_SESSIONS
    ensures r.Some? ==> Tracks(r.value.0, r.value.1, r.value.2, packets, idle)
  {
    TracksStep(rows, flows, sessions, packets, idle);
    var (state, sessions') := Enter(flows, idle, sessions, p);
    if sessions' > MAX_SESSIONS {
      return None;
    }
    if |rows| >= MAX_ROWS {
      return None;
    }
    var row := Row(state.session, p.time - state.first, p.outgoing, p.length);
    r := Some((rows + [row], Leave(flows, p, state), sessions'));
  }

  lemma SelectedStep(cfg: Config, records: seq<Record>, i: nat, packets: seq<Packet>, n: nat)
    requires i < |records| && n <= |packets| && Selected(cfg, records[i..]) == packets[n..]
    ensures match Classify(cfg, records[i])
            case Select(p) => n < |packets| && packets[n] == p && Selected(cfg, records[i + 1..]) == packets[n + 1..]
            case _ => Selected(cfg, records[i + 1..]) == packets[n..]
  {
    assert records[i..][0] == records[i] && records[i..][1..] == records[i + 1..];
    match Classify(cfg, records[i])
    case Select(p) =>
      var rest := Selected(cfg, records[i + 1..]);
      assert packets[n..] == [p] + rest;
      assert packets[n] == packets[n..][0] && packets[n + 1..] == packets[n..][1..];
    case _ =>
  }

  lemma {:induction false} StartCountGrows(packets: seq<Packet>, idle: nat, n: nat)
    requires n <= |packets|
    ensures StartCount(packets, idle, n) <= StartCount(packets, idle, |packets|)
    decreases |packets| - n
  {
    if n < |packets| {
      StartCountGrows(packets, idle, n + 1);
    }
  }

  // ---------- what the rows mean ----------

  /** Grouping and cutting: a and b lie in one group with no cut after a up to b. */
  ghost predicate SameCut(packets: seq<Packet>, idle: nat, a: nat, b: nat)
    requires a <= b < |packets|
  {
    packets[a].key == packets[b].key
    && forall c :: a < c <= b && packets[c].key == packets[a].key ==> !Starts(packets, idle, c)
  }

  /** Between a session's opening and any of its packets, its flow is never cut. */
  lemma {:induction false} NoCutSinceOpening(packets: seq<Packet>, idle: nat, i: nat)
    requires i < |packets|
    ensures SameCut(packets, idle, Opening(packets, idle, i), i)
  {
    if !Starts(packets, idle, i) {
      PreviousIs(packets, i, packets[i].key);
      NoCutSinceOpening(packets, idle, Previous(packets, i, packets[i].key).value);
    }
  }

  lemma {:induction false} OpeningWithoutCut(packets: seq<Packet>, idle: nat, a: nat, b: nat)
    requires a <= b < |packets| && SameCut(packets, idle, a, b)
    ensures Opening(packets, idle, b) == Opening(packets, idle, a)
    decreases b
  {
    if a < b {
      PreviousIs(packets, b, packets[b].key);
      OpeningWithoutCut(packets, idle, a, Previous(packets, b, packets[b].key).value);
    }
  }

  lemma {:induction false} NumbersOfStarts(packets: seq<Packet>, idle: nat, m: nat, n: nat)
    requires m < n < |packets| && Starts(packets, idle, n)
    ensures StartCount(packets, idle, m + 1) < StartCount(packets, idle, n + 1)
    decreases n
  {
    StartCountMonotone(packets, idle, m + 1, n);
  }

  lemma {:induction false} StartCountMonotone(packets: seq<Packet>, idle: nat, m: nat, n: nat)
    requires m <= n <= |packets|
    ensures StartCount(packets, idle, m) <= StartCount(packets, idle, n)
  {
    if m < n {
      StartCountMonotone(packets, idle, m, n - 1);
    }
  }

  /**
   Two rows carry the same session number exactly when their packets are in the same piece of the
   group-then-cut partition.
   */
  lemma SessionsAreCuts(packets: seq<Packet>, idle: nat, a: nat, b: nat)
    requires a < b < |packets|
    ensures RowOf(packets, idle, a).session == RowOf(packets, idle, b).session <==> SameCut(packets, idle, a, b)
  {
    var oa, ob := Opening(packets, idle, a), Opening(packets, idle, b);
    NoCutSinceOpening(packets, idle, b);
    if SameCut(packets, idle, a, b) {
      OpeningWithoutCut(packets, idle, a, b);
    }
    if oa < ob {
      NumbersOfStarts(packets, idle, oa, ob);
    } else if ob < oa {
      NumbersOfStarts(packets, idle, ob, oa);
    }
  }

  /** c and d are consecutive packets of one flow. */
  ghost predicate Consecutive(packets: seq<Packet>, c: int, d: int) {
    && 0 <= c < d < |packets| && packets[c].key == packets[d].key
    && forall k :: c < k < d ==> packets[k].key != packets[c].key
  }

  /** Between two consecutive packets of a flow: no close, and no gap above the idle timeout. */
  ghost predicate Linked(packets: seq<Packet>, idle: nat, c: int, d: int)
    requires 0 <= c < |packets| && 0 <= d < |packets|
  {
    !packets[c].closes && packets[d].time - packets[c].time <= idle
  }

  lemma StartsExactlyWhen(packets: seq<Packet>, idle: nat, d: nat)
    requires d < |packets|
    ensures Starts(packets, idle, d) <==> forall c :: Consecutive(packets, c, d) ==> !Linked(packets, idle, c, d)
  {
    PreviousIs(packets, d, packets[d].key);
    match Previous(packets, d, packets[d].key)
    case None =>
    case Some(p) =>
      assert Consecutive(packets, p, d);
      forall c | Consecutive(packets, c, d)
        ensures c == p
      {
      }
  }

  /**
   Grouping and cutting, from the packets alone: two rows carry the same session number exactly when their
   packets are of one flow and every two consecutive packets of that flow between them are linked.
   */
  lemma SessionsAreLinked(packets: seq<Packet>, idle: nat, a: nat, b: nat)
    requires a < b < |packets|
    ensures RowOf(packets, idle, a).session == RowOf(packets, idle, b).session <==>
              packets[a].key == packets[b].key
              && forall c, d :: a <= c < d <= b && packets[c].key == packets[a].key && Consecutive(packets, c, d) ==>
                   Linked(packets, idle, c, d)
  {
    SessionsAreCuts(packets, idle, a, b);
    if packets[a].key == packets[b].key {
      CutsAreLinks(packets, idle, a, b);
    }
  }

  lemma CutsAreLinks(packets: seq<Packet>, idle: nat, a: nat, b: nat)
    requires a < b < |packets| && packets[a].key == packets[b].key
    ensures SameCut(packets, idle, a, b) <==>
              forall c, d :: a <= c < d <= b && packets[c].key == packets[a].key && Consecutive(packets, c, d) ==>
                Linked(packets, idle, c, d)
  {
    if SameCut(packets, idle, a, b) {
      forall c, d | a <= c < d <= b && packets[c].key == packets[a].key && Consecutive(packets, c, d)
        ensures Linked(packets, idle, c, d)
      {
        StartsExactlyWhen(packets, idle, d);
        OnePredecessor(packets, d);
      }
    } else {
      var d :| a < d <= b && packets[d].key == packets[a].key && Starts(packets, idle, d);
      StartsExactlyWhen(packets, idle, d);
      PreviousIs(packets, d, packets[d].key);
      var c := Previous(packets, d, packets[d].key).value;
      assert a <= c && Consecutive(packets, c, d);
    }
  }

  lemma OnePredecessor(packets: seq<Packet>, d: nat)
    ensures forall c, c' :: Consecutive(packets, c, d) && Consecutive(packets, c', d) ==> c == c'
  {
  }

  /** A row's time runs from the first packet of its session; direction and length are the packet's own. */
  lemma RowMeans(packets: seq<Packet>, idle: nat, i: nat) returns (o: nat)
    requires i < |packets|
    ensures o <= i && RowOf(packets, idle, o).session == RowOf(packets, idle, i).session
    ensures forall a :: 0 <= a < o ==> RowOf(packets, idle, a).session != RowOf(packets, idle, i).session
    ensures RowOf(packets, idle, i).elapsed == packets[i].time - packets[o].time
    ensures RowOf(packets, idle, i).outgoing == packets[i].outgoing
    ensures RowOf(packets, idle, i).length == packets[i].length
  {
    o := Opening(packets, idle, i);
    assert Opening(packets, idle, o) == o;
    forall a | 0 <= a < o
      ensures RowOf(packets, idle, a).session != RowOf(packets, idle, i).session
    {
      SessionsAreCuts(packets, idle, a, o);
    }
  }

  /** Session numbers are 1 up to the number of sessions, and each is used. */
  lemma {:induction false} NumbersAreUsed(packets: seq<Packet>, idle: nat, n: nat, s: nat)
    requires n <= |packets| && 1 <= s <= StartCount(packets, idle, n)
    ensures exists i :: 0 <= i < n && Starts(packets, idle, i) && RowOf(packets, idle, i).session == s
  {
    if StartCount(packets, idle, n - 1) < s {
      assert Starts(packets, idle, n - 1);
      assert RowOf(packets, idle, n - 1).session == s;
    } else {
      NumbersAreUsed(packets, idle, n - 1, s);
    }
  }
}
