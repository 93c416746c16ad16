/**
 Shamir secret sharing over GF(257), byte by byte, with the share codec and the recovery limits.

 Share payloads are base64 text in the program; here a payload is what the base64 layer yields.
 The random coefficients are a parameter: one accepted field element per coefficient and byte.
 */
module Shamir {
  import opened Prelude
  import opened Gf257
  import opened GfArithmetic

  const MAX_PAYLOAD_BYTES := 262144
  const MAX_SECRET_BYTES := 131072
  const MAX_RECOVERY_BYTES := 8388608
  const MAX_PAYLOAD_B64_BYTES := 349528

  datatype Config = Config(enabled: bool, threshold: nat, shares: nat)
  datatype Payload = NotBase64(length: nat) | Base64(raw: seq<byte>)
  datatype Share = Share(index: byte, payload: Payload)
  datatype Error = InvalidPolicy | TooFewShares | BadShareCount | DecodeFailed | ResourceExhausted

  predicate ValidPolicy(cfg: Config) {
    1 <= cfg.threshold <= cfg.shares <= 255
  }

  // ---------- share codec ----------

  /** Little-endian bytes of a sequence of 16-bit values. */
  function LeBytes(values: seq<u16>): seq<byte> {
    seq(2 * |values|, k requires 0 <= k < 2 * |values| =>
      if k % 2 == 0 then values[k / 2] % 256 else values[k / 2] / 256)
  }

  function FromLeBytes(raw: seq<byte>): seq<u16> {
    seq(|raw| / 2, k requires 0 <= k < |raw| / 2 => raw[2 * k] + 256 * (raw[2 * k + 1] as int))
  }

  function B64Length(payload: Payload): nat {
    match payload
    case NotBase64(length) => length
    case Base64(raw) => (|raw| + 2) / 3 * 4
  }

  function Decoded(payload: Payload): Option<seq<u16>> {
    if B64Length(payload) > MAX_PAYLOAD_B64_BYTES || payload.NotBase64? then None
    else if |payload.raw| % 2 != 0 || |payload.raw| > MAX_PAYLOAD_BYTES then None
    else Some(FromLeBytes(payload.raw))
  }

  method EncodeU16Array(values: seq<u16>) returns (payload: Payload)
    ensures payload == Base64(LeBytes(values))
  {
    var raw: seq<byte> := [];
    for i := 0 to |values|
      invariant raw == LeBytes(values[..i])
    {
      raw := raw + [values[i] % 256, values[i] / 256];
    }
    assert values[..|values|] == values;
    payload := Base64(raw);
  }

  method DecodeU16Array(payload: Payload) returns (values: Option<seq<u16>>)
    ensures values == Decoded(payload)
  {
    if B64Length(payload) > MAX_PAYLOAD_B64_BYTES || payload.NotBase64? {
      return None;
    }
    var raw := payload.raw;
    if |raw| % 2 != 0 || |raw| > MAX_PAYLOAD_BYTES {
      return None;
    }
    var out: seq<u16> := [];
    for i := 0 to |raw| / 2
      invariant out == FromLeBytes(raw)[..i]
    {
      out := out + [raw[2 * i] + 256 * (raw[2 * i + 1] as int)];
    }
    assert FromLeBytes(raw)[..|raw| / 2] == FromLeBytes(raw);
    values := Some(out);
  }

  /** Decoding undoes encoding exactly up to the payload limit, and refuses everything above it. */
  lemma CodecRoundTrip(values: seq<u16>)
    ensures Decoded(Base64(LeBytes(values)))
         == if |values| <= MAX_SECRET_BYTES then Some(values) else None
  {
    var raw := LeBytes(values);
    forall k | 0 <= k < |values|
      ensures FromLeBytes(raw)[k] == values[k]
    {
      assert raw[2 * k] == values[k] % 256;
      assert raw[2 * k + 1] == values[k] / 256;
    }
    assert FromLeBytes(raw) == values;
  }

  /**
   Exactly the encodings decode: an even number of bytes within the limit, each pair giving one value with its
   low byte first.
   */
  lemma DecodedExactlyWhen(payload: Payload, values: seq<u16>)
    ensures Decoded(payload) == Some(values) <==>
              && payload.Base64? && |payload.raw| == 2 * |values| <= MAX_PAYLOAD_BYTES
              && forall k :: 0 <= k < |values| ==>
                   values[k] as int == payload.raw[2 * k] as int + 256 * payload.raw[2 * k + 1] as int
  {
    if payload.Base64? && |payload.raw| == 2 * |values| <= MAX_PAYLOAD_BYTES
       && (forall k :: 0 <= k < |values| ==>
             values[k] as int == payload.raw[2 * k] as int + 256 * payload.raw[2 * k + 1] as int) {
      assert FromLeBytes(payload.raw) == values;
    }
  }

  /** The bytes written for a value are its low byte and its high byte. */
  lemma LeBytesMean(values: seq<u16>, k: nat)
    requires k < |values|
    ensures |LeBytes(values)| == 2 * |values|
    ensures values[k] as int == LeBytes(values)[2 * k] as int + 256 * LeBytes(values)[2 * k + 1] as int
  {
    assert LeBytes(values)[2 * k] == values[k] % 256;
    assert LeBytes(values)[2 * k + 1] == values[k] / 256;
  }

  // ---------- sampling ----------

  /** The largest multiple of 257 up to 2^64: generator outputs from here on are redrawn. */
  const DRAW_LIMIT := 0x1_0000_0000_0000_0000 / 257 * 257

  /** The first acceptable generator output decides the element; None means that all of them were redrawn. */
  method SampleFieldElement(outputs: seq<u64>) returns (r: Option<element>)
    ensures r.None? <==> forall i :: 0 <= i < |outputs| ==> outputs[i] >= DRAW_LIMIT
    ensures r.Some? ==> exists i :: 0 <= i < |outputs| && outputs[i] in DrawsOf(r.value, DRAW_LIMIT)
                                    && forall k :: 0 <= k < i ==> outputs[k] >= DRAW_LIMIT
  {
    for i := 0 to |outputs|
      invariant forall k :: 0 <= k < i ==> outputs[k] >= DRAW_LIMIT
    {
      if outputs[i] < DRAW_LIMIT {
        assert outputs[i] in DrawsOf(outputs[i] % 257, DRAW_LIMIT);
        return Some(outputs[i] % 257);
      }
    }
    r := None;
  }

  /** The accepted generator outputs that yield one field element. */
  ghost function DrawsOf(e: element, limit: nat): set<nat> {
    set v: nat | v < limit && v % 257 == e
  }

  /** Rejection makes the draw uniform: every field element has equally many accepted outputs. */
  lemma UniformDraws(e: element)
    ensures |DrawsOf(e, DRAW_LIMIT)| == 0x1_0000_0000_0000_0000 / 257
  {
    CountDraws(e, 0x1_0000_0000_0000_0000 / 257);
  }

  lemma {:induction false} CountDraws(e: element, k: nat)
    ensures |DrawsOf(e, 257 * k)| == k
  {
    if k == 0 {
      assert DrawsOf(e, 0) == {};
    } else {
      CountDraws(e, k - 1);
      var base := 257 * (k - 1);
      NextDraw(e, base);
      assert DrawsOf(e, base + 257) == DrawsOf(e, base) + {base + e};
      assert base + 257 == 257 * k;
    }
  }

  lemma NextDraw(e: element, base: nat)
    requires base % 257 == 0
    ensures forall v: nat :: v in DrawsOf(e, base + 257) <==> v in DrawsOf(e, base) || v == base + e
  {
  }

  // ---------- split ----------

  /** The accepted random draws: threshold - 1 field elements for every secret byte. */
  ghost predicate ValidDraws(draws: seq<seq<element>>, secret: seq<byte>, cfg: Config) {
    |draws| == |secret| && forall b :: 0 <= b < |draws| ==> |draws[b]| == cfg.threshold - 1
  }

  /** The share values of point x: each byte's polynomial evaluated at x. */
  ghost function Row(secret: seq<byte>, draws: seq<seq<element>>, x: int): seq<u16>
    requires |draws| == |secret|
  {
    seq(|secret|, b requires 0 <= b < |secret| => Eval([secret[b]] + draws[b], x) % 257)
  }

  ghost function ShareAt(secret: seq<byte>, draws: seq<seq<element>>, x: byte): Share
    requires |draws| == |secret|
  {
    Share(x, Base64(LeBytes(Row(secret, draws, x))))
  }

  method SplitSecret(secret: seq<byte>, cfg: Config, draws: seq<seq<element>>)
    returns (r: Result<seq<Share>, Error>)
    requires cfg.enabled && ValidPolicy(cfg) ==> ValidDraws(draws, secret, cfg)
    ensures !cfg.enabled ==> r == Ok([])
    ensures cfg.enabled && !ValidPolicy(cfg) ==> r == Err(InvalidPolicy)
    ensures cfg.enabled && ValidPolicy(cfg) && |secret| > MAX_SECRET_BYTES ==> r == Err(ResourceExhausted)
    ensures cfg.enabled && ValidPolicy(cfg) && |secret| <= MAX_SECRET_BYTES
            ==> r.Ok? && |r.value| == cfg.shares
                && forall i :: 0 <= i < cfg.shares ==> r.value[i] == ShareAt(secret, draws, i + 1)
  {
    if !cfg.enabled {
      return Ok([]);
    }
    if cfg.threshold == 0 || cfg.shares == 0 || cfg.threshold > cfg.shares || cfg.shares > 255 {
      return Err(InvalidPolicy);
    }
    if |secret| > MAX_SECRET_BYTES {
      return Err(ResourceExhausted);
    }
    var rows: seq<seq<u16>> := seq(cfg.shares, _ => []);
    for b := 0 to |secret|
      invariant |rows| == cfg.shares
      invariant forall i :: 0 <= i < |rows| ==> rows[i] == Row(secret, draws, i + 1)[..b]
    {
      rows := PushValues(rows, [secret[b]] + draws[b]);
    }
    var shares: seq<Share> := [];
    for i := 0 to cfg.shares
      invariant |shares| == i
      invariant forall k :: 0 <= k < i ==> shares[k] == ShareAt(secret, draws, k + 1)
    {
      var payload := EncodeU16Array(rows[i]);
      assert rows[i] == Row(secret, draws, i + 1);
      shares := shares + [Share(i + 1, payload)];
    }
    r := Ok(shares);
  }

  /** Evaluates one byte's polynomial at every share point and appends each value to its row. */
  method PushValues(rows: seq<seq<u16>>, coeffs: seq<element>) returns (out: seq<seq<u16>>)
    ensures |out| == |rows|
    ensures forall i :: 0 <= i < |rows| ==> out[i] == rows[i] + [Eval(coeffs, i + 1) % 257]
  {
    out := rows;
    for x := 1 to |rows| + 1
      invariant |out| == |rows|
      invariant forall i :: 0 <= i < x - 1 ==> out[i] == rows[i] + [Eval(coeffs, i + 1) % 257]
      invariant forall i :: x - 1 <= i < |rows| ==> out[i] == rows[i]
    {
      var value := GfEval(coeffs, x);
      out := out[x - 1 := out[x - 1] + [value]];
    }
  }

  // ---------- recover ----------

  ghost function Indices(shares: seq<Share>): set<byte> {
    set i | 0 <= i < |shares| :: shares[i].index
  }

  /** Number of values decoded from one payload. */
  function ValueCount(payload: Payload): nat {
    match Decoded(payload) case Some(values) => |values| case None => 0
  }

  ghost function DecodedBytes(shares: seq<Share>): nat {
    if shares == [] then 0
    else DecodedBytes(shares[..|shares| - 1]) + 2 * ValueCount(shares[|shares| - 1].payload)
  }

  /** What the checking loop finds wrong with one share, after `bytes` decoded bytes and these indices. */
  ghost function ShareError(share: Share, cfg: Config, bytes: nat, indices: set<byte>): Option<Error> {
    match Decoded(share.payload)
    case None => Some(DecodeFailed)
    case Some(values) =>
      if bytes + 2 * |values| > MAX_RECOVERY_BYTES then Some(ResourceExhausted)
      else if share.index == 0 || share.index > cfg.shares then Some(BadShareCount)
      else if share.index in indices then Some(BadShareCount)
      else if exists k :: 0 <= k < |values| && values[k] > 256 then Some(DecodeFailed)
      else None
  }

  /** The first error the checking loop meets, share by share. */
  ghost function FirstError(shares: seq<Share>, cfg: Config): Option<Error> {
    if shares == [] then None
    else
      var earlier := FirstError(shares[..|shares| - 1], cfg);
      if earlier.Some? then earlier
      else
        var before := shares[..|shares| - 1];
        ShareError(shares[|shares| - 1], cfg, DecodedBytes(before), Indices(before))
  }

  /** Every share decodes to field elements, and the indices are distinct and in range. */
  ghost predicate GoodShares(shares: seq<Share>, cfg: Config) {
    && (forall i :: 0 <= i < |shares| ==>
          && Decoded(shares[i].payload).Some?
          && 1 <= shares[i].index <= cfg.shares
          && (forall k :: 0 <= k < |Decoded(shares[i].payload).value| ==>
                Decoded(shares[i].payload).value[k] <= 256))
    && (forall i, j :: 0 <= i < j < |shares| ==> shares[i].index != shares[j].index)
  }

  lemma {:induction false} NoErrorMeansGood(shares: seq<Share>, cfg: Config)
    requires FirstError(shares, cfg).None?
    ensures GoodShares(shares, cfg)
  {
    if shares != [] {
      var n := |shares| - 1;
      NoErrorMeansGood(shares[..n], cfg);
      assert ShareError(shares[n], cfg, DecodedBytes(shares[..n]), Indices(shares[..n])).None?;
      forall i, j | 0 <= i < j < |shares|
        ensures shares[i].index != shares[j].index
      {
        if j == n {
          assert shares[..n][i].index in Indices(shares[..n]);
        } else {
          assert shares[..n][i].index != shares[..n][j].index;
        }
      }
      forall i | 0 <= i < |shares|
        ensures Decoded(shares[i].payload).Some? && 1 <= shares[i].index <= cfg.shares
        ensures forall k :: 0 <= k < |Decoded(shares[i].payload).value| ==>
                  Decoded(shares[i].payload).value[k] <= 256
      {
        assert i < n ==> shares[..n][i] == shares[i];
      }
    }
  }

  ghost predicate SameLengths(shares: seq<Share>)
    requires forall i :: 0 <= i < |shares| ==> Decoded(shares[i].payload).Some?
  {
    forall i :: 0 <= i < |shares| ==>
      |Decoded(shares[i].payload).value| == |Decoded(shares[0].payload).value|
  }

  /** The points that the first `threshold` shares hold for one byte. */
  ghost function PointsAt(shares: seq<Share>, threshold: nat, b: nat): seq<(byte, element)>
    requires threshold <= |shares|
    requires forall i :: 0 <= i < |shares| ==> Decoded(shares[i].payload).Some?
    requires forall i :: 0 <= i < |shares| ==>
               b < |Decoded(shares[i].payload).value| && Decoded(shares[i].payload).value[b] <= 256
  {
    seq(threshold, i requires 0 <= i < threshold => (shares[i].index, Decoded(shares[i].payload).value[b]))
  }

  lemma PointsDistinct(shares: seq<Share>, threshold: nat, b: nat, cfg: Config)
    requires threshold <= |shares| && GoodShares(shares, cfg) && SameLengths(shares)
    requires shares != [] && b < |Decoded(shares[0].payload).value|
    ensures DistinctResidues(Xs(PointsAt(shares, threshold, b)))
  {
  }

  /** The cast of the interpolated element to a byte; it turns 256 into 0. */
  ghost function SecretByte(shares: seq<Share>, cfg: Config, b: nat): byte
    requires 1 <= cfg.threshold <= |shares| && GoodShares(shares, cfg) && SameLengths(shares)
    requires b < |Decoded(shares[0].payload).value|
  {
    PointsDistinct(shares, cfg.threshold, b, cfg);
    var points := PointsAt(shares, cfg.threshold, b);
    Origin(Xs(points), Ys(points)) as int % 256
  }

  ghost function Recovered(shares: seq<Share>, cfg: Config): Result<seq<byte>, Error> {
    if !cfg.enabled then Ok([])
    else if !ValidPolicy(cfg) then Err(InvalidPolicy)
    else if |shares| < cfg.threshold then Err(TooFewShares)
    else if |shares| > cfg.shares then Err(BadShareCount)
    else
      match FirstError(shares, cfg)
      case Some(e) => Err(e)
      case None =>
        NoErrorMeansGood(shares, cfg);
        if !SameLengths(shares) then Err(BadShareCount)
        else Ok(seq(|Decoded(shares[0].payload).value|,
                    b requires 0 <= b < |Decoded(shares[0].payload).value| => SecretByte(shares, cfg, b)))
  }

  method RecoverSecret(shares: seq<Share>, cfg: Config) returns (r: Result<seq<byte>, Error>)
    ensures r == Recovered(shares, cfg)
  {
    if !cfg.enabled {
      return Ok([]);
    }
    if cfg.threshold == 0 || cfg.shares == 0 || cfg.threshold > cfg.shares || cfg.shares > 255 {
      return Err(InvalidPolicy);
    }
    if |shares| < cfg.threshold {
      return Err(TooFewShares);
    }
    if |shares| > cfg.shares {
      return Err(BadShareCount);
    }
    var checked := CheckShares(shares, cfg);
    if checked.Err? {
      return Err(checked.error);
    }
    NoErrorMeansGood(shares, cfg);
    // The source also compares the number of distinct indices with the threshold here; IndexCount
    // shows that every share was counted, so that test never fires.
    var decoded, lens := checked.value.0, checked.value.1;
    LengthsAgree(shares, lens);
    if |lens| != 1 {
      return Err(BadShareCount);
    }
    var out := InterpolateBytes(decoded, shares, cfg);
    assert out == Recovered(shares, cfg).value;
    r := Ok(out);
  }

  /** The interpolation loop over the byte positions of the kept shares. */
  method InterpolateBytes(decoded: seq<(byte, seq<u16>)>, ghost shares: seq<Share>, cfg: Config)
    returns (out: seq<byte>)
    requires 1 <= cfg.threshold <= |shares| && GoodShares(shares, cfg) && SameLengths(shares)
    requires |decoded| == cfg.threshold && Kept(decoded, shares)
    ensures |out| == |Decoded(shares[0].payload).value|
    ensures forall b :: 0 <= b < |out| ==> out[b] == SecretByte(shares, cfg, b)
  {
    out := [];
    for b := 0 to |decoded[0].1|
      invariant |out| == b
      invariant forall k :: 0 <= k < b ==> out[k] == SecretByte(shares, cfg, k)
    {
      var points := GatherPoints(decoded, b);
      assert points == PointsAt(shares, cfg.threshold, b);
      PointsDistinct(shares, cfg.threshold, b, cfg);
      var secretByte := GfLagrangeOrigin(points);
      out := out + [secretByte as int % 256];
    }
  }

  method GatherPoints(decoded: seq<(byte, seq<u16>)>, b: nat) returns (points: seq<(byte, element)>)
    requires forall i :: 0 <= i < |decoded| ==> b < |decoded[i].1| && decoded[i].1[b] <= 256
    ensures |points| == |decoded|
    ensures forall i :: 0 <= i < |decoded| ==> points[i] == (decoded[i].0, decoded[i].1[b])
  {
    points := [];
    for i := 0 to |decoded|
      invariant |points| == i
      invariant forall k :: 0 <= k < i ==> points[k] == (decoded[k].0, decoded[k].1[b])
    {
      points := points + [(decoded[i].0, decoded[i].1[b])];
    }
  }

  ghost function Lengths(shares: seq<Share>): set<nat> {
    set i | 0 <= i < |shares| :: ValueCount(shares[i].payload)
  }

  lemma LengthsAgree(shares: seq<Share>, lens: set<nat>)
    requires shares != []
    requires forall i :: 0 <= i < |shares| ==> Decoded(shares[i].payload).Some?
    requires lens == Lengths(shares)
    ensures |lens| == 1 <==> SameLengths(shares)
  {
    var n := |Decoded(shares[0].payload).value|;
    assert n in lens;
    if SameLengths(shares) {
      assert lens == {n};
    }
    if |lens| == 1 {
      forall i | 0 <= i < |shares|
        ensures |Decoded(shares[i].payload).value| == n
      {
        var m := |Decoded(shares[i].payload).value|;
        assert m in lens;
        if m != n {
          assert {m, n} <= lens;
          assert |{m, n}| <= |lens| by { SubsetSize({m, n}, lens); }
        }
      }
    }
  }

  /** The checks on one share, given what the earlier shares added up to. */
  method CheckShare(share: Share, cfg: Config, bytes: nat, indices: set<byte>)
    returns (r: Result<seq<u16>, Error>)
    ensures r.Err? ==> ShareError(share, cfg, bytes, indices) == Some(r.error)
    ensures r.Ok? ==> ShareError(share, cfg, bytes, indices).None? && Decoded(share.payload) == Some(r.value)
  {
    var values := DecodeU16Array(share.payload);
    if values.None? {
      return Err(DecodeFailed);
    }
    if bytes + 2 * |values.value| > MAX_RECOVERY_BYTES {
      return Err(ResourceExhausted);
    }
    if share.index == 0 || share.index > cfg.shares || share.index in indices {
      return Err(BadShareCount);
    }
    if exists k :: 0 <= k < |values.value| && values.value[k] > 256 {
      return Err(DecodeFailed);
    }
    r := Ok(values.value);
  }

  /** The checking loop: decodes every share, keeps the first `threshold`, and collects the lengths. */
  method CheckShares(shares: seq<Share>, cfg: Config)
    returns (r: Result<(seq<(byte, seq<u16>)>, set<nat>), Error>)
    requires cfg.threshold <= |shares|
    ensures r.Err? ==> FirstError(shares, cfg) == Some(r.error)
    ensures r.Ok? ==> FirstError(shares, cfg).None?
    ensures r.Ok? ==> r.value.1 == Lengths(shares) && |r.value.0| == cfg.threshold
    ensures r.Ok? ==> Kept(r.value.0, shares)
  {
    var decoded: seq<(byte, seq<u16>)> := [];
    var lens: set<nat>, indices: set<byte> := {}, {};
    var decodedBytes := 0;
    for i := 0 to |shares|
      invariant decodedBytes >= 0 && Checked(shares, cfg, i, decoded, lens, indices, decodedBytes)
    {
      var checked := CheckShare(shares[i], cfg, decodedBytes, indices);
      if checked.Err? {
        PrefixStep(shares, cfg, i);
        ErrorSticks(shares, cfg, i + 1);
        return Err(checked.error);
      }
      var values := checked.value;
      CheckedStep(shares, cfg, i, decoded, lens, indices, decodedBytes, values);
      decodedBytes := decodedBytes + 2 * |values|;
      indices := indices + {shares[i].index};
      lens := lens + {|values|};
      if |decoded| < cfg.threshold {
        decoded := decoded + [(shares[i].index, values)];
      }
    }
    assert shares[..|shares|] == shares;
    r := Ok((decoded, lens));
  }

  /** The loop's variables after i shares, none of which had an error. */
  ghost predicate Checked(shares: seq<Share>, cfg: Config, i: nat, decoded: seq<(byte, seq<u16>)>,
                          lens: set<nat>, indices: set<byte>, bytes: nat)
  {
    && i <= |shares| && FirstError(shares[..i], cfg).None?
    && indices == Indices(shares[..i]) && lens == Lengths(shares[..i]) && bytes == DecodedBytes(shares[..i])
    && |decoded| == (if i < cfg.threshold then i else cfg.threshold)
    && Kept(decoded, shares)
  }

  lemma CheckedStep(shares: seq<Share>, cfg: Config, i: nat, decoded: seq<(byte, seq<u16>)>,
                    lens: set<nat>, indices: set<byte>, bytes: nat, values: seq<u16>)
    requires i < |shares| && Checked(shares, cfg, i, decoded, lens, indices, bytes)
    requires Decoded(shares[i].payload) == Some(values)
    requires ShareError(shares[i], cfg, bytes, indices).None?
    ensures Checked(shares, cfg, i + 1,
                    if |decoded| < cfg.threshold then decoded + [(shares[i].index, values)] else decoded,
                    lens + {|values|}, indices + {shares[i].index}, bytes + 2 * |values|)
  {
    PrefixStep(shares, cfg, i);
    if |decoded| < cfg.threshold {
      KeptMore(decoded, shares, values);
    }
  }

  lemma KeptMore(decoded: seq<(byte, seq<u16>)>, shares: seq<Share>, values: seq<u16>)
    requires Kept(decoded, shares) && |decoded| < |shares|
    requires Decoded(shares[|decoded|].payload) == Some(values)
    ensures Kept(decoded + [(shares[|decoded|].index, values)], shares)
  {
  }

  /** The kept values are those of the leading shares. */
  ghost predicate Kept(decoded: seq<(byte, seq<u16>)>, shares: seq<Share>) {
    |decoded| <= |shares|
    && forall k :: 0 <= k < |decoded| ==>
         Decoded(shares[k].payload) == Some(decoded[k].1) && decoded[k].0 == shares[k].index
  }

  lemma PrefixStep(shares: seq<Share>, cfg: Config, i: nat)
    requires i < |shares| && FirstError(shares[..i], cfg).None?
    ensures FirstError(shares[..i + 1], cfg)
         == ShareError(shares[i], cfg, DecodedBytes(shares[..i]), Indices(shares[..i]))
    ensures DecodedBytes(shares[..i + 1]) == DecodedBytes(shares[..i]) + 2 * ValueCount(shares[i].payload)
    ensures Indices(shares[..i + 1]) == Indices(shares[..i]) + {shares[i].index}
    ensures Lengths(shares[..i + 1]) == Lengths(shares[..i]) + {ValueCount(shares[i].payload)}
  {
    assert shares[..i + 1][..i] == shares[..i];
  }

  lemma {:induction false} ErrorSticks(shares: seq<Share>, cfg: Config, n: nat)
    requires n <= |shares| && FirstError(shares[..n], cfg).Some?
    ensures FirstError(shares, cfg) == FirstError(shares[..n], cfg)
    decreases |shares| - n
  {
    if n == |shares| {
      assert shares[..n] == shares;
    } else {
      assert shares[..n + 1][..n] == shares[..n];
      ErrorSticks(shares, cfg, n + 1);
    }
  }

  // ---------- exactly when recovery succeeds ----------

  /** Nothing is wrong with these shares one by one, and together they are within the recovery limit. */
  ghost predicate Clean(shares: seq<Share>, cfg: Config) {
    GoodShares(shares, cfg) && DecodedBytes(shares) <= MAX_RECOVERY_BYTES
  }

  ghost predicate OneLength(shares: seq<Share>) {
    forall i, j :: 0 <= i < |shares| && 0 <= j < |shares| ==>
      ValueCount(shares[i].payload) == ValueCount(shares[j].payload)
  }

  /** Share i is the first one with a fault, and e is what its first fault is reported as. */
  ghost predicate Blames(shares: seq<Share>, cfg: Config, i: int, e: Error) {
    && 0 <= i < |shares| && Clean(shares[..i], cfg)
    && var share := shares[i];
       if Decoded(share.payload).None? then e == DecodeFailed
       else if DecodedBytes(shares[..i + 1]) > MAX_RECOVERY_BYTES then e == ResourceExhausted
       else if !(1 <= share.index <= cfg.shares) || (exists k :: 0 <= k < i && shares[k].index == share.index)
       then e == BadShareCount
       else e == DecodeFailed && exists k :: 0 <= k < |Decoded(share.payload).value|
                                             && Decoded(share.payload).value[k] > 256
  }

  lemma {:induction false} BytesGrow(shares: seq<Share>, n: nat)
    requires n <= |shares|
    ensures DecodedBytes(shares[..n]) <= DecodedBytes(shares)
    decreases |shares|
  {
    if n == |shares| {
      assert shares[..n] == shares;
    } else {
      var before := shares[..|shares| - 1];
      assert before[..n] == shares[..n];
      BytesGrow(before, n);
    }
  }

  /** The last share of a list, given that those before it are clean. */
  lemma LastShare(shares: seq<Share>, cfg: Config)
    requires shares != [] && Clean(shares[..|shares| - 1], cfg)
    ensures var n := |shares| - 1;
            var e := ShareError(shares[n], cfg, DecodedBytes(shares[..n]), Indices(shares[..n]));
            && (e.None? <==> Clean(shares, cfg))
            && (forall x :: Blames(shares, cfg, n, x) <==> e == Some(x))
  {
    var n := |shares| - 1;
    var before, last := shares[..n], shares[n];
    assert shares[..n + 1] == shares;
    assert last.index in Indices(before) <==> exists k :: 0 <= k < n && shares[k].index == last.index by {
      assert forall k :: 0 <= k < n ==> before[k] == shares[k];
    }
    LastIsGood(shares, cfg);
  }

  lemma LastIsGood(shares: seq<Share>, cfg: Config)
    requires shares != [] && GoodShares(shares[..|shares| - 1], cfg)
    ensures var n := |shares| - 1;
            GoodShares(shares, cfg) <==>
              && Decoded(shares[n].payload).Some? && 1 <= shares[n].index <= cfg.shares
              && (forall k :: 0 <= k < |Decoded(shares[n].payload).value| ==>
                    Decoded(shares[n].payload).value[k] <= 256)
              && (forall k :: 0 <= k < n ==> shares[k].index != shares[n].index)
  {
    var n := |shares| - 1;
    assert forall k :: 0 <= k < n ==> shares[..n][k] == shares[k];
  }

  lemma {:induction false} GoodPrefix(shares: seq<Share>, cfg: Config, n: nat)
    requires n <= |shares| && Clean(shares, cfg)
    ensures Clean(shares[..n], cfg)
  {
    BytesGrow(shares, n);
    assert forall k :: 0 <= k < n ==> shares[..n][k] == shares[k];
  }

  /** The checking loop passes exactly the clean lists, and otherwise reports the first fault of the first share. */
  lemma {:induction false} ErrorExactlyWhen(shares: seq<Share>, cfg: Config)
    ensures FirstError(shares, cfg).None? <==> Clean(shares, cfg)
    ensures forall i, e :: Blames(shares, cfg, i, e) ==> FirstError(shares, cfg) == Some(e)
    ensures !Clean(shares, cfg) ==> exists i, e :: Blames(shares, cfg, i, e)
  {
    if shares != [] {
      var n := |shares| - 1;
      ErrorExactlyWhen(shares[..n], cfg);
      if Clean(shares[..n], cfg) {
        LastShare(shares, cfg);
        BlamedEarlier(shares, cfg);
      } else {
        NotClean(shares, cfg);
        var i, e :| Blames(shares[..n], cfg, i, e);
        BlameStays(shares, cfg, i, e);
        BlamedEarlier(shares, cfg);
      }
    }
  }

  lemma NotClean(shares: seq<Share>, cfg: Config)
    requires shares != [] && !Clean(shares[..|shares| - 1], cfg)
    ensures !Clean(shares, cfg)
  {
    if Clean(shares, cfg) {
      GoodPrefix(shares, cfg, |shares| - 1);
    }
  }

  lemma BlameStays(shares: seq<Share>, cfg: Config, i: int, e: Error)
    requires shares != [] && 0 <= i < |shares| - 1
    ensures Blames(shares[..|shares| - 1], cfg, i, e) <==> Blames(shares, cfg, i, e)
  {
    var before := shares[..|shares| - 1];
    assert before[..i] == shares[..i] && before[..i + 1] == shares[..i + 1] && before[i] == shares[i];
    assert forall k :: 0 <= k < i ==> before[k] == shares[k];
  }

  lemma BlamedEarlier(shares: seq<Share>, cfg: Config)
    requires shares != []
    ensures forall i, e :: Blames(shares, cfg, i, e) && i < |shares| - 1 ==> Blames(shares[..|shares| - 1], cfg, i, e)
    ensures forall i, e :: Blames(shares, cfg, i, e) && i == |shares| - 1 ==> Clean(shares[..|shares| - 1], cfg)
  {
    forall i, e | Blames(shares, cfg, i, e) && i < |shares| - 1
      ensures Blames(shares[..|shares| - 1], cfg, i, e)
    {
      BlameStays(shares, cfg, i, e);
    }
  }

  /** The secret's length is that of every payload. */
  ghost predicate RightLength(shares: seq<Share>, secret: seq<byte>) {
    forall i :: 0 <= i < |shares| ==> ValueCount(shares[i].payload) == |secret|
  }

  /** c is a polynomial of the policy's degree through the b-th values of the leading shares. */
  ghost predicate Through(c: seq<int>, shares: seq<Share>, cfg: Config, b: nat) {
    && |c| == cfg.threshold <= |shares|
    && forall i :: 0 <= i < cfg.threshold ==>
         && ValueCount(shares[i].payload) > b
         && Eval(c, shares[i].index) % 257 == Decoded(shares[i].payload).value[b]
  }

  /**
   What recovery answers, for every list of shares: with splitting enabled it succeeds if and only if the policy
   is valid, the number of shares fits it, and the shares are clean and of one length. Each failure has
   its own error, in this order. Each byte of a recovered secret is the value at 0, cast to a byte, of any
   polynomial of the policy's degree through the leading shares.
   */
  lemma RecoveryExactlyWhen(shares: seq<Share>, cfg: Config)
    ensures !cfg.enabled ==> Recovered(shares, cfg) == Ok([])
    ensures cfg.enabled ==>
            var r, valid := Recovered(shares, cfg), 1 <= cfg.threshold <= cfg.shares <= 255;
            && (r.Ok? <==> valid && cfg.threshold <= |shares| <= cfg.shares && Clean(shares, cfg) && OneLength(shares))
            && (!valid ==> r == Err(InvalidPolicy))
            && (valid && |shares| < cfg.threshold ==> r == Err(TooFewShares))
            && (valid && |shares| > cfg.shares ==> r == Err(BadShareCount))
            && (valid && cfg.threshold <= |shares| <= cfg.shares ==>
                  && (forall i, e :: Blames(shares, cfg, i, e) ==> r == Err(e))
                  && (!Clean(shares, cfg) ==> exists i, e :: Blames(shares, cfg, i, e))
                  && (Clean(shares, cfg) && !OneLength(shares) ==> r == Err(BadShareCount)))
            && (r.Ok? ==>
                  && RightLength(shares, r.value)
                  && forall b, c :: 0 <= b < |r.value| && Through(c, shares, cfg, b) ==> r.value[b] == c[0] % 257 % 256)
  {
    ErrorExactlyWhen(shares, cfg);
    if FirstError(shares, cfg).None? {
      NoErrorMeansGood(shares, cfg);
    }
    var r := Recovered(shares, cfg);
    if cfg.enabled && r.Ok? {
      forall b, c | 0 <= b < |r.value| && Through(c, shares, cfg, b)
        ensures r.value[b] == c[0] % 257 % 256
      {
        ByteOfAnyPolynomial(shares, cfg, b, c);
      }
    }
  }

  lemma ByteOfAnyPolynomial(shares: seq<Share>, cfg: Config, b: nat, c: seq<int>)
    requires 1 <= cfg.threshold <= |shares| && GoodShares(shares, cfg) && SameLengths(shares)
    requires b < |Decoded(shares[0].payload).value| && Through(c, shares, cfg, b)
    ensures SecretByte(shares, cfg, b) == c[0] % 257 % 256
  {
    PointsDistinct(shares, cfg.threshold, b, cfg);
    var points := PointsAt(shares, cfg.threshold, b);
    forall i | 0 <= i < |points|
      ensures Cong(Eval(c, Xs(points)[i]), Ys(points)[i])
    {
      assert Eval(c, shares[i].index) % 257 == Ys(points)[i];
      CongMod(Eval(c, shares[i].index));
    }
    OriginUnique(c, Xs(points), Ys(points));
  }

  // ---------- the round trip ----------

  /** Distinct shares of one split, in any order. */
  ghost predicate Genuine(picked: seq<Share>, secret: seq<byte>, cfg: Config, draws: seq<seq<element>>)
    requires |draws| == |secret|
  {
    && (forall i :: 0 <= i < |picked| ==>
          1 <= picked[i].index <= cfg.shares && picked[i] == ShareAt(secret, draws, picked[i].index))
    && (forall i, j :: 0 <= i < j < |picked| ==> picked[i].index != picked[j].index)
  }

  /**
   Any threshold-or-more genuine shares, in any order, recover exactly the secret, unless together they
   exceed the 8 MiB recovery limit, which is the one way recovery of genuine shares fails.
   */
  lemma RoundTrip(secret: seq<byte>, cfg: Config, draws: seq<seq<element>>, picked: seq<Share>)
    requires cfg.enabled && ValidPolicy(cfg) && |secret| <= MAX_SECRET_BYTES
    requires ValidDraws(draws, secret, cfg) && Genuine(picked, secret, cfg, draws)
    requires |picked| >= cfg.threshold
    ensures Recovered(picked, cfg)
         == if |picked| * (2 * |secret|) <= MAX_RECOVERY_BYTES then Ok(secret) else Err(ResourceExhausted)
  {
    AtMostAllShares(picked, secret, cfg, draws);
    GenuineCheck(picked, secret, cfg, draws);
    if |picked| * (2 * |secret|) <= MAX_RECOVERY_BYTES {
      NoErrorMeansGood(picked, cfg);
      forall i | 0 <= i < |picked|
        ensures Decoded(picked[i].payload) == Some(Row(secret, draws, picked[i].index))
      {
        CodecRoundTrip(Row(secret, draws, picked[i].index));
      }
      forall b | 0 <= b < |secret|
        ensures SecretByte(picked, cfg, b) == secret[b]
      {
        GenuineByte(secret, cfg, draws, picked, b);
      }
      assert Recovered(picked, cfg).value == secret;
    }
  }

  lemma {:induction false} GenuineCheck(picked: seq<Share>, secret: seq<byte>, cfg: Config, draws: seq<seq<element>>)
    requires |draws| == |secret| <= MAX_SECRET_BYTES && Genuine(picked, secret, cfg, draws)
    ensures DecodedBytes(picked) == |picked| * (2 * |secret|)
    ensures FirstError(picked, cfg)
         == if |picked| * (2 * |secret|) <= MAX_RECOVERY_BYTES then None else Some(ResourceExhausted)
  {
    if picked != [] {
      var n := |picked| - 1;
      var before, last := picked[..n], picked[n];
      GenuineCheck(before, secret, cfg, draws);
      assert last.index !in Indices(before);
      GenuineShare(last, secret, cfg, draws, DecodedBytes(before), Indices(before));
      NextMultiple(n, 2 * |secret|);
    }
  }

  lemma GenuineShare(share: Share, secret: seq<byte>, cfg: Config, draws: seq<seq<element>>,
                     bytes: nat, indices: set<byte>)
    requires |draws| == |secret| <= MAX_SECRET_BYTES
    requires 1 <= share.index <= cfg.shares && share == ShareAt(secret, draws, share.index)
    requires share.index !in indices
    ensures ValueCount(share.payload) == |secret|
    ensures ShareError(share, cfg, bytes, indices)
         == if bytes + 2 * |secret| <= MAX_RECOVERY_BYTES then None else Some(ResourceExhausted)
  {
    CodecRoundTrip(Row(secret, draws, share.index));
  }

  lemma NextMultiple(n: nat, width: nat)
    ensures (n + 1) * width == n * width + width && n * width >= 0
  {
  }

  lemma AtMostAllShares(picked: seq<Share>, secret: seq<byte>, cfg: Config, draws: seq<seq<element>>)
    requires |draws| == |secret| && cfg.shares <= 255 && Genuine(picked, secret, cfg, draws)
    ensures |picked| <= cfg.shares
  {
    IndexCount(picked);
    BoundedCount(Indices(picked), cfg.shares);
  }

  lemma {:induction false} IndexCount(picked: seq<Share>)
    requires forall i, j :: 0 <= i < j < |picked| ==> picked[i].index != picked[j].index
    ensures |Indices(picked)| == |picked|
  {
    if picked != [] {
      var n := |picked| - 1;
      IndexCount(picked[..n]);
      assert Indices(picked) == Indices(picked[..n]) + {picked[n].index};
    }
  }

  lemma {:induction false} BoundedCount(indices: set<byte>, n: nat)
    requires n <= 255 && forall x :: x in indices ==> 1 <= x <= n
    ensures |indices| <= n
  {
    if n == 0 {
      assert indices == {};
    } else {
      BoundedCount(indices - {n}, n - 1);
    }
  }

  lemma GenuineByte(secret: seq<byte>, cfg: Config, draws: seq<seq<element>>, picked: seq<Share>, b: nat)
    requires ValidPolicy(cfg) && ValidDraws(draws, secret, cfg) && b < |secret|
    requires cfg.threshold <= |picked| && GoodShares(picked, cfg) && SameLengths(picked)
    requires forall i :: 0 <= i < |picked| ==>
               Decoded(picked[i].payload) == Some(Row(secret, draws, picked[i].index))
    requires b < |Decoded(picked[0].payload).value|
    ensures SecretByte(picked, cfg, b) == secret[b]
  {
    PointsDistinct(picked, cfg.threshold, b, cfg);
    var points := PointsAt(picked, cfg.threshold, b);
    GenuinePoints(secret, draws, points, b);
    ByteOfOrigin(secret, draws, points, b);
  }

  lemma ByteOfOrigin(secret: seq<byte>, draws: seq<seq<element>>, points: seq<(byte, element)>, b: nat)
    requires |draws| == |secret| && b < |secret| && DistinctResidues(Xs(points))
    requires Fits([secret[b]] + draws[b], Xs(points), Ys(points)) && points != []
    ensures Origin(Xs(points), Ys(points)) == secret[b]
  {
    OriginUnique([secret[b]] + draws[b], Xs(points), Ys(points));
  }

  lemma GenuinePoints(secret: seq<byte>, draws: seq<seq<element>>, points: seq<(byte, element)>, b: nat)
    requires |draws| == |secret| && b < |secret| && |points| == 1 + |draws[b]|
    requires forall i :: 0 <= i < |points| ==> points[i].1 == Row(secret, draws, points[i].0)[b]
    ensures Fits([secret[b]] + draws[b], Xs(points), Ys(points))
  {
    var c: seq<int> := [secret[b]] + draws[b];
    forall i | 0 <= i < |points|
      ensures Cong(Eval(c, points[i].0), points[i].1)
    {
      assert points[i].1 == Eval(c, points[i].0) % 257;
      CongMod(Eval(c, points[i].0));
    }
  }

  /** Splitting accepts secrets that no set of its own shares can recover; this is exactly when. */
  lemma RecoverableExactlyWhen(secret: seq<byte>, cfg: Config, draws: seq<seq<element>>)
    requires cfg.enabled && ValidPolicy(cfg) && |secret| <= MAX_SECRET_BYTES
    requires ValidDraws(draws, secret, cfg)
    ensures (exists picked :: |picked| >= cfg.threshold && Genuine(picked, secret, cfg, draws)
                              && Recovered(picked, cfg) == Ok(secret))
       <==> cfg.threshold * (2 * |secret|) <= MAX_RECOVERY_BYTES
  {
    if cfg.threshold * (2 * |secret|) <= MAX_RECOVERY_BYTES {
      var picked := seq(cfg.threshold, i requires 0 <= i < cfg.threshold => ShareAt(secret, draws, i + 1));
      assert Genuine(picked, secret, cfg, draws);
      RoundTrip(secret, cfg, draws, picked);
    }
    forall picked | |picked| >= cfg.threshold && Genuine(picked, secret, cfg, draws)
                    && Recovered(picked, cfg) == Ok(secret)
      ensures cfg.threshold * (2 * |secret|) <= MAX_RECOVERY_BYTES
    {
      RoundTrip(secret, cfg, draws, picked);
      FewerMultiples(cfg.threshold, |picked|, 2 * |secret|);
    }
  }

  /** Every secret of the largest accepted size, split with threshold 255, is lost for good. */
  lemma LargestSecretIsLost(secret: seq<byte>, draws: seq<seq<element>>, picked: seq<Share>)
    requires |secret| == MAX_SECRET_BYTES && ValidDraws(draws, secret, Config(true, 255, 255))
    requires |picked| >= 255 && Genuine(picked, secret, Config(true, 255, 255), draws)
    ensures Recovered(picked, Config(true, 255, 255)) == Err(ResourceExhausted)
  {
    RoundTrip(secret, Config(true, 255, 255), draws, picked);
    FewerMultiples(255, |picked|, 2 * MAX_SECRET_BYTES);
  }

  lemma FewerMultiples(m: nat, n: nat, width: nat)
    requires m <= n
    ensures m * width <= n * width
  {
  }
}
