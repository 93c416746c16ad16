# A verified model of the SHPH core protocols

SHPH is an encrypted transport with a hybrid post-quantum handshake, an HTTP edge that admits clients by
signed single-use capabilities, and tooling that measures how detectable its traffic is. This project
models the parts of it that rest on arithmetic, on state kept over a whole run, or on several functions
agreeing with each other, and proves what those parts are for.

| module | what it models |
|---|---|
| `Prelude`, `ByteCodec`, `Words` | options and results, machine integers with explicit saturation and truncation, big-endian integers, 64-bit shifts and masks as functions on numbers |
| `Gf257`, `GfArithmetic`, `Shamir` | polynomials over GF(257), the program's field arithmetic, and secret splitting and recovery byte by byte with the share codec and limits |
| `RateLimiter`, `ReplayCache`, `SingleUse`, `Admission` | the lock-free limiter over all interleavings, the replay cache as map plus heap, single use over arbitrary clock readings, and the two-phase admission protocol with its capacity rule |
| `ReplayWindow`, `SessionChannel` | the sliding bitmap of accepted nonces and the two session ciphers around it |
| `Transcript`, `Handshake` | the authenticated byte strings, both sides of the handshake, key agreement and binding |
| `Ranking`, `Metrics`, `Calibration` | tie-aware ROC and precision-recall metrics and threshold selection in exact arithmetic |
| `Sessionizer` | the capture converter's one-pass loop against group-then-cut |
| `Cover`, `Cookie` | the cover-traffic scheduler and the rotating pre-authentication cookies over whole runs |

Code that changes state step by step is a class or a method with loops, proved against functions on values;
the theorems are about those functions. Verify everything with `dafny verify dfyconfig.toml`.

## Conventions

- Cryptographic primitives are function-valued parameters. Their laws are hypotheses of the lemmas that use
  them (`Lawful`, `Correct`, `Unforged`, `Ideal`, `NoCollision`); nothing is postulated. `LawfulExists` shows that the
  handshake's laws are consistent, and collision hypotheses speak only of the inputs compared.
- Base64 text is represented by what it decodes to. Random draws, fresh keys and clock readings are parameters.
- Integers are unbounded in Dafny, so every saturating, truncating or wrapping operation is written out.

## Findings

Properties that fail on part of their domain are stated with the exact condition:

- Splitting accepts policies whose own shares can never be recombined, because recovery stops at 8 MiB
  (`Shamir.RoundTrip`, `Shamir.RecoverableExactlyWhen`, `Shamir.LargestSecretIsLost`).
- The limiter's packed window keeps 44 bits. Above that the per-window limit is void
  (`RateLimiter.BoundExactlyWhen`).
- The capacity rule holds for wall clocks at or after the epoch. `prepare` reads an earlier clock as 0, and
  then the cache may fill up with live nonces; the capacity that is needed and enough is known exactly for
  every clock offset (`Admission.CapacityExactlyWhen`), and shows that the extra second in the rule is needed
  exactly because the two clocks' seconds need not line up.
- The default front door is built without the capacity check. It is safe exactly when 256 times the window
  budget is at most 131072, which a lifetime of 3600 seconds exceeds (`Admission.DefaultDoorExactlyWhen`).
- A capability can be accepted twice in some run over given commit-time clock readings exactly when one
  reading lies above both an earlier and a later one and the cache has room for two entries
  (`SingleUse.NeverReusedExactlyWhen`). Readings that do not go back are safe whatever the preparations read.
- Two sides whose identity keys are equal derive keys that do not cross, unless they are equal in every field
  (`Handshake.ClassicalAgreement`, `Handshake.HybridAgreement`, from `Handshake.SameExchange`).
- A cancellation reported to the cover scheduler takes effect exactly when its clock reading is not behind any
  earlier one, or nothing was left to release (`Cover.CancellationWorksExactlyWhen`).
- A cover policy whose interval equals its idle timeout is accepted and never releases a byte
  (`Cover.ReleasesExactlyWhen`).

## Model

| member | source | states |
|---|---|---|
| `Gf257.RootBound` | shph-core/src/roadmap.rs:1104-1120 | a polynomial with as many distinct roots as coefficients is zero mod 257, the fact interpolation rests on |
| `Gf257.AgreeOnPoints` | shph-core/src/roadmap.rs:1104-1120 | two polynomials that agree on as many distinct points as they have coefficients have the same coefficients mod 257 |
| `Gf257.InterpolationAtOrigin` | shph-core/src/roadmap.rs:1104-1120 | the Lagrange sum at 0 is the constant coefficient of every polynomial through the points |
| `Gf257.InvUnique` | shph-core/src/roadmap.rs:1080-1102 | each of 1..256 has exactly one inverse in 0..256 mod 257 |
| `GfArithmetic.GfEval` | shph-core/src/roadmap.rs:1072-1078 | the reversed Horner loop returns the polynomial's value mod 257 |
| `GfArithmetic.GfInv` | shph-core/src/roadmap.rs:1080-1102 | extended Euclid terminates and returns the unique inverse for 1..256, and 0 for 0 |
| `GfArithmetic.RowBounds` | shph-core/src/roadmap.rs:1080-1102 | after any number of Euclid steps the coefficients stay within 257 in absolute value, so the signed casts are exact |
| `GfArithmetic.LagrangeFactors` | shph-core/src/roadmap.rs:1106-1115 | the inner loop leaves the products of all other points' distances to 0 and to the i-th point, mod 257 |
| `GfArithmetic.GfLagrangeOrigin` | shph-core/src/roadmap.rs:1104-1120 | returns the Lagrange sum at 0 for every list of points, and for distinct points the value at 0 of the one polynomial of matching degree through them |
| `GfArithmetic.OriginUnique` | shph-core/src/roadmap.rs:1104-1120 | every polynomial that fits the points has that value at 0, so it does not depend on which is chosen |
| `GfArithmetic.InterpolantExists` | shph-core/src/roadmap.rs:1104-1120 | some polynomial fits any values at distinct points |
| `GfArithmetic.ExactlyOneExplanation` | shph-core/src/roadmap.rs:620-632 | secrecy as counting: for any candidate secret and any values at threshold - 1 nonzero distinct points, exactly one choice of the random coefficients produces them |
| `Shamir.SampleFieldElement` | shph-core/src/roadmap.rs:1062-1070 | returns the residue of the first generator output below the rejection limit, and nothing if all are above it |
| `Shamir.UniformDraws` | shph-core/src/roadmap.rs:1062-1070 | every field element has equally many accepted generator outputs |
| `Shamir.EncodeU16Array` | shph-core/src/roadmap.rs:1030-1036 | the loop produces the little-endian bytes of the values |
| `Shamir.DecodeU16Array` | shph-core/src/roadmap.rs:1038-1060 | decodes even-length payloads within both limits and refuses all others |
| `Shamir.CodecRoundTrip` | shph-core/src/roadmap.rs:1030-1060 | decoding undoes encoding exactly up to 131072 values and refuses anything longer |
| `Shamir.DecodedExactlyWhen` | shph-core/src/roadmap.rs:1038-1060 | a payload decodes exactly if it is base64 of an even number of bytes within the limit, each pair giving one value, low byte first |
| `Shamir.LeBytesMean` | shph-core/src/roadmap.rs:1030-1036 | the two bytes written for a value are its low and its high byte |
| `Shamir.SplitSecret` | shph-core/src/roadmap.rs:607-643 | share i holds every secret byte's polynomial evaluated at i + 1; disabled, invalid-policy and over-long cases as in the code |
| `Shamir.CheckShare` | shph-core/src/roadmap.rs:662-684 | one share's checks in order: decoding, running size, index range, repeated index, field range |
| `Shamir.CheckShares` | shph-core/src/roadmap.rs:657-688 | returns the first error in share order, or the leading threshold shares' values and the set of lengths |
| `Shamir.RecoverSecret` | shph-core/src/roadmap.rs:645-711 | the checks, the kept shares and the interpolation loop compute the recovery that `Shamir.RecoveryExactlyWhen` characterizes |
| `Shamir.RecoveryExactlyWhen` | shph-core/src/roadmap.rs:645-711 | for every list of shares: recovery succeeds if and only if the policy is valid, the number of shares fits it, and the shares are clean, within 8 MiB and of one length; which error each failure gives, in order; and every recovered byte is the value at 0 of any polynomial through the leading shares |
| `Shamir.ErrorExactlyWhen` | shph-core/src/roadmap.rs:662-688 | the checking loop passes exactly the clean lists and otherwise reports the first fault of the first faulty share |
| `Shamir.NoErrorMeansGood` | shph-core/src/roadmap.rs:662-688 | shares that pass the loop have distinct indices in range and field elements only |
| `Shamir.IndexCount` | shph-core/src/roadmap.rs:689-691 | distinct indices are as many as the shares, so the later count check never fires |
| `Shamir.RoundTrip` | shph-core/src/roadmap.rs:607-711 | threshold or more genuine distinct shares in any order recover exactly the secret when shares x 2 x length is at most 8 MiB, and report exhaustion otherwise |
| `Shamir.RecoverableExactlyWhen` | shph-core/src/roadmap.rs:607-711 | some set of a split's own shares recovers the secret if and only if threshold x 2 x length is at most 8 MiB |
| `Shamir.LargestSecretIsLost` | shph-core/src/roadmap.rs:607-711 | every secret of 131072 bytes split with threshold 255 is accepted and cannot be recovered from its own shares |
| `RateLimiter.Packing` | shph-edge/src/frontdoor.rs:38-60 | an installed word is larger, carries the caller's window, and its count neither overflows into the window nor skips |
| `RateLimiter.StepKeepsInv` | shph-edge/src/frontdoor.rs:38-60 | every load, exchange or spurious failure of any thread keeps: the packed count is the number admitted in the packed window and later windows are empty |
| `RateLimiter.WindowBound` | shph-edge/src/frontdoor.rs:13-61 | over every interleaving no window admits more than the limit |
| `RateLimiter.WordIncreases` | shph-edge/src/frontdoor.rs:38-60 | no step decreases the packed word and every admission strictly increases it |
| `RateLimiter.RefusalsAreHonest` | shph-edge/src/frontdoor.rs:44-58 | over every run, a call that ends unadmitted ends because a later window is current or its own has admitted the whole limit; a lost or spurious exchange never ends a call |
| `RateLimiter.RetrySettles` | shph-edge/src/frontdoor.rs:51-58 | whatever word a call had seen, two undisturbed exchanges settle it: admitted exactly if its window is open |
| `RateLimiter.Progress` | shph-edge/src/frontdoor.rs:38-60 | an undisturbed load and exchange admit exactly the calls of open windows |
| `RateLimiter.LostBitsAdmitAll` | shph-edge/src/frontdoor.rs:38-60 | for every window above 44 bits, any number of calls in a row is admitted |
| `RateLimiter.BoundExactlyWhen` | shph-edge/src/frontdoor.rs:13-61 | the limit holds in every run over windows up to a top if and only if the top fits 44 bits |
| `ReplayCache.AcceptedExactlyWhile` | shph-edge/src/capability.rs:257-282 | claims verify exactly in the seconds their skewed lifetime covers, and verify and commit in the same second end in acceptance or a replay refusal, except at the last second a clock can read |
| `ReplayCache.RefusedExactlyWhen` | shph-edge/src/capability.rs:227-282 | which refusal each fault of a token gets, in order |
| `ReplayCache.RetentionBound` | shph-edge/src/capability.rs:257-282 | a capability verified now expires at most lifetime + 2 x skew seconds later |
| `ReplayCache.LiveIsKept` | shph-edge/src/capability.rs:318-338 | no insertion drops or re-accepts a live nonce |
| `ReplayCache.NewCache` | shph-edge/src/capability.rs:307-316 | refuses exactly the capacities outside 1..1000000, otherwise returns an empty consistent cache |
| `ReplayCache.Cache.Insert` | shph-edge/src/capability.rs:318-338 | keeps the heap equal to the map's pairs once each and the size within capacity, for any clock, and does what insertion means on values |
| `ReplayCache.Cache.Consume` | shph-edge/src/capability.rs:340-355 | re-checks the validity window at commit time, then inserts or reports a replay |
| `ReplayCache.Cache.Prune` | shph-edge/src/capability.rs:365-375 | popping the heap removes exactly the expired entries from the map |
| `ReplayCache.PopExpired` | shph-edge/src/capability.rs:365-375 | the least heap pair is in the map, and removing both keeps them in agreement |
| `Admission.CheckExactlyWhen` | shph-edge/src/config.rs:136-150 | the saturating check is exactly capacity >= rate x (lifetime + 2 x skew + 1) |
| `Admission.BuildersExactlyWhen` | shph-edge/src/frontdoor.rs:156-192 | both builders and the limits check accept exactly the values in range that satisfy the inequality, and change only their own value |
| `SingleUse.NeverReusedExactlyWhen` | shph-edge/src/capability.rs:318-375 | for every capacity and every list of commit-time clock readings: no capability is accepted twice in any run over them if and only if no reading is above an earlier and a later one, or the capacity is at most 1 |
| `SingleUse.ReuseMeansPeak` | shph-edge/src/capability.rs:340-375 | two acceptances of one capability imply such readings, and room for two entries |
| `SingleUse.PeakReuses` | shph-edge/src/capability.rs:318-375 | any three such readings let a capability be accepted twice, for every capacity from 2 on |
| `SingleUse.CachedUntilExpiry` | shph-edge/src/capability.rs:318-375 | an accepted capability stays cached until some commit reads a clock at or after its expiry |
| `SingleUse.TokensUsedOnce` | shph-edge/src/capability.rs:227-355 | whatever tokens are presented and whatever clocks their preparations read, commits under readings that do not go back accept no claims twice |
| `SingleUse.ClockStepBackReuses` | shph-edge/src/capability.rs:318-375 | readings 5, 20, 5 allow a reuse with two entries; readings 5, 5, 20 do not |
| `Admission.AdmittedOnce` | shph-edge/src/frontdoor.rs:214-282 | in every run of the front door, interleaving prepares with delayed commits, no claims are accepted twice |
| `Admission.OnlyEligible` | shph-edge/src/frontdoor.rs:214-282 | in every run, whatever was verified or accepted carried claims addressed to this door, within the permitted lifetime, and valid when its call was prepared |
| `Admission.PreparedExactlyWhen` | shph-edge/src/frontdoor.rs:239-265 | after every run, a preparation adds a call exactly if its window has room, and the call is pending with the token's claims exactly if the token is signed and eligible |
| `Admission.LiveWindows` | shph-edge/src/frontdoor.rs:239-249 | the calls whose capabilities can be live at one wall second lie within the budgeted number of limiter windows |
| `Admission.ManyWindows` | shph-edge/src/frontdoor.rs:38-60 | m consecutive windows admit at most m times the limit |
| `Admission.RoomAtCommit` | shph-edge/src/frontdoor.rs:267-282 | with enough capacity the live entries are fewer than the capacity when a verified fresh capability is committed |
| `Admission.ReplayOnlyForLiveNonces` | shph-edge/src/frontdoor.rs:214-282 | the capacity theorem: after every run of a checked front door, a commit answers as a cache without a limit would, so a replay refusal means a live nonce |
| `Admission.MoreCapacityChangesNothing` | shph-edge/src/frontdoor.rs:156-170 | raising a sufficient capacity changes no state of any run |
| `Admission.CapacityExactlyWhen` | shph-edge/src/frontdoor.rs:214-282 | for every clock offset, no run ever refuses a fresh nonce if and only if capacity >= rate x the exact window budget |
| `Admission.FullCache` | shph-edge/src/frontdoor.rs:214-282 | below that budget, a run that fills the cache with live nonces and refuses a fresh one |
| `Admission.DefaultDoorExactlyWhen` | shph-edge/src/frontdoor.rs:133-154 | the default front door never fills if and only if 256 x the window budget is at most 131072, and it can fill for every retention above 512 seconds |
| `Admission.PreEpochClockFillsCache` | shph-edge/src/frontdoor.rs:246-249 | a checked front door that never fills with its clock at the epoch and does fill three seconds before it |
| `Words.BitShl` | shph-core/src/crypto.rs:566-576 | the bits of a truncating left shift |
| `Words.TestMask` | shph-core/src/crypto.rs:539-541 | masking with 1 << i reads bit i |
| `ReplayWindow.ShiftDown` | shph-core/src/crypto.rs:554-578 | for every word count and gap, bit j is set afterwards exactly when j >= gap and bit j - gap was set, in the aligned and the carrying branch |
| `ReplayWindow.MovedBit` | shph-core/src/crypto.rs:566-576 | the low and high halves of a shifted word are together that word's bits, each moved by the gap |
| `ReplayWindow.SetBit` | shph-core/src/crypto.rs:539-545 | sets exactly one bit of the bitmap |
| `ReplayWindow.Advance` | shph-core/src/crypto.rs:514-529 | moving the top up by a gap leaves exactly the old bits that stay in the window, moved, plus the old top's own bit |
| `ReplayWindow.Window.constructor` | shph-core/src/crypto.rs:488-498 | the width is the least multiple of 64 that covers the request clamped to 64..65536, with nothing accepted yet |
| `ReplayWindow.Window.Clone` | shph-core/src/crypto.rs:468-475 | a copy with the same history |
| `ReplayWindow.Window.CheckAndInsert` | shph-core/src/crypto.rs:502-550 | accepts n exactly when n was never accepted and no accepted nonce is more than the width above it; the bitmap agrees with the set of all accepted nonces |
| `SessionChannel.NonceRoundTrip` | shph-core/src/crypto.rs:446-458 | the receiver reads back the counter the sender wrote |
| `SessionChannel.NonceExactlyWhen` | shph-core/src/crypto.rs:446-458 | a 12-byte prefix is read as a counter exactly if it is the sender's form of that counter |
| `SessionChannel.ReceivedExactlyWhen` | shph-core/src/crypto.rs:398-441 | what the receiver answers to every frame, and that its state changes only on delivery |
| `ByteCodec.BigEndianDigit` | shph-core/src/crypto.rs:339-340 | the counter's most significant byte comes first |
| `SessionChannel.SendCipher.Encrypt` | shph-core/src/crypto.rs:325-350 | numbers frames consecutively and fails closed at the nonce limit without changing state |
| `SessionChannel.ReceiveCipher.constructor` | shph-core/src/crypto.rs:374-379 | a strict receiver with nothing received |
| `SessionChannel.ReceiveCipher.WithReplayWindow` | shph-core/src/crypto.rs:383-388 | a windowed receiver of exactly the clamped and rounded width, with nothing received |
| `SessionChannel.ReceiveCipher.Decrypt` | shph-core/src/crypto.rs:398-441 | commits the new replay state only after authentication; every refusal leaves the state as it was |
| `SessionChannel.RejectedFramesLeaveNoTrace` | shph-core/src/crypto.rs:398-441 | erasing all rejected frames from a run changes no delivery and not the final state |
| `SessionChannel.DeliveredAtMostOnce` | shph-core/src/crypto.rs:398-441 | whatever frames arrive, no counter is delivered twice, and a strict receiver delivers in increasing order |
| `SessionChannel.DeliveriesWereSent` | shph-core/src/crypto.rs:325-441 | under ideal authentication, what is delivered under counter n is the n-th plaintext sent |
| `SessionChannel.GenuineFrameDelivered` | shph-core/src/crypto.rs:398-441 | a genuine frame whose counter is admitted is delivered |
| `SessionChannel.InOrderDelivery` | shph-core/src/crypto.rs:325-441 | undisturbed, a strict receiver delivers exactly what was sent |
| `SessionChannel.WindowedDelivery` | shph-core/src/crypto.rs:398-441 | with a window, under any reordering, duplication, loss and forgery, a sent frame that arrives while nothing genuine before it is more than the width ahead is delivered exactly once |
| `SessionChannel.LateIsNeverDelivered` | shph-core/src/crypto.rs:398-441 | a counter not yet accepted that has fallen more than the width behind is never delivered |
| `Transcript.EncodeInjective` | shph-core/src/handshake.rs:906-922 | the labelled length-prefixed encoding determines the list of fields |
| `Transcript.TranscriptInjective` | shph-core/src/handshake.rs:707-753 | equal transcripts force equal profile, initiator, peers' keys, nonces and timestamps, and ciphertext, optional fields included |
| `Transcript.PayloadLength` | shph-core/src/handshake.rs:389-407 | a signed payload is 1341 or 156 bytes, within the 1400-byte buffer |
| `Transcript.PayloadLayout` | shph-core/src/handshake.rs:223-249 | where each field of a signed payload lies |
| `Transcript.SignedPayloadInjective` | shph-core/src/handshake.rs:389-407 | the unprefixed payload determines profile and fields, across both profiles |
| `Transcript.AppendSignedPart` | shph-core/src/handshake.rs:806-822 | appends a part in place after the used prefix, or refuses and changes nothing |
| `Transcript.BuildSignedPayload` | shph-core/src/handshake.rs:223-249 | the buffer ends up holding the concatenated fields, or the construction is refused when they do not fit |
| `Handshake.AcceptedExactlyWhen` | shph-core/src/handshake.rs:334-419 | a hello is accepted exactly when it is the encoding of well-sized, pinned, fresh values under a verifying signature, with no inline ciphertext |
| `Handshake.LocalMaterialExactlyWhen` | shph-core/src/handshake.rs:421-533 | the local check accepts exactly the hello that belongs to the secrets this side holds |
| `Handshake.BuiltMaterialOk` | shph-core/src/handshake.rs:200-279 | freshly built material passes the local check in both profiles |
| `Handshake.GenuineHelloVerifies` | shph-core/src/handshake.rs:334-419 | a pinned, fresh, genuine hello verifies to the sender's own values |
| `Handshake.HandshakeMaterial.FinalizeInitiatorPq` | shph-core/src/handshake.rs:831-857 | stores ciphertext and secret and announces the ciphertext in the hello, or leaves the material unchanged |
| `Handshake.HandshakeMaterial.AbsorbResponderPq` | shph-core/src/handshake.rs:865-890 | verifies the hello first, then stores ciphertext and secret, or leaves the material unchanged |
| `Handshake.FinalizesExactlyWhen` | shph-core/src/handshake.rs:831-857 | against an authentic hello, finalizing succeeds exactly in the hybrid profile when encapsulation does, and then holds the secret and announces the ciphertext |
| `Handshake.AbsorbsExactlyWhen` | shph-core/src/handshake.rs:865-890 | against an authentic hello, absorbing succeeds exactly in the hybrid profile when this side's own key opens the ciphertext |
| `Handshake.FailedCallsChangeNothing` | shph-core/src/handshake.rs:831-890 | a failed call leaves the material as it was, and no call succeeds against a hello that is not authentic |
| `Handshake.ExchangeMeans` | shph-core/src/handshake.rs:670-705 | the exchange holds both peers, the smaller identity first, and names the initiator |
| `Handshake.SameExchange` | shph-core/src/handshake.rs:670-705 | both roles order the exchange alike if and only if the identities differ or the peers are equal |
| `Handshake.ClassicalAgreement` | shph-core/src/handshake.rs:535-804 | two parties that pin each other both derive keys in the classical profile, with equal transcripts and crossed keys if and only if (short of a hash collision) their identities differ or they are equal in every field |
| `Handshake.HybridAgreement` | shph-core/src/handshake.rs:535-890 | with the initiator's ciphertext absorbed, both hybrid derivations succeed, each step reading its own clock, with equal transcripts and crossed keys under the same exact condition |
| `Handshake.SomeCanTalk` | shph-core/src/handshake.rs:200-279 | parties and primitives that meet all the hypotheses of the agreement theorems exist |
| `Handshake.DerivedSecretIsTranscripts` | shph-core/src/handshake.rs:831-890 | after any sequence of finalize and absorb calls on built material, derived keys rest on the secret inside exactly the ciphertext the transcript carries, sealed here or opened with this side's own key |
| `Handshake.KeysBindSecrets` | shph-core/src/handshake.rs:653-790 | two derivations have the same sending key if and only if they have the same role, profile, transcript, Diffie-Hellman secret and (hybrid) post-quantum secret; one's sending key is the other's receiving key if and only if the roles differ and the rest is the same; a session never sends and receives under one key |
| `Handshake.DerivedKeys` | shph-core/src/handshake.rs:757-804 | a session names the verified peer and its keys are the derivations from both secrets, the transcript and the direction |
| `Handshake.DerivesExactlyWhen` | shph-core/src/handshake.rs:535-651 | keys are derived exactly from an authentic hello that stays fresh, a nonzero shared secret, and the profile's full post-quantum material |
| `Handshake.InlineCiphertextRefused` | shph-core/src/handshake.rs:352-356 | a hello that carries ciphertext never leads to keys |
| `Handshake.NoSilentDowngrade` | shph-core/src/handshake.rs:625-651 | secure-default never derives keys without the post-quantum secret and its 1088-byte ciphertext |
| `Handshake.EqualTranscriptsAgree` | shph-core/src/handshake.rs:535-804 | equal transcript hashes without a collision mean that both sides saw the same exchange, each what the other sent, in opposite roles |
| `Ranking.ScanGroup` | scripts/traffic_detectability.py:499-504 | passes over one maximal group of equal scores and counts its targets and controls |
| `Ranking.PrefixAtThreshold` | scripts/traffic_detectability.py:557-564 | a threshold that separates a prefix of the ranking counts exactly that prefix |
| `Metrics.TraceCurves` | scripts/traffic_detectability.py:488-511 | the trapezoid sum and the precision sum equal their pairwise definitions, the points climb from (0, 0), each with its precision, and every threshold has its point |
| `Metrics.RocPrMetrics` | scripts/traffic_detectability.py:475-522 | ROC AUC is the Mann-Whitney statistic with half credit for ties, average precision is the mean precision at the targets' scores, the curve points are exactly the counts at all thresholds, in order and each with its precision; error cases as in the code |
| `Metrics.StatisticsPermuted` | scripts/traffic_detectability.py:488-516 | none of the statistics depends on the order of the examples, so sorting changes nothing |
| `Calibration.SelectCalibrationThreshold` | scripts/traffic_detectability.py:525-554 | the result is optimal over all real thresholds within the budget, the highest that is, and None means nothing in budget catches a target |
| `Calibration.BudgetMeans` | scripts/traffic_detectability.py:534-534 | the rounded budget allows exactly the false positive counts within the target rate of the controls |
| `Calibration.BinaryTotals` | scripts/traffic_detectability.py:531-533 | on binary labels the guard's sums are the numbers of controls and targets |
| `Calibration.BetterStep` | scripts/traffic_detectability.py:550-553 | one group's update keeps the choice optimal among the thresholds reached so far |
| `Calibration.ChoiceCounts` | scripts/traffic_detectability.py:557-564 | applying the chosen threshold to the same data gives the reported counts, and the rest are misses and correct rejections |
| `Sessionizer.KeyIsUnordered` | scripts/pcap_to_trace_csv.py:383-385 | two packets share a flow key exactly when they run between the same endpoints in either direction |
| `Sessionizer.SelectedExactlyWhen` | scripts/pcap_to_trace_csv.py:351-415 | from the record alone: a packet is selected exactly if it has a near end, a transport header, a length within the limit and a listed far port; it is outgoing exactly if the near end is its source, and closes exactly if TCP flags meet 0x05 |
| `Sessionizer.RefusedExactlyWhen` | scripts/pcap_to_trace_csv.py:351-376 | exactly which records end the conversion |
| `Sessionizer.ClosingBits` | scripts/pcap_to_trace_csv.py:414-415 | the closing test reads FIN and RST, bits 0 and 2 |
| `Sessionizer.ReplyIsOpposite` | scripts/pcap_to_trace_csv.py:361-385 | a packet and its reply are selected alike, into the same flow, in opposite directions |
| `Sessionizer.AddPacket` | scripts/pcap_to_trace_csv.py:386-415 | one selected packet moves dictionary, rows and session counter to what the specification gives for one packet more |
| `Sessionizer.Convert` | scripts/pcap_to_trace_csv.py:316-422 | fails exactly when a record or limit is violated, otherwise every row is the specified one and records equal skipped plus rows |
| `Sessionizer.FailsExactlyWhen` | scripts/pcap_to_trace_csv.py:316-422 | a conversion fails exactly if a record is unusable or older than the one before it, nothing is selected, or there are more than 200000 records, 40000 packets or 3000 sessions |
| `Sessionizer.SessionsAreCuts` | scripts/pcap_to_trace_csv.py:386-415 | two rows share a session number if and only if their packets are in one piece of the grouping by key, cut at idle gaps and after FIN or RST |
| `Sessionizer.SessionsAreLinked` | scripts/pcap_to_trace_csv.py:386-415 | from the packets alone: two rows share a session number if and only if their packets are of one flow and no two consecutive packets of it between them have a gap above the idle timeout or a closing first packet |
| `Sessionizer.RowMeans` | scripts/pcap_to_trace_csv.py:403-413 | a row's time runs from the first packet of its session; direction and length are the packet's own |
| `Sessionizer.NumbersAreUsed` | scripts/pcap_to_trace_csv.py:390-399 | session numbers run from 1 to the session count without gaps |
| `Cover.NewScheduler` | shph-transport/src/cover.rs:14-52 | refuses exactly the invalid policies, otherwise returns a fresh scheduler with no budget spent |
| `Cover.CoverScheduler.RecordPayload` | shph-transport/src/cover.rs:62-67 | adds payload with saturation, or refuses a clock in the past and changes nothing |
| `Cover.CoverScheduler.Reserve` | shph-transport/src/cover.rs:70-105 | releases cover bytes only when due and within the allowance, and observes cancellation before that |
| `Cover.PayloadIsTotal` | shph-transport/src/cover.rs:53-67 | the payload counter is the saturated sum of the payloads whose clock was not behind any earlier reading |
| `Cover.RunBounds` | shph-transport/src/cover.rs:53-105 | over every run the released bytes are at most the maximum, 100 times them at most percent x that sum, and releases are an interval apart; without a policy nothing is released |
| `Cover.ReleasedExactlyWhen` | shph-transport/src/cover.rs:70-105 | after every run, from its events alone, exactly when a request releases cover: pending data, congestion, cancellation, size, idle timeout, interval and both byte bounds |
| `Cover.CancelledExactlyWhen` | shph-transport/src/cover.rs:53-80 | a run counts as cancelled exactly when some cancellation came with a clock not behind any earlier reading |
| `Cover.SilentExactlyWhen` | shph-transport/src/cover.rs:53-105 | after any run nothing is ever released again if and only if there is no policy, such a cancellation came, the maximum is spent, or the interval equals the idle timeout |
| `Cover.CancellationWorksExactlyWhen` | shph-transport/src/cover.rs:70-105 | a cancellation reported after an uncancelled run stops all later cover if and only if its clock is not behind any earlier reading, or nothing was left to release |
| `Cover.BackwardClockLosesCancellation` | shph-transport/src/cover.rs:53-79 | a concrete run in which a cancellation with a clock in the past is lost |
| `Cover.ReleasesExactlyWhen` | shph-transport/src/cover.rs:14-26 | an accepted policy releases cover in some run if and only if its interval is below the idle timeout |
| `Cookie.MessageInjective` | shph-core/src/cookie.rs:95-128 | the tagged message determines address family, address, port and epoch |
| `Cookie.NewAuthority` | shph-core/src/cookie.rs:45-56 | fails when the generator or the clock fails, otherwise starts in the current epoch with two secrets |
| `Cookie.RotatedExactlyWhen` | shph-core/src/cookie.rs:59-93 | exactly when a call fails, and which secrets and epoch it answers from otherwise |
| `Cookie.Authority.Rotate` | shph-core/src/cookie.rs:82-93 | moves the current secret to previous when the epoch advances, does nothing otherwise, and changes nothing when no fresh secret can be drawn |
| `Cookie.Authority.Issue` | shph-core/src/cookie.rs:59-63 | rotates, then tags the peer under the current secret and epoch, or reports the failure |
| `Cookie.Authority.Verify` | shph-core/src/cookie.rs:66-80 | refuses a wrong length before reading the clock, otherwise accepts exactly the four current and previous combinations, or reports the failure |
| `Cookie.SecretSurvives` | shph-core/src/cookie.rs:82-93 | through any calls up to one epoch on, failed ones included, the issuing secret is still current or previous |
| `Cookie.CookieLifetime` | shph-core/src/cookie.rs:59-129 | under a clock that does not go back, a cookie that was issued is accepted exactly for its own peer and in its own epoch and the next, whatever was asked or failed in between |

## Left out

- Files, permissions, atomic writes, the audit journal, configuration loading and saving, the keystore: operating-system calls.
- The insides of AEAD, Ed25519, X25519, ML-KEM, HKDF, HMAC, SHA-256, base64, JSON and TOML: libraries, represented by parameters.
- The relay, the command line, TUN and onion binaries, signal handling: plumbing around libraries.
- Framing, stealth padding, metrics export and network helpers: each is settled by reading one branch.
- Benchmarks, fuzz targets and the packaging, probe and campaign scripts: measurement and orchestration.
- Logistic regression, feature extraction, the bootstrap and the running session statistics in scripts/traffic_detectability.py: floating-point numerics.
- Constant-time comparison and zeroization: timing and memory contents are not expressible here.
- Metrics.RocPrMetrics: exact arithmetic, with rates kept as counts over fixed totals; floating-point rounding and the check for non-finite scores are not modelled.
- Calibration.SelectCalibrationThreshold: exact arithmetic, so the floor of rate times controls has no rounding; scores are always finite.
- Shamir.SplitSecret: takes accepted field elements as a parameter; that rejection sampling ends is only probabilistic.
- RateLimiter.StepKeepsInv: the retry loop is a state machine of atomic steps, because a weak compare-exchange may fail forever and the loop has no termination measure.
- RateLimiter.WindowBound: for windows below 2^44, the exact domain by RateLimiter.BoundExactlyWhen.
- RateLimiter.Packing: for windows below 2^44; above, the packed window loses bits, and RateLimiter.LostBitsAdmitAll says what happens.
- RateLimiter.WordIncreases: for windows below 2^44, for the same reason.
- RateLimiter.RefusalsAreHonest: for windows below 2^44, for the same reason.
- Admission.ReplayOnlyForLiveNonces: for wall clocks at or after the epoch; Admission.CapacityExactlyWhen covers all offsets.
- SingleUse.NeverReusedExactlyWhen: a capability is the value verification yields; expiries are 64-bit, so a reading at the very last second commits nothing.
- Admission.CapacityExactlyWhen: for runs shorter than 2^44 seconds, retention below 2^42 seconds and wall clocks within the signed 64-bit second range; the limiter and the clock read of one `prepare` are one step; the request checks before the limiter are not modelled.
- ReplayCache.Cache.Prune: the binary heap is a multiset whose least element is popped; the array layout is not modelled. Nonces are numbers, and decoding and signature checking of a token is part of the token value.
- ReplayWindow.ShiftDown: 64-bit words are numbers with shifts and masks defined on them rather than bit-vectors, and the bitmap is a sequence the methods reassign.
- Handshake.HandshakeMaterial.FinalizeInitiatorPq: which of several local inconsistencies or undecodable fields is reported first is collapsed into one error.
- Handshake.HandshakeMaterial.AbsorbResponderPq: the same errors are collapsed.
- Sessionizer.Convert: parsing frame bytes and PCAP headers and formatting row text are not modelled; a record carries what parsing its frame yields, and every failure is one outcome.
