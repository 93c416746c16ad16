/**
 The sliding anti-replay window over counter nonces: a multi-word bitmap below the highest accepted
 nonce, proved to agree exactly with the set of all nonces accepted so far.
 */
module ReplayWindow {
  import opened Prelude
  import opened Words

  const MAX_WINDOW_SIZE := 65536

  // ---------- the bitmap ----------

  ghost predicate BitAt(bits: seq<word>, k: nat)
    requires k < 64 * |bits|
  {
    Bit(bits[k / 64], k % 64)
  }

  /** `bits[i] |= v` sets exactly the bits of v in word i. */
  lemma OrWord(bits: seq<word>, i: nat, v: word)
    requires i < |bits|
    ensures Or(bits[i], v) < 0x1_0000_0000_0000_0000
    ensures var out := bits[i := Or(bits[i], v)];
            forall k: nat :: k < 64 * |bits| ==>
              (BitAt(out, k) <==> BitAt(bits, k) || (k / 64 == i && Bit(v, k % 64)))
  {
    Pow64();
    OrBound(bits[i], v, 64);
    var out: seq<word> := bits[i := Or(bits[i], v)];
    forall k: nat | k < 64 * |bits|
      ensures BitAt(out, k) <==> BitAt(bits, k) || (k / 64 == i && Bit(v, k % 64))
    {
      if k / 64 == i {
        BitOr(bits[i], v, k % 64);
      }
    }
  }

  /** `bits[k / 64] |= 1 << (k % 64)`. */
  method SetBit(bits: seq<word>, k: nat) returns (out: seq<word>)
    requires k < 64 * |bits|
    ensures |out| == |bits|
    ensures forall j: nat :: j < 64 * |bits| ==> (BitAt(out, j) <==> BitAt(bits, j) || j == k)
  {
    MaskFits(k % 64);
    OrWord(bits, k / 64, Pow2(k % 64));
    forall j: nat | j < 64 * |bits|
      ensures j / 64 == k / 64 && Bit(Pow2(k % 64), j % 64) <==> j == k
    {
      BitMask(k % 64, j % 64);
    }
    out := bits[k / 64 := Or(bits[k / 64], Pow2(k % 64))];
  }

  lemma MaskFits(i: nat)
    requires i < 64
    ensures Pow2(i) < 0x1_0000_0000_0000_0000
  {
    Pow64();
    Pow2Grows(i, 64);
  }

  /** The bits that words below `upTo` contribute to position k of the bitmap shifted by gap. */
  ghost predicate Shifted(bits: seq<word>, gap: nat, upTo: nat, k: nat)
    requires upTo <= |bits|
  {
    k >= gap && (k - gap) / 64 < upTo && BitAt(bits, k - gap)
  }

  /** Moves every bit up by gap positions, dropping those that leave the window. */
  method ShiftDown(bits: seq<word>, gap: nat) returns (out: seq<word>)
    requires gap < 64 * |bits|
    ensures |out| == |bits|
    ensures forall k: nat :: k < 64 * |bits| ==> (BitAt(out, k) <==> k >= gap && BitAt(bits, k - gap))
  {
    var wordShift, bitShift := gap / 64, gap % 64;
    out := seq(|bits|, _ => 0);
    AllClear(out);
    for i := 0 to |bits|
      invariant |out| == |bits|
      invariant forall k: nat :: k < 64 * |bits| ==> (BitAt(out, k) <==> Shifted(bits, gap, i, k))
    {
      ghost var before := out;
      if bitShift == 0 {
        if i + wordShift < |bits| {
          out := out[i + wordShift := bits[i]];
        }
        AlignedStep(bits, before, out, gap, i);
      } else {
        var lo := Shl(bits[i], bitShift);
        if i + wordShift < |bits| {
          OrWord(out, i + wordShift, lo);
          out := out[i + wordShift := Or(out[i + wordShift], lo)];
        }
        var hi := Shr(bits[i], 64 - bitShift);
        if i + wordShift + 1 < |bits| {
          OrWord(out, i + wordShift + 1, hi);
          out := out[i + wordShift + 1 := Or(out[i + wordShift + 1], hi)];
        }
        CarryStep(bits, before, out, gap, i, lo, hi);
      }
    }
  }

  lemma AllClear(out: seq<word>)
    requires forall i :: 0 <= i < |out| ==> out[i] == 0
    ensures forall k: nat :: k < 64 * |out| ==> !BitAt(out, k)
  {
    forall k: nat | k < 64 * |out|
      ensures !BitAt(out, k)
    {
      BitZero(k % 64);
    }
  }

  lemma AlignedStep(bits: seq<word>, before: seq<word>, out: seq<word>, gap: nat, i: nat)
    requires |before| == |bits| && i < |bits| && gap % 64 == 0
    requires out == if i + gap / 64 < |bits| then before[i + gap / 64 := bits[i]] else before
    requires forall k: nat :: k < 64 * |bits| ==> (BitAt(before, k) <==> Shifted(bits, gap, i, k))
    ensures forall k: nat :: k < 64 * |bits| ==> (BitAt(out, k) <==> Shifted(bits, gap, i + 1, k))
  {
    forall k: nat | k < 64 * |bits|
      ensures BitAt(out, k) <==> Shifted(bits, gap, i + 1, k)
    {
      assert BitAt(before, k) <==> Shifted(bits, gap, i, k);
      if k / 64 == i + gap / 64 {
        assert k >= gap && (k - gap) / 64 == i && (k - gap) % 64 == k % 64;
      } else {
        assert k >= gap ==> (k - gap) / 64 != i;
      }
    }
  }

  /** Both halves of a shifted word together are that word's bits, each moved by gap. */
  lemma CarryStep(bits: seq<word>, before: seq<word>, out: seq<word>, gap: nat, i: nat, lo: word, hi: word)
    requires |before| == |out| == |bits| && gap < 64 * |bits| && i < |bits| && gap % 64 != 0
    requires lo == Shl(bits[i], gap % 64) && hi == Shr(bits[i], 64 - gap % 64)
    requires forall k: nat :: k < 64 * |bits| ==> (BitAt(before, k) <==> Shifted(bits, gap, i, k))
    requires forall k: nat :: k < 64 * |bits| ==>
               (BitAt(out, k) <==> BitAt(before, k) || (k / 64 == i + gap / 64 && Bit(lo, k % 64))
                                   || (k / 64 == i + gap / 64 + 1 && Bit(hi, k % 64)))
    ensures forall k: nat :: k < 64 * |bits| ==> (BitAt(out, k) <==> Shifted(bits, gap, i + 1, k))
  {
    forall k: nat | k < 64 * |bits|
      ensures BitAt(out, k) <==> Shifted(bits, gap, i + 1, k)
    {
      MovedBit(bits[i], gap, i, k, lo, hi);
    }
  }

  lemma MovedBit(w: word, gap: nat, i: nat, k: nat, lo: word, hi: word)
    requires gap % 64 != 0 && lo == Shl(w, gap % 64) && hi == Shr(w, 64 - gap % 64)
    ensures ((k / 64 == i + gap / 64 && Bit(lo, k % 64)) || (k / 64 == i + gap / 64 + 1 && Bit(hi, k % 64)))
       <==> (k >= gap && (k - gap) / 64 == i && Bit(w, (k - gap) % 64))
  {
    var b, r := gap % 64, k % 64;
    BitShl(w, b, r);
    BitShr(w, 64 - b, r);
    if r >= b {
      Pow64();
      BitHigh(w, 64, r + (64 - b));
    }
    Landing(gap, i, k);
  }

  /** Where source word i can land: in its shifted word from bit gap % 64 on, or in the next one below it. */
  lemma Landing(gap: nat, i: nat, k: nat)
    ensures k >= gap && (k - gap) / 64 == i && k % 64 >= gap % 64
            <==> k / 64 == i + gap / 64 && k % 64 >= gap % 64
    ensures gap % 64 != 0 ==>
              (k >= gap && (k - gap) / 64 == i && k % 64 < gap % 64
               <==> k / 64 == i + gap / 64 + 1 && k % 64 < gap % 64)
    ensures k >= gap ==> (k - gap) % 64 == if k % 64 >= gap % 64 then k % 64 - gap % 64 else k % 64 + (64 - gap % 64)
  {
  }

  // ---------- the window ----------

  /** A nonce is fresh when it was never accepted and no accepted nonce is more than size above it. */
  ghost predicate Fresh(seen: set<nat>, size: nat, nonce: nat) {
    nonce !in seen && forall m :: m in seen ==> m <= nonce + size
  }

  /** The width for a request: the least multiple of 64 that covers the request clamped to 64..65536. */
  ghost predicate IsWidth(requested: nat, size: nat) {
    && size % 64 == 0 && 64 <= size <= MAX_WINDOW_SIZE
    && (if requested <= MAX_WINDOW_SIZE then requested <= size else size == MAX_WINDOW_SIZE)
    && (size > 64 ==> size < requested + 64)
  }

  class Window {
    var highest: Option<u64>
    var bits: seq<word>
    var size: nat
    /** Every nonce accepted so far. */
    ghost var seen: set<nat>

    ghost predicate Valid()
      reads this
    {
      && |bits| >= 1 && size == 64 * |bits| <= MAX_WINDOW_SIZE
      && Represents(highest, bits, seen)
    }

    /** The requested width is clamped to [64, 65536] and rounded up to whole words. */
    constructor (requested: nat)
      ensures Valid() && seen == {}
      ensures IsWidth(requested, size)
    {
      var clamped := if requested < 64 then 64 else if requested > MAX_WINDOW_SIZE then MAX_WINDOW_SIZE else requested;
      var words := (clamped + 63) / 64;
      highest := None;
      bits := seq(words, _ => 0);
      size := words * 64;
      seen := {};
      new;
      AllClear(bits);
    }

    method Clone() returns (copy: Window)
      requires Valid()
      ensures fresh(copy) && copy.Valid() && copy.seen == seen && copy.size == size
    {
      copy := new Window(0);
      copy.highest := highest;
      copy.bits := bits;
      copy.size := size;
      copy.seen := seen;
    }

    method CheckAndInsert(nonce: u64) returns (accepted: bool)
      requires Valid()
      modifies this
      ensures Valid() && size == old(size)
      ensures accepted <==> Fresh(old(seen), size, nonce)
      ensures seen == if accepted then old(seen) + {nonce} else old(seen)
    {
      if highest.None? {
        highest := Some(nonce);
        seen := seen + {nonce};
        return true;
      }
      var top := highest.value;
      FreshIff(seen, top, size, nonce);
      if nonce > top {
        var advanced := Advance(bits, size, nonce - top);
        Advanced(advanced, top, nonce - top, bits, seen);
        bits := advanced;
        highest := Some(nonce);
        seen := seen + {nonce};
        return true;
      }
      var offset := top - nonce;
      if offset == 0 || offset > size {
        return false;
      }
      var bitIndex := offset - 1;
      TestMask(bits[bitIndex / 64], bitIndex % 64);
      SeenBit(bits, top, bitIndex, seen);
      if And(bits[bitIndex / 64], Pow2(bitIndex % 64)) != 0 {
        return false;
      }
      var marked := SetBit(bits, bitIndex);
      Marked(marked, top, bitIndex, bits, seen);
      bits := marked;
      seen := seen + {nonce};
      accepted := true;
    }
  }

  /** highest is the maximum of seen, and bit i says whether highest - 1 - i was seen. */
  ghost predicate Represents(highest: Option<u64>, bits: seq<word>, seen: set<nat>) {
    match highest
    case None => seen == {} && forall k: nat :: k < 64 * |bits| ==> !BitAt(bits, k)
    case Some(h) =>
      && h in seen && (forall m :: m in seen ==> m <= h)
      && (forall k: nat :: k < 64 * |bits| ==> (BitAt(bits, k) <==> k < h && h - 1 - k in seen))
  }

  lemma FreshIff(seen: set<nat>, top: u64, size: nat, nonce: u64)
    requires top in seen && forall m :: m in seen ==> m <= top
    ensures Fresh(seen, size, nonce) <==> nonce > top || (top - nonce <= size && nonce !in seen)
  {
  }

  lemma SeenBit(bits: seq<word>, top: u64, k: nat, seen: set<nat>)
    requires k < 64 * |bits| && k < top && Represents(Some(top), bits, seen)
    ensures Bit(bits[k / 64], k % 64) <==> top - 1 - k in seen
  {
    assert BitAt(bits, k) <==> k < top && top - 1 - k in seen;
  }

  lemma Marked(out: seq<word>, top: u64, bitIndex: nat, bits: seq<word>, seen: set<nat>)
    requires |out| == |bits| && bitIndex < 64 * |bits| && bitIndex < top && Represents(Some(top), bits, seen)
    requires forall k: nat :: k < 64 * |bits| ==> (BitAt(out, k) <==> BitAt(bits, k) || k == bitIndex)
    ensures Represents(Some(top), out, seen + {top - 1 - bitIndex})
  {
    forall k: nat | k < 64 * |out|
      ensures BitAt(out, k) <==> k < top && top - 1 - k in seen + {top - 1 - bitIndex}
    {
      assert BitAt(bits, k) <==> k < top && top - 1 - k in seen;
    }
  }

  /** Moves the window up by gap, keeping the old top as a seen nonce. */
  method Advance(bits: seq<word>, size: nat, gap: nat) returns (out: seq<word>)
    requires |bits| >= 1 && size == 64 * |bits| && gap >= 1
    ensures |out| == |bits|
    ensures forall k: nat :: k < 64 * |bits| ==>
              (BitAt(out, k) <==> k == gap - 1 || (k >= gap && BitAt(bits, k - gap)))
  {
    if gap > size {
      out := seq(|bits|, _ => 0);
      AllClear(out);
    } else if gap == size {
      out := seq(|bits|, _ => 0);
      AllClear(out);
      out := SetBit(out, size - 1);
    } else {
      out := ShiftDown(bits, gap);
      out := SetBit(out, gap - 1);
    }
  }

  lemma Advanced(out: seq<word>, top: u64, gap: nat, bits: seq<word>, seen: set<nat>)
    requires 1 <= gap && top + gap <= U64_MAX && |out| == |bits| && Represents(Some(top), bits, seen)
    requires forall k: nat :: k < 64 * |bits| ==>
               (BitAt(out, k) <==> k == gap - 1 || (k >= gap && BitAt(bits, k - gap)))
    ensures Represents(Some(top + gap), out, seen + {top + gap})
  {
    forall k: nat | k < 64 * |out|
      ensures BitAt(out, k) <==> k < top + gap && top + gap - 1 - k in seen + {top + gap}
    {
      if k >= gap {
        assert BitAt(bits, k - gap) <==> k - gap < top && top - 1 - (k - gap) in seen;
      }
    }
  }
}
