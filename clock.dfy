/**
 * The clock replacement policy of `BufMgr::allocBuf`, as a pure function of
 * the descriptor table and the clock hand, with the facts the buffer manager
 * relies on.
 */
module Clock {
  import opened Frames

  /** Where the clock hand may point on a pool of n frames (n - 1 = -1 for an empty pool). */
  predicate HandOk(hand: int, n: int) {
    if n == 0 then hand == -1 else 0 <= hand < n
  }

  /** `advanceClock`: the hand moves to the next frame, circularly. */
  function Advance(hand: int, n: int): (r: int)
    requires 0 <= hand < n
    ensures 0 <= r < n
    ensures r == if hand == n - 1 then 0 else hand + 1
  {
    (hand + 1) % n
  }

  /** The hand after k advances. */
  function Rot(hand: int, k: nat, n: int): (r: int)
    requires HandOk(hand, n) && (k == 0 || n > 0)
    ensures HandOk(r, n)
    decreases k
  {
    if k == 0 then hand else Rot(Advance(hand, n), k - 1, n)
  }

  /** How many advances take the hand from `hand` onto frame j: between 1 and n. */
  function Dist(hand: int, j: int, n: int): (r: int)
    requires 0 <= hand < n && 0 <= j < n
    ensures 1 <= r <= n
    ensures r == 1 <==> j == Advance(hand, n)
  {
    if j > hand then j - hand else j - hand + n
  }

  /** Every frame holds a resident page with a positive pin count. */
  predicate AllPinned(descs: seq<BufDesc>) {
    forall i :: 0 <= i < |descs| ==> descs[i].valid && descs[i].pinCnt > 0
  }

  /**
   * The outcome of the sweep: whether a frame was found, where the hand
   * stopped (the found frame when found) and the descriptors afterwards.
   */
  datatype SweepResult = SweepResult(found: bool, hand: int, descs: seq<BufDesc>)

  /**
   * The loop of `allocBuf` after `scanned` probes: at most 2n probes; each
   * advances the hand; an invalid frame is taken at once; a referenced frame
   * loses its reference bit; a pinned frame is skipped; any other frame is
   * the victim.
   */
  function Sweep(descs: seq<BufDesc>, hand: int, scanned: nat): (r: SweepResult)
    requires HandOk(hand, |descs|) && scanned <= 2 * |descs|
    ensures |r.descs| == |descs| && HandOk(r.hand, |descs|)
    ensures r.found ==> 0 <= r.hand < |descs|
    decreases 2 * |descs| - scanned
  {
    if scanned >= 2 * |descs| then
      SweepResult(false, hand, descs)
    else
      var h := Advance(hand, |descs|);
      var d := descs[h];
      if !d.valid then SweepResult(true, h, descs)
      else if d.refbit then Sweep(descs[h := d.(refbit := false)], h, scanned + 1)
      else if d.pinCnt > 0 then Sweep(descs, h, scanned + 1)
      else SweepResult(true, h, descs)
  }

  /** The sweep changes nothing but reference bits, and only clears them. */
  lemma {:induction false} SweepOnlyClearsRefbits(descs: seq<BufDesc>, hand: int, scanned: nat)
    requires HandOk(hand, |descs|) && scanned <= 2 * |descs|
    ensures var r := Sweep(descs, hand, scanned);
      forall i :: 0 <= i < |descs| ==>
        r.descs[i] == descs[i] || (descs[i].refbit && r.descs[i] == descs[i].(refbit := false))
    decreases 2 * |descs| - scanned
  {
    if scanned < 2 * |descs| {
      var h := Advance(hand, |descs|);
      var d := descs[h];
      if d.valid && d.refbit {
        SweepOnlyClearsRefbits(descs[h := d.(refbit := false)], h, scanned + 1);
      } else if d.valid && d.pinCnt > 0 {
        SweepOnlyClearsRefbits(descs, h, scanned + 1);
      }
    }
  }

  /**
   * A found frame is either empty, or resident, unpinned and unreferenced
   * at the moment it is taken; its pin count was already 0 before the sweep.
   */
  lemma {:induction false} SweepChoosesUnpinned(descs: seq<BufDesc>, hand: int, scanned: nat)
    requires HandOk(hand, |descs|) && scanned <= 2 * |descs|
    requires forall i :: 0 <= i < |descs| ==> descs[i].pinCnt >= 0
    ensures var r := Sweep(descs, hand, scanned);
      r.found ==>
        && r.descs[r.hand].valid == descs[r.hand].valid
        && r.descs[r.hand].pinCnt == descs[r.hand].pinCnt
        && (!r.descs[r.hand].valid || (r.descs[r.hand].pinCnt == 0 && !r.descs[r.hand].refbit))
    decreases 2 * |descs| - scanned
  {
    if scanned < 2 * |descs| {
      var h := Advance(hand, |descs|);
      var d := descs[h];
      if d.valid && d.refbit {
        SweepChoosesUnpinned(descs[h := d.(refbit := false)], h, scanned + 1);
      } else if d.valid && d.pinCnt > 0 {
        SweepChoosesUnpinned(descs, h, scanned + 1);
      }
    }
  }

  /** When every frame is pinned, no frame is ever found. */
  lemma {:induction false} AllPinnedExhausts(descs: seq<BufDesc>, hand: int, scanned: nat)
    requires HandOk(hand, |descs|) && scanned <= 2 * |descs|
    requires AllPinned(descs)
    ensures !Sweep(descs, hand, scanned).found
    decreases 2 * |descs| - scanned
  {
    if scanned < 2 * |descs| {
      var h := Advance(hand, |descs|);
      var d := descs[h];
      if d.refbit {
        AllPinnedExhausts(descs[h := d.(refbit := false)], h, scanned + 1);
      } else {
        AllPinnedExhausts(descs, h, scanned + 1);
      }
    }
  }

  /**
   * A frame j that is not both resident and pinned is reached before the probes run
   * out (twice if its reference bit is set), so the sweep finds a frame.
   */
  lemma {:induction false} EligibleIsFound(descs: seq<BufDesc>, hand: int, scanned: nat, j: int)
    requires HandOk(hand, |descs|) && scanned <= 2 * |descs|
    requires 0 <= j < |descs| && !(descs[j].valid && descs[j].pinCnt > 0)
    requires scanned + Dist(hand, j, |descs|)
             + (if descs[j].valid && descs[j].refbit then |descs| else 0) <= 2 * |descs|
    ensures Sweep(descs, hand, scanned).found
    decreases 2 * |descs| - scanned
  {
    var n := |descs|;
    if scanned < 2 * n {
      var h := Advance(hand, n);
      var d := descs[h];
      if d.valid && d.refbit {
        var descs' := descs[h := d.(refbit := false)];
        if h == j {
          assert Dist(h, j, n) == n;
        } else {
          assert Dist(h, j, n) == Dist(hand, j, n) - 1;
        }
        EligibleIsFound(descs', h, scanned + 1, j);
      } else if d.valid && d.pinCnt > 0 {
        assert Dist(h, j, n) == Dist(hand, j, n) - 1;
        EligibleIsFound(descs, h, scanned + 1, j);
      }
    }
  }

  /** The sweep fails exactly when every frame is resident and pinned. */
  lemma SweepFailsIffAllPinned(descs: seq<BufDesc>, hand: int)
    requires HandOk(hand, |descs|)
    ensures !Sweep(descs, hand, 0).found <==> AllPinned(descs)
  {
    if AllPinned(descs) {
      AllPinnedExhausts(descs, hand, 0);
    } else {
      var j :| 0 <= j < |descs| && !(descs[j].valid && descs[j].pinCnt > 0);
      EligibleIsFound(descs, hand, 0, j);
    }
  }

  /** A failed sweep advanced the hand once per remaining probe. */
  lemma {:induction false} ExhaustedHand(descs: seq<BufDesc>, hand: int, scanned: nat)
    requires HandOk(hand, |descs|) && scanned <= 2 * |descs|
    ensures var r := Sweep(descs, hand, scanned);
      !r.found ==> r.hand == Rot(hand, 2 * |descs| - scanned, |descs|)
    decreases 2 * |descs| - scanned
  {
    if scanned < 2 * |descs| {
      var h := Advance(hand, |descs|);
      var d := descs[h];
      if d.valid && d.refbit {
        ExhaustedHand(descs[h := d.(refbit := false)], h, scanned + 1);
      } else if d.valid && d.pinCnt > 0 {
        ExhaustedHand(descs, h, scanned + 1);
      }
    }
  }

  /** Advancing a + b times is advancing a times, then b times. */
  lemma {:induction false} RotAdd(hand: int, a: nat, b: nat, n: int)
    requires 0 <= hand < n
    ensures Rot(hand, a + b, n) == Rot(Rot(hand, a, n), b, n)
    decreases a
  {
    if a > 0 {
      RotAdd(Advance(hand, n), a - 1, b, n);
    }
  }

  /** Without wrapping, k advances add k. */
  lemma {:induction false} RotNoWrap(hand: int, k: nat, n: int)
    requires 0 <= hand && hand + k < n
    ensures Rot(hand, k, n) == hand + k
    decreases k
  {
    if k > 0 {
      RotNoWrap(hand + 1, k - 1, n);
    }
  }

  /** n advances bring the hand back where it was. */
  lemma FullCircle(hand: int, n: int)
    requires 0 <= hand < n
    ensures Rot(hand, n, n) == hand
  {
    RotNoWrap(hand, n - 1 - hand, n);
    RotAdd(hand, n - 1 - hand, 1, n);
    assert Rot(hand, n - hand, n) == 0;
    RotNoWrap(0, hand, n);
    RotAdd(hand, n - hand, hand, n);
  }

  /**
   * A probe count that reaches frame j with `scanned` probes left (or a
   * reference bit that is already clear) leaves j unreferenced when the
   * sweep fails.
   */
  lemma {:induction false} ExhaustedClearsRefbit(descs: seq<BufDesc>, hand: int, scanned: nat, j: int)
    requires HandOk(hand, |descs|) && scanned <= 2 * |descs|
    requires 0 <= j < |descs|
    requires !descs[j].refbit || scanned + Dist(hand, j, |descs|) <= 2 * |descs|
    ensures var r := Sweep(descs, hand, scanned);
      !r.found ==> !r.descs[j].refbit
    decreases 2 * |descs| - scanned
  {
    var n := |descs|;
    if scanned < 2 * n {
      var h := Advance(hand, n);
      var d := descs[h];
      if h != j {
        assert Dist(h, j, n) == Dist(hand, j, n) - 1;
      }
      if d.valid && d.refbit {
        ExhaustedClearsRefbit(descs[h := d.(refbit := false)], h, scanned + 1, j);
      } else if d.valid && d.pinCnt > 0 {
        ExhaustedClearsRefbit(descs, h, scanned + 1, j);
      }
    }
  }

  /**
   * A sweep that fails has made exactly 2n advances, so the hand is back
   * where it began, every frame was pinned, and every reference bit is clear.
   */
  lemma SweepExhausted(descs: seq<BufDesc>, hand: int)
    requires HandOk(hand, |descs|)
    ensures var r := Sweep(descs, hand, 0);
      !r.found ==>
        && AllPinned(descs)
        && r.hand == hand
        && (forall i :: 0 <= i < |descs| ==> !r.descs[i].refbit)
  {
    var n := |descs|;
    var r := Sweep(descs, hand, 0);
    if !r.found {
      SweepFailsIffAllPinned(descs, hand);
      ExhaustedHand(descs, hand, 0);
      if n > 0 {
        RotAdd(hand, n, n, n);
        FullCircle(hand, n);
      }
      forall i | 0 <= i < n
        ensures !r.descs[i].refbit
      {
        ExhaustedClearsRefbit(descs, hand, 0, i);
      }
    }
  }
}
