/** Slot segmentation: cutting an availability window into back-to-back
    slots of one fixed length (the source's `dividir_en_slots`). */
module Slots {
  import opened Time

  /** The slot length the handler uses (the default argument, in minutes). */
  const DefaultDuration: int := 40

  /** A half-open interval [start, end) of one availability window. */
  datatype Slot = Slot(start: Minute, end: Minute)

  /** How many whole slots of length `duration` fit in [start, end]. */
  function SlotCount(start: Minute, end: Minute, duration: int): nat
    requires duration > 0
  {
    if end < start then 0 else (end - start) / duration
  }

  /** The instant reached from `start` after `k` advances of `duration`. */
  function Advance(start: Minute, duration: int, k: nat): Minute {
    if k == 0 then start else Advance(start, duration, k - 1) + duration
  }

  /** The k-th slot of a window starting at `start`, counting from 0. */
  function NthSlot(start: Minute, duration: int, k: nat): Slot {
    Slot(Advance(start, duration, k), Advance(start, duration, k) + duration)
  }

  /** The slots of [start, end]: advance from `start` by `duration` while a
      whole slot still fits; a shorter remainder is dropped. */
  function Segment(start: Minute, end: Minute, duration: int): (slots: seq<Slot>)
    requires duration > 0
    ensures |slots| == SlotCount(start, end, duration)
    ensures |slots| > 0 ==> slots[0].start == start
    ensures forall i :: 0 <= i < |slots| ==> slots[i].end - slots[i].start == duration
    ensures forall i :: 0 <= i < |slots| ==> start <= slots[i].start && slots[i].end <= end
    ensures forall i :: 1 <= i < |slots| ==> slots[i - 1].end == slots[i].start
    decreases end - start
  {
    if start + duration <= end then
      var rest := Segment(start + duration, end, duration);
      DivStep(end - start, duration);
      [Slot(start, start + duration)] + rest
    else
      if start <= end then DivSmall(end - start, duration); []
      else []
  }

  lemma DivStep(x: int, d: int)
    requires 0 < d <= x
    ensures x / d == (x - d) / d + 1
  {
    var q, r := (x - d) / d, (x - d) % d;
    assert x == (q + 1) * d + r;
    DivUnique(x, d, q + 1, r);
  }

  lemma DivSmall(x: int, d: int)
    requires 0 <= x < d
    ensures x / d == 0
  {
    DivUnique(x, d, 0, x);
  }

  lemma DivUnique(x: int, d: int, q: int, r: int)
    requires d > 0 && 0 <= r < d && x == q * d + r
    ensures x / d == q
  {
    var q', r' := x / d, x % d;
    if q' < q {
      var a := q - q';
      assert a * d == q * d - q' * d;
      MulAtLeast(a, d);
    } else if q' > q {
      var a := q' - q;
      assert a * d == q' * d - q * d;
      MulAtLeast(a, d);
    }
  }

  lemma {:induction false} MulAtLeast(a: int, d: int)
    requires a >= 1 && d > 0
    ensures a * d >= d
    decreases a
  {
    if a > 1 {
      MulAtLeast(a - 1, d);
      assert a * d == (a - 1) * d + d;
    }
  }

  /** The loop of `dividir_en_slots`, step by step. */
  method SplitIntoSlots(start: Minute, end: Minute, duration: int) returns (slots: seq<Slot>)
    requires duration > 0
    ensures slots == Segment(start, end, duration)
  {
    slots := [];
    var current := start;
    while current + duration <= end
      invariant slots + Segment(current, end, duration) == Segment(start, end, duration)
      decreases end - current
    {
      var next := Slot(current, current + duration);
      ConsAssoc(slots, next, Segment(current + duration, end, duration));
      slots := slots + [next];
      current := current + duration;
    }
  }

  /** Advancing k times is moving by k times the duration. */
  lemma {:induction false} AdvanceIsMultiple(start: Minute, duration: int, k: nat)
    ensures Advance(start, duration, k) == start + k * duration
  {
    if k > 0 {
      AdvanceIsMultiple(start, duration, k - 1);
      assert (k - 1) * duration + duration == k * duration;
    }
  }

  /** Advancing once and then k - 1 times is advancing k times. */
  lemma {:induction false} AdvanceShift(start: Minute, duration: int, k: nat)
    requires k > 0
    ensures Advance(start + duration, duration, k - 1) == Advance(start, duration, k)
  {
    if k > 1 {
      AdvanceShift(start, duration, k - 1);
    }
  }

  lemma {:induction false} AdvanceAtLeast(start: Minute, duration: int, k: nat)
    requires duration > 0
    ensures start <= Advance(start, duration, k)
  {
    if k > 0 {
      AdvanceAtLeast(start, duration, k - 1);
    }
  }

  lemma ConsAssoc(a: seq<Slot>, x: Slot, b: seq<Slot>)
    ensures a + ([x] + b) == (a + [x]) + b
  {
  }

  /** Slot k of a segmented window is its k-th step from the start. */
  lemma {:induction false} SegmentIndexed(start: Minute, end: Minute, duration: int)
    requires duration > 0
    ensures forall k :: 0 <= k < |Segment(start, end, duration)| ==>
              Segment(start, end, duration)[k] == NthSlot(start, duration, k)
    decreases end - start
  {
    var slots := Segment(start, end, duration);
    if start + duration <= end {
      var rest := Segment(start + duration, end, duration);
      SegmentIndexed(start + duration, end, duration);
      forall k | 0 <= k < |slots|
        ensures slots[k] == NthSlot(start, duration, k)
      {
        if k > 0 {
          assert slots[k] == rest[k - 1] == NthSlot(start + duration, duration, k - 1);
          AdvanceShift(start, duration, k);
        }
      }
    }
  }

  /** A k-th step that still ends inside the window is one of its slots. */
  lemma {:induction false} StepFits(start: Minute, end: Minute, duration: int, k: nat)
    requires duration > 0
    requires NthSlot(start, duration, k).end <= end
    ensures k < |Segment(start, end, duration)|
    decreases k
  {
    AdvanceAtLeast(start, duration, k);
    if k > 0 {
      AdvanceShift(start, duration, k);
      StepFits(start + duration, end, duration, k - 1);
    }
  }

  /** A slot belongs to the segmentation of [start, end] exactly when it is
      some k-th step of length `duration` from `start` that ends by `end`. */
  lemma {:induction false} InSegmentIff(start: Minute, end: Minute, duration: int, s: Slot)
    requires duration > 0
    ensures s in Segment(start, end, duration) <==>
              exists k: nat :: s == NthSlot(start, duration, k) && NthSlot(start, duration, k).end <= end
  {
    var slots := Segment(start, end, duration);
    SegmentIndexed(start, end, duration);
    if s in slots {
      var k :| 0 <= k < |slots| && slots[k] == s;
      assert s == NthSlot(start, duration, k);
    }
    if exists k: nat :: s == NthSlot(start, duration, k) && NthSlot(start, duration, k).end <= end {
      var k: nat :| s == NthSlot(start, duration, k) && NthSlot(start, duration, k).end <= end;
      StepFits(start, end, duration, k);
      assert slots[k] == s;
    }
  }

  /** A one-hour window cut into 40-minute slots yields only its first
      40 minutes; the remaining 20 produce nothing. */
  lemma NineToTenExample()
    ensures Segment(9 * 60, 10 * 60, DefaultDuration) == [Slot(9 * 60, 9 * 60 + 40)]
  {
  }
}
