/**
 * Wraparound slot resolution of the carousel (`render_slide` in src/carousel.rs).
 *
 * The carousel keeps a signed `current_index` that drifts freely as slides
 * advance and retreat. A slot at relative position `offset` shows the slide
 * at `current_index + offset`, brought into `[0, len)` by adding `len` until
 * the value is non-negative and then taking the remainder. Dafny's `%` on
 * `int` is Euclidean, so the specification of the slot is simply
 * `(current_index + offset) % len`.
 */
module Wraparound {

  /** The relative positions of the five rendered slots, in render order. */
  const SlotOffsets: seq<int> := [-2, -1, 0, 1, 2]

  /** Adding any whole number of laps to a position does not change the slide it shows. */
  lemma {:induction false} AddLaps(raw: int, len: nat, laps: nat)
    requires len >= 1
    ensures (raw + laps * len) % len == raw % len
  {
    if laps > 0 {
      AddLaps(raw, len, laps - 1);
      var prev := raw + (laps - 1) * len;
      assert raw + laps * len == prev + len;
      AddOneLap(prev, len);
    }
  }

  /** One lap: `(x + len) % len == x % len`, from the definition of Euclidean division. */
  lemma AddOneLap(x: int, len: nat)
    requires len >= 1
    ensures (x + len) % len == x % len
  {
    var q, r := x / len, x % len;
    assert x == q * len + r;
    assert x + len == (q + 1) * len + r;
    UniqueRemainder(x + len, len, q + 1, r);
  }

  /**
   * A position has exactly one representative in `[0, len)`: whatever
   * quotient writes `x` as `q * len + r` with `0 <= r < len`, `r` is `x % len`.
   */
  lemma UniqueRemainder(x: int, len: nat, q: int, r: int)
    requires len >= 1
    requires 0 <= r < len
    requires x == q * len + r
    ensures x % len == r
    ensures x / len == q
  {
    var q', r' := x / len, x % len;
    assert x == q' * len + r';
    assert (q - q') * len == r' - r;
    if q > q' {
      assert (q - q') * len >= len by {
        MulMonotone(q - q', len);
      }
    } else if q < q' {
      assert (q' - q) * len >= len by {
        MulMonotone(q' - q, len);
      }
    }
  }

  /** A positive multiple of `len` is at least `len`. */
  lemma MulMonotone(k: int, len: nat)
    requires k >= 1
    ensures k * len >= len
  {
  }

  /**
   * Resolves the slide shown at slot `offset` when the carousel sits at
   * `currentIndex`, the way `render_slide` does: add `len` while negative,
   * then take the remainder. The result is a valid index into the slide list
   * (so the lookup that follows cannot fail), the loop terminates for every
   * starting value, and the result is the Euclidean residue of the position.
   */
  method ResolveIndex(len: nat, currentIndex: int, offset: int) returns (index: nat)
    requires len >= 1
    ensures index < len
    ensures index == (currentIndex + offset) % len
  {
    var raw := currentIndex + offset;
    ghost var laps: nat := 0;
    while raw < 0
      invariant raw == currentIndex + offset + laps * len
      decreases -raw
    {
      raw := raw + len;
      laps := laps + 1;
    }
    AddLaps(currentIndex + offset, len, laps);
    index := raw % len;
  }

  /**
   * Moving one position to the right moves the resolved slide one step
   * forward around the circle.
   */
  lemma NextPosition(raw: int, len: nat)
    requires len >= 1
    ensures (raw + 1) % len == (raw % len + 1) % len
  {
    var q, r := raw / len, raw % len;
    assert raw == q * len + r;
    if r + 1 < len {
      UniqueRemainder(raw + 1, len, q, r + 1);
      UniqueRemainder(r + 1, len, 0, r + 1);
    } else {
      assert r + 1 == len;
      assert raw + 1 == (q + 1) * len + 0;
      UniqueRemainder(raw + 1, len, q + 1, 0);
      UniqueRemainder(r + 1, len, 1, 0);
    }
  }

  /**
   * Each rendered slot shows the slide after the one its left neighbour
   * shows, modulo the number of slides.
   */
  lemma AdjacentSlots(currentIndex: int, len: nat, i: nat)
    requires len >= 1
    requires i + 1 < |SlotOffsets|
    ensures (currentIndex + SlotOffsets[i + 1]) % len == ((currentIndex + SlotOffsets[i]) % len + 1) % len
  {
    assert SlotOffsets[i + 1] == SlotOffsets[i] + 1;
    NextPosition(currentIndex + SlotOffsets[i], len);
  }

  /** Two positions show the same slide exactly when they differ by a multiple of `len`. */
  lemma SameSlide(a: int, b: int, len: nat)
    requires len >= 1
    ensures a % len == b % len <==> (a - b) % len == 0
  {
    var qa, ra := a / len, a % len;
    var qb, rb := b / len, b % len;
    if ra == rb {
      UniqueRemainder(a - b, len, qa - qb, 0);
    } else if ra > rb {
      UniqueRemainder(a - b, len, qa - qb, ra - rb);
    } else {
      UniqueRemainder(a - b, len, qa - qb - 1, ra - rb + len);
    }
  }

  /**
   * The five slots show five different slides exactly when there are at
   * least five slides; with fewer, two slots alias.
   */
  lemma DistinctSlotsIff(currentIndex: int, len: nat)
    requires len >= 1
    ensures (forall i, j :: 0 <= i < j < |SlotOffsets| ==>
               (currentIndex + SlotOffsets[i]) % len != (currentIndex + SlotOffsets[j]) % len)
            <==> len >= 5
  {
    if len >= 5 {
      forall i, j | 0 <= i < j < |SlotOffsets|
        ensures (currentIndex + SlotOffsets[i]) % len != (currentIndex + SlotOffsets[j]) % len
      {
        var a, b := currentIndex + SlotOffsets[i], currentIndex + SlotOffsets[j];
        SameSlide(b, a, len);
        assert 1 <= b - a < len;
        UniqueRemainder(b - a, len, 0, b - a);
      }
    } else {
      // With len < 5 slides, slot 0 and slot len are a full lap apart.
      var i, j := 0, len;
      assert j < |SlotOffsets|;
      var a, b := currentIndex + SlotOffsets[i], currentIndex + SlotOffsets[j];
      assert b == a + 1 * len;
      AddLaps(a, len, 1);
      assert (currentIndex + SlotOffsets[i]) % len == (currentIndex + SlotOffsets[j]) % len;
    }
  }
}
