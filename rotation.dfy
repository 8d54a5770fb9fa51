/**
 * The map rotator's index arithmetic: after incrementing its call counter,
 * the service picks fixture `cnt / nextMap % 3` with Go's truncating
 * operators. Everything here is about that one expression.
 */
module Rotation {
  import opened GoInt

  /** Number of preloaded point-cloud fixtures. */
  const FixtureCount: int := 3

  /** The fixture index Go computes for counter `cnt` and threshold `nextMap`. */
  function SelectIndex(cnt: int, nextMap: int): int
    requires nextMap != 0
  {
    Rem(Quo(cnt, nextMap), FixtureCount)
  }

  /** With a positive threshold the index is in range and equals Dafny's `(cnt / nextMap) % 3`. */
  lemma IndexInRange(cnt: int, nextMap: int)
    requires cnt >= 0 && nextMap > 0
    ensures 0 <= SelectIndex(cnt, nextMap) < FixtureCount
    ensures SelectIndex(cnt, nextMap) == (cnt / nextMap) % FixtureCount
  {
    QuoRemNatural(cnt, nextMap);
    QuoRemNatural(cnt / nextMap, FixtureCount);
  }

  /**
   * With a negative threshold and a positive counter the quotient is not
   * positive, so the index is never positive, and it is negative (an
   * out-of-range slice index) exactly when `cnt / -nextMap` is not a multiple of 3.
   */
  lemma IndexNegativeThreshold(cnt: int, nextMap: int)
    requires cnt > 0 && nextMap < 0
    ensures SelectIndex(cnt, nextMap) <= 0
    ensures SelectIndex(cnt, nextMap) < 0 <==> (cnt / -nextMap) % FixtureCount != 0
    ensures SelectIndex(cnt, nextMap) == -((cnt / -nextMap) % FixtureCount)
  {
    var q := cnt / -nextMap;
    QuoRemNegDivisor(cnt, nextMap);
    assert Quo(cnt, nextMap) == -q;
    assert Quo(-q, FixtureCount) == -(q / FixtureCount);
    assert SelectIndex(cnt, nextMap) == -q + FixtureCount * (q / FixtureCount);
  }

  /**
   * With a negative threshold `-m`, calls `1 .. m-1` get fixture 0 and call `m`
   * computes index -1, which is out of range.
   */
  lemma NegativeThresholdFailsAtCall(nextMap: int)
    requires nextMap < 0
    ensures forall k :: 1 <= k < -nextMap ==> SelectIndex(k, nextMap) == 0
    ensures SelectIndex(-nextMap, nextMap) == -1
  {
    forall k | 1 <= k < -nextMap
      ensures SelectIndex(k, nextMap) == 0
    {
      IndexNegativeThreshold(k, nextMap);
      DivUnique(k, -nextMap, 0, k);
    }
    IndexNegativeThreshold(-nextMap, nextMap);
    DivUnique(-nextMap, -nextMap, 1, 0);
  }

  /**
   * The counter is incremented before the division, so the first block is one
   * call short: calls `1 .. T-1` get fixture 0 and call `T` already gets fixture 1.
   */
  lemma FirstBlockShort(t: int)
    requires t > 0
    ensures forall k :: 1 <= k < t ==> SelectIndex(k, t) == 0
    ensures SelectIndex(t, t) == 1
  {
    forall k | 1 <= k < t
      ensures SelectIndex(k, t) == 0
    {
      IndexInRange(k, t);
      DivUnique(k, t, 0, k);
    }
    IndexInRange(t, t);
    DivUnique(t, t, 1, 0);
  }

  /** Every counter value in block `j` (`j*T .. j*T + T-1`) selects fixture `j % 3`. */
  lemma BlockSelectsFixture(t: int, j: nat, r: int)
    requires t > 0 && 0 <= r < t
    ensures SelectIndex(j * t + r, t) == j % FixtureCount
  {
    IndexInRange(j * t + r, t);
    DivUnique(j * t + r, t, j, r);
  }

  /** The fixtures cycle with period `3*T` calls. */
  lemma RotationPeriod(cnt: int, t: int)
    requires cnt >= 0 && t > 0
    ensures SelectIndex(cnt + FixtureCount * t, t) == SelectIndex(cnt, t)
  {
    var j, r := cnt / t, cnt % t;
    assert cnt == j * t + r;
    assert cnt + FixtureCount * t == (j + FixtureCount) * t + r;
    BlockSelectsFixture(t, j, r);
    BlockSelectsFixture(t, j + FixtureCount, r);
  }

  /** The default threshold of 5 with three fixtures: calls 1-4, 5-9, 10-14 and 15-19. */
  lemma DefaultThresholdSchedule()
    ensures forall k :: 1 <= k <= 4 ==> SelectIndex(k, 5) == 0
    ensures forall k :: 5 <= k <= 9 ==> SelectIndex(k, 5) == 1
    ensures forall k :: 10 <= k <= 14 ==> SelectIndex(k, 5) == 2
    ensures forall k :: 15 <= k <= 19 ==> SelectIndex(k, 5) == 0
  {
    forall k | 1 <= k <= 19
      ensures SelectIndex(k, 5) == (k / 5) % FixtureCount
    {
      IndexInRange(k, 5);
    }
  }
}
