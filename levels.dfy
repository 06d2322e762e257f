/**
 * The support/resistance computation of app.py: one scan over the closes that
 * appends every interior local minimum to `support` and every interior local
 * maximum to `resistance`, then reduces each list to a single level, the
 * lowest trough and the highest peak, or no level when the list is empty.
 */
module Levels {
  import opened Wrappers
  import opened TurningPoints

  /**
   * Python's built-in `min` on a non-empty list. Python keeps the first of
   * several equal minima; as reals, equal items are indistinguishable, so only
   * the value matters here.
   */
  function Lowest(s: seq<real>): (r: real)
    requires |s| > 0
    ensures r in s
    ensures forall x :: x in s ==> r <= x
  {
    if |s| == 1 then s[0]
    else
      var m := Lowest(s[1..]);
      assert s == [s[0]] + s[1..];
      if m < s[0] then m else s[0]
  }

  /** Python's built-in `max` on a non-empty list, the mirror image of Lowest. */
  function Highest(s: seq<real>): (r: real)
    requires |s| > 0
    ensures r in s
    ensures forall x :: x in s ==> x <= r
  {
    if |s| == 1 then s[0]
    else
      var m := Highest(s[1..]);
      assert s == [s[0]] + s[1..];
      if m > s[0] then m else s[0]
  }

  /** The support level: the lowest trough, or None when no close is a trough (app.py:63). */
  function ConstantSupport(support: seq<real>): (level: Option<real>)
    ensures level.None? <==> support == []
    ensures level.Some? ==> level.value in support && forall x :: x in support ==> level.value <= x
  {
    if support == [] then None else Some(Lowest(support))
  }

  /** The resistance level: the highest peak, or None when no close is a peak (app.py:64). */
  function ConstantResistance(resistance: seq<real>): (level: Option<real>)
    ensures level.None? <==> resistance == []
    ensures level.Some? ==> level.value in resistance && forall x :: x in resistance ==> x <= level.value
  {
    if resistance == [] then None else Some(Highest(resistance))
  }

  /**
   * The scan itself. Indices 1 .. |closes|-2 are visited in order; a close
   * strictly below both neighbours is appended to `support`, otherwise one
   * strictly above both is appended to `resistance`.
   */
  method SupportResistance(closes: seq<real>)
    returns (support: seq<real>, resistance: seq<real>, constantSupport: Option<real>, constantResistance: Option<real>)
    ensures support == Extrema(Trough, closes)
    ensures resistance == Extrema(Peak, closes)
    ensures constantSupport.None? <==> support == []
    ensures constantSupport.Some? ==>
      constantSupport.value in support && forall x :: x in support ==> constantSupport.value <= x
    ensures constantResistance.None? <==> resistance == []
    ensures constantResistance.Some? ==>
      constantResistance.value in resistance && forall x :: x in resistance ==> x <= constantResistance.value
  {
    support, resistance := [], [];
    var i := 1;
    while i < |closes| - 1
      invariant 1 <= i <= if |closes| < 2 then 1 else |closes| - 1
      invariant support == ExtremaBelow(Trough, closes, i)
      invariant resistance == ExtremaBelow(Peak, closes, i)
    {
      if closes[i] < closes[i - 1] && closes[i] < closes[i + 1] {
        support := support + [closes[i]];
      } else if closes[i] > closes[i - 1] && closes[i] > closes[i + 1] {
        resistance := resistance + [closes[i]];
      }
      i := i + 1;
    }
    assert i == 1 || i == |closes| - 1;
    assert ExtremaBelow(Trough, closes, 1) == [] && ExtremaBelow(Peak, closes, 1) == [];
    constantSupport := ConstantSupport(support);
    constantResistance := ConstantResistance(resistance);
  }

  /** With fewer than three closes, or a strictly monotonic series, both levels are undefined. */
  lemma NoLevels(closes: seq<real>)
    requires |closes| < 3 || StrictlyIncreasing(closes) || StrictlyDecreasing(closes)
    ensures ConstantSupport(Extrema(Trough, closes)) == None
    ensures ConstantResistance(Extrema(Peak, closes)) == None
  {
    NoTurningPoints(Trough, closes);
    NoTurningPoints(Peak, closes);
  }

  /**
   * The series 1, 3, 2, 5, 1, 4, 0: troughs 2 and 1, peaks 3, 5 and 4, so the
   * support is 1 and the resistance 5.
   */
  lemma WorkedExample()
    ensures Extrema(Trough, [1.0, 3.0, 2.0, 5.0, 1.0, 4.0, 0.0]) == [2.0, 1.0]
    ensures Extrema(Peak, [1.0, 3.0, 2.0, 5.0, 1.0, 4.0, 0.0]) == [3.0, 5.0, 4.0]
    ensures ConstantSupport(Extrema(Trough, [1.0, 3.0, 2.0, 5.0, 1.0, 4.0, 0.0])) == Some(1.0)
    ensures ConstantResistance(Extrema(Peak, [1.0, 3.0, 2.0, 5.0, 1.0, 4.0, 0.0])) == Some(5.0)
  {
    var c := [1.0, 3.0, 2.0, 5.0, 1.0, 4.0, 0.0];
    assert IsLocalMax(c, 1) && IsLocalMin(c, 2) && IsLocalMax(c, 3) && IsLocalMin(c, 4) && IsLocalMax(c, 5);
    assert ExtremaBelow(Trough, c, 3) == [2.0] && ExtremaBelow(Peak, c, 3) == [3.0];
    assert ExtremaBelow(Trough, c, 5) == [2.0, 1.0] && ExtremaBelow(Peak, c, 5) == [3.0, 5.0];
  }

  /**
   * Plateaus can leave the support above the resistance: in 5, 1, 3, 3, 0.5,
   * 0.5, 0.8, 0.6 the only trough is 1 and the only peak is 0.8.
   */
  lemma PlateauInvertsLevels()
    ensures Extrema(Trough, [5.0, 1.0, 3.0, 3.0, 0.5, 0.5, 0.8, 0.6]) == [1.0]
    ensures Extrema(Peak, [5.0, 1.0, 3.0, 3.0, 0.5, 0.5, 0.8, 0.6]) == [0.8]
    ensures ConstantSupport(Extrema(Trough, [5.0, 1.0, 3.0, 3.0, 0.5, 0.5, 0.8, 0.6])) == Some(1.0)
    ensures ConstantResistance(Extrema(Peak, [5.0, 1.0, 3.0, 3.0, 0.5, 0.5, 0.8, 0.6])) == Some(0.8)
    ensures ConstantResistance(Extrema(Peak, [5.0, 1.0, 3.0, 3.0, 0.5, 0.5, 0.8, 0.6])).value
          < ConstantSupport(Extrema(Trough, [5.0, 1.0, 3.0, 3.0, 0.5, 0.5, 0.8, 0.6])).value
  {
    var c := [5.0, 1.0, 3.0, 3.0, 0.5, 0.5, 0.8, 0.6];
    assert IsLocalMin(c, 1) && IsLocalMax(c, 6);
    assert !IsLocalMax(c, 2) && !IsLocalMin(c, 4);
    assert ExtremaBelow(Trough, c, 3) == [1.0] && ExtremaBelow(Peak, c, 3) == [];
    assert ExtremaBelow(Trough, c, 5) == [1.0] && ExtremaBelow(Peak, c, 5) == [];
  }

  /** From a rise at i, a peak higher than closes[i] is reached no later than the peak j. */
  lemma {:induction false} ClimbRight(closes: seq<real>, i: int, j: int) returns (p: int)
    requires NoPlateaus(closes)
    requires 0 <= i < j && IsLocalMax(closes, j)
    requires closes[i] < closes[i + 1]
    ensures i < p <= j && IsLocalMax(closes, p) && closes[i] < closes[p]
    decreases j - i
  {
    if closes[i + 1] > closes[i + 2] {
      p := i + 1;
    } else {
      assert closes[i + 1] != closes[i + 2];
      p := ClimbRight(closes, i + 1, j);
    }
  }

  /** From a fall into i, a peak higher than closes[i] is reached, going left, no earlier than the peak j. */
  lemma {:induction false} ClimbLeft(closes: seq<real>, i: int, j: int) returns (p: int)
    requires NoPlateaus(closes)
    requires j < i < |closes| && IsLocalMax(closes, j)
    requires closes[i - 1] > closes[i]
    ensures j <= p < i && IsLocalMax(closes, p) && closes[i] < closes[p]
    decreases i - j
  {
    if closes[i - 2] < closes[i - 1] {
      p := i - 1;
    } else {
      assert closes[i - 2] != closes[i - 1];
      p := ClimbLeft(closes, i - 1, j);
    }
  }

  /**
   * Without plateaus the support lies strictly below the resistance whenever
   * both are defined: next to any trough lies a higher peak.
   */
  lemma SupportBelowResistance(closes: seq<real>)
    requires NoPlateaus(closes)
    requires Extrema(Trough, closes) != [] && Extrema(Peak, closes) != []
    ensures Lowest(Extrema(Trough, closes)) < Highest(Extrema(Peak, closes))
  {
    InIndexOrder(Trough, closes);
    InIndexOrder(Peak, closes);
    var i, j := ExtremaIndices(Trough, closes)[0], ExtremaIndices(Peak, closes)[0];
    ClassifiedExactly(Trough, closes, i);
    ClassifiedExactly(Peak, closes, j);
    assert i != j;
    var p;
    if i < j {
      p := ClimbRight(closes, i, j);
    } else {
      p := ClimbLeft(closes, i, j);
    }
    ClassifiedExactly(Peak, closes, p);
    var k :| 0 <= k < |ExtremaIndices(Peak, closes)| && ExtremaIndices(Peak, closes)[k] == p;
    assert closes[i] in Extrema(Trough, closes);
    assert closes[p] in Extrema(Peak, closes);
  }
}
