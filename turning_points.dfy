/**
 * Classification of the interior closes of a price series into local minima
 * (troughs, the candidate supports) and local maxima (peaks, the candidate
 * resistances), and the reference definition of the two lists the scan in
 * app.py builds.
 */
module TurningPoints {

  /** Which of the two lists a turning point goes to. */
  datatype Kind = Trough | Peak

  /** Close i is strictly below both of its neighbours. */
  predicate IsLocalMin(closes: seq<real>, i: int)
  {
    1 <= i && i + 1 < |closes| && closes[i] < closes[i - 1] && closes[i] < closes[i + 1]
  }

  /** Close i is strictly above both of its neighbours. */
  predicate IsLocalMax(closes: seq<real>, i: int)
  {
    1 <= i && i + 1 < |closes| && closes[i] > closes[i - 1] && closes[i] > closes[i + 1]
  }

  predicate IsExtremum(kind: Kind, closes: seq<real>, i: int)
  {
    match kind
    case Trough => IsLocalMin(closes, i)
    case Peak => IsLocalMax(closes, i)
  }

  /** Closes of the turning points of `kind` at indices 1 .. k-1, in index order. */
  function ExtremaBelow(kind: Kind, closes: seq<real>, k: int): seq<real>
    decreases k
  {
    if k <= 1 then []
    else ExtremaBelow(kind, closes, k - 1) + (if IsExtremum(kind, closes, k - 1) then [closes[k - 1]] else [])
  }

  /** The indices whose closes ExtremaBelow collects. */
  ghost function IndicesBelow(kind: Kind, closes: seq<real>, k: int): seq<int>
    decreases k
  {
    if k <= 1 then []
    else IndicesBelow(kind, closes, k - 1) + (if IsExtremum(kind, closes, k - 1) then [k - 1] else [])
  }

  /** The list the scan builds: `support` for Trough, `resistance` for Peak. */
  function Extrema(kind: Kind, closes: seq<real>): seq<real>
  {
    ExtremaBelow(kind, closes, |closes| - 1)
  }

  ghost function ExtremaIndices(kind: Kind, closes: seq<real>): seq<int>
  {
    IndicesBelow(kind, closes, |closes| - 1)
  }

  predicate StrictlyIncreasing(closes: seq<real>)
  {
    forall i, j :: 0 <= i < j < |closes| ==> closes[i] < closes[j]
  }

  predicate StrictlyDecreasing(closes: seq<real>)
  {
    forall i, j :: 0 <= i < j < |closes| ==> closes[i] > closes[j]
  }

  /** No two adjacent closes are equal. */
  predicate NoPlateaus(closes: seq<real>)
  {
    forall i :: 0 < i < |closes| ==> closes[i - 1] != closes[i]
  }

  /**
   * The inductive account of ExtremaBelow: it lists, in increasing index
   * order, the close of every turning point of `kind` below k and nothing else.
   */
  lemma {:induction false} TraceBelow(kind: Kind, closes: seq<real>, k: int)
    ensures var vals, idx := ExtremaBelow(kind, closes, k), IndicesBelow(kind, closes, k);
      |vals| == |idx| &&
      (forall j :: 0 <= j < |idx| ==> 1 <= idx[j] < k && IsExtremum(kind, closes, idx[j]) && vals[j] == closes[idx[j]]) &&
      (forall j1, j2 :: 0 <= j1 < j2 < |idx| ==> idx[j1] < idx[j2]) &&
      (forall i :: 1 <= i < k && IsExtremum(kind, closes, i) ==> i in idx)
    decreases k
  {
    if k > 1 {
      TraceBelow(kind, closes, k - 1);
    }
  }

  /** An index is listed exactly when its close is a turning point of that kind. */
  lemma ClassifiedExactly(kind: Kind, closes: seq<real>, i: int)
    ensures i in ExtremaIndices(kind, closes) <==> IsExtremum(kind, closes, i)
  {
    TraceBelow(kind, closes, |closes| - 1);
  }

  /**
   * The lists keep the index order of the closes: the j-th entry is the close
   * at the j-th listed index, and the listed indices strictly increase.
   */
  lemma InIndexOrder(kind: Kind, closes: seq<real>)
    ensures |Extrema(kind, closes)| == |ExtremaIndices(kind, closes)|
    ensures forall j :: 0 <= j < |ExtremaIndices(kind, closes)| ==>
      0 <= ExtremaIndices(kind, closes)[j] < |closes| &&
      Extrema(kind, closes)[j] == closes[ExtremaIndices(kind, closes)[j]]
    ensures forall j1, j2 :: 0 <= j1 < j2 < |ExtremaIndices(kind, closes)| ==>
      ExtremaIndices(kind, closes)[j1] < ExtremaIndices(kind, closes)[j2]
  {
    TraceBelow(kind, closes, |closes| - 1);
  }

  /** Only interior indices are ever listed: neither the first nor the last close. */
  lemma InteriorOnly(kind: Kind, closes: seq<real>)
    ensures forall j :: 0 <= j < |ExtremaIndices(kind, closes)| ==>
      1 <= ExtremaIndices(kind, closes)[j] <= |closes| - 2
  {
    TraceBelow(kind, closes, |closes| - 1);
  }

  /** A close equal to either neighbour is listed as neither kind. */
  lemma PlateauIgnored(kind: Kind, closes: seq<real>, i: int)
    requires 1 <= i < |closes| - 1
    requires closes[i] == closes[i - 1] || closes[i] == closes[i + 1]
    ensures i !in ExtremaIndices(kind, closes)
  {
    ClassifiedExactly(kind, closes, i);
  }

  /**
   * Because of the `elif`, no index reaches both lists; and a close strictly
   * above both neighbours is never strictly below them, so the `elif` drops
   * no local maximum.
   */
  lemma KindsDisjoint(closes: seq<real>, i: int)
    ensures !(i in ExtremaIndices(Trough, closes) && i in ExtremaIndices(Peak, closes))
    ensures i in ExtremaIndices(Peak, closes) <==> IsLocalMax(closes, i) && !IsLocalMin(closes, i)
  {
    ClassifiedExactly(Trough, closes, i);
    ClassifiedExactly(Peak, closes, i);
  }

  lemma {:induction false} CountBelow(closes: seq<real>, k: int)
    ensures |ExtremaBelow(Trough, closes, k)| + |ExtremaBelow(Peak, closes, k)| <= if k <= 1 then 0 else k - 1
    decreases k
  {
    if k > 1 {
      CountBelow(closes, k - 1);
    }
  }

  /** Together the two lists hold at most one entry per interior close. */
  lemma CountBound(closes: seq<real>)
    ensures |Extrema(Trough, closes)| + |Extrema(Peak, closes)| <= if |closes| < 2 then 0 else |closes| - 2
  {
    CountBelow(closes, |closes| - 1);
  }

  lemma {:induction false} NoneBelow(kind: Kind, closes: seq<real>, k: int)
    requires forall i :: 1 <= i < k ==> !IsExtremum(kind, closes, i)
    ensures ExtremaBelow(kind, closes, k) == []
    decreases k
  {
    if k > 1 {
      NoneBelow(kind, closes, k - 1);
    }
  }

  /** Fewer than three closes, or a strictly monotonic series, has no turning point. */
  lemma NoTurningPoints(kind: Kind, closes: seq<real>)
    requires |closes| < 3 || StrictlyIncreasing(closes) || StrictlyDecreasing(closes)
    ensures Extrema(kind, closes) == []
  {
    forall i | 1 <= i < |closes| - 1
      ensures !IsExtremum(kind, closes, i)
    {
      if StrictlyIncreasing(closes) {
        assert closes[i - 1] < closes[i] < closes[i + 1];
      } else if StrictlyDecreasing(closes) {
        assert closes[i - 1] > closes[i] > closes[i + 1];
      }
    }
    NoneBelow(kind, closes, |closes| - 1);
  }
}
