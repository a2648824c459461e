/** The DBP distance of Goossens (2008): how many further consecutive deadline misses a
    task can absorb before fewer than m of its last k outcomes are successes. */
module Distance {
  import opened History

  /** A distance: a natural number, or `float("inf")` when the task has no firmness
      requirement. */
  datatype Distance = Fin(n: nat) | Inf

  /** `a <= b` on distances. */
  predicate DistanceLe(a: Distance, b: Distance) {
    b.Inf? || (a.Fin? && a.n <= b.n)
  }

  function Sum(s: seq<int>): int {
    if s == [] then 0 else s[0] + Sum(s[1..])
  }

  function Zeros(n: nat): (s: seq<int>)
    ensures |s| == n && forall i :: 0 <= i < n ==> s[i] == 0
  {
    seq(n, _ => 0)
  }

  lemma {:induction false} SumAppend(a: seq<int>, b: seq<int>)
    ensures Sum(a + b) == Sum(a) + Sum(b)
    decreases |a|
  {
    if a != [] {
      assert (a + b)[1..] == a[1..] + b;
      SumAppend(a[1..], b);
    } else {
      assert a + b == b;
    }
  }

  lemma {:induction false} SumZeros(n: nat)
    ensures Sum(Zeros(n)) == 0
  {
    if n > 0 {
      assert Zeros(n)[1..] == Zeros(n - 1);
      SumZeros(n - 1);
    }
  }

  /** For 0/1 outcomes, a longer suffix never has a smaller sum. */
  lemma {:induction false} SuffixSumMonotone(h: seq<int>, i: nat, j: nat)
    requires AllBits(h) && i <= j <= |h|
    ensures Sum(h[j..]) <= Sum(h[i..])
    decreases j - i
  {
    if i < j {
      assert h[i..][1..] == h[i + 1..];
      SuffixSumMonotone(h, i + 1, j);
    }
  }

  /** Given at least m successes, the number of simulated misses the window survives:
      the loop of `_compute_distance`, stepping while the sum of the remaining suffix is still at
      least m. Every suffix up to `r` keeps m successes; the next one does not. */
  function LastViable(h: seq<int>, m: int): (r: nat)
    requires m >= 1 && Sum(h) >= m
    ensures r < |h|
    ensures forall j :: 0 <= j <= r ==> Sum(h[j..]) >= m
    ensures Sum(h[r + 1..]) < m
    decreases |h|
  {
    assert h != [];
    if Sum(h[1..]) >= m then
      var r := LastViable(h[1..], m);
      assert forall j :: 1 <= j <= |h| ==> h[1..][j - 1..] == h[j..];
      1 + r
    else 0
  }

  /** The two properties of `LastViable` determine it. */
  lemma LastViableUnique(h: seq<int>, m: int, a: nat)
    requires m >= 1 && Sum(h) >= m
    requires a < |h|
    requires forall j :: 0 <= j <= a ==> Sum(h[j..]) >= m
    requires Sum(h[a + 1..]) < m
    ensures LastViable(h, m) == a
  {
    var r := LastViable(h, m);
    assert Sum(h[r + 1..]) < m;
  }

  /** The distance of a window for the firmness parameter m. */
  function HistoryDistance(h: seq<int>, m: int): (d: Distance)
    ensures d.Inf? <==> m <= 0
    ensures m >= 1 && Sum(h) < m ==> d == Fin(0)
    ensures m >= 1 && Sum(h) >= m ==> d.n < |h| && Sum(h[d.n..]) >= m && Sum(h[d.n + 1..]) < m
  {
    if m <= 0 then Inf
    else if Sum(h) < m then Fin(0)
    else Fin(LastViable(h, m))
  }

  /** The closed form: with m >= 1 and at least m successes, the distance is the LARGEST j
      such that the outcomes from position j on still hold m successes. */
  lemma DistanceIsLargestViable(h: seq<int>, m: int)
    requires AllBits(h) && m >= 1 && Sum(h) >= m
    ensures var d := HistoryDistance(h, m).n;
            Sum(h[d..]) >= m && forall j :: d < j <= |h| ==> Sum(h[j..]) < m
  {
    var d := HistoryDistance(h, m).n;
    forall j | d < j <= |h| ensures Sum(h[j..]) < m {
      SuffixSumMonotone(h, d + 1, j);
    }
  }

  /** `_compute_distance` after the history lookup: shifts simulated misses into a copy of
      the window and returns one less than the number of shifts that first bring the sum
      below m. */
  method ComputeDistanceLoop(history: seq<int>, m: int) returns (d: Distance)
    ensures d == HistoryDistance(history, m)
  {
    if m <= 0 {
      return Inf;
    }
    var sequence := history;
    var successes := Sum(sequence);
    if successes < m {
      return Fin(0);
    }
    var allowed: nat := 0;
    var current := sequence;
    var k := |current|;
    while allowed < k
      invariant 0 <= allowed <= k
      invariant current == sequence[allowed..] + Zeros(allowed)
      invariant forall j :: 0 <= j <= allowed ==> Sum(sequence[j..]) >= m
    {
      assert current[1..] == sequence[allowed + 1..] + Zeros(allowed);
      current := current[1..] + [0];
      allowed := allowed + 1;
      assert current == sequence[allowed..] + Zeros(allowed);
      SumAppend(sequence[allowed..], Zeros(allowed));
      SumZeros(allowed);
      if Sum(current) < m {
        LastViableUnique(sequence, m, allowed - 1);
        return Fin(allowed - 1);
      }
    }
    // the invariant would give Sum(sequence[k..]) == Sum([]) >= m: the loop always returns
    assert false;
    return Fin(allowed);
  }

  /** Recording a miss turns distance d into max(0, d - 1). */
  lemma RecordMissDistance(h: seq<int>, m: int)
    requires AllBits(h) && |h| >= 1 && m >= 1
    ensures var d := HistoryDistance(h, m).n;
            HistoryDistance(h[1..] + [0], m) == Fin(if d == 0 then 0 else d - 1)
  {
    var h' := h[1..] + [0];
    var d := HistoryDistance(h, m).n;
    assert Sum(h) == h[0] + Sum(h[1..]);
    SumAppend(h[1..], [0]);
    assert Sum([0]) == 0 by { assert [0][1..] == []; }
    assert Sum(h') == Sum(h[1..]);
    forall j | 0 <= j < |h| ensures Sum(h'[j..]) == Sum(h[j + 1..]) {
      assert h'[j..] == h[j + 1..] + [0];
      SumAppend(h[j + 1..], [0]);
    }
    if Sum(h) >= m && d >= 1 {
      assert Sum(h[1..]) >= m;
      LastViableUnique(h', m, d - 1);
    }
  }

  /** Recording a success never lowers the distance. */
  lemma RecordSuccessDistance(h: seq<int>, m: int)
    requires AllBits(h) && |h| >= 1
    ensures DistanceLe(HistoryDistance(h, m), HistoryDistance(h[1..] + [1], m))
  {
    if m >= 1 && Sum(h) >= m {
      var h' := h[1..] + [1];
      assert AllBits(h');
      forall j | 0 <= j < |h| ensures Sum(h'[j..]) >= Sum(h[j..]) {
        assert h'[j..] == h[j + 1..] + [1];
        SumAppend(h[j + 1..], [1]);
        assert Sum([1]) == 1 by { assert [1][1..] == []; }
        assert h[j..][1..] == h[j + 1..];
      }
      var d := HistoryDistance(h, m).n;
      assert Sum(h'[d..]) >= m;
      assert Sum(h'[0..]) >= m by { assert h'[0..] == h'; }
      DistanceIsLargestViable(h', m);
    }
  }

  /** [1, 0, 1, 0] with m = 2: one more miss leaves one success, so the distance is 0. */
  lemma DistanceExampleViolatedNext()
    ensures HistoryDistance([1, 0, 1, 0], 2) == Fin(0)
  {
    var a := [1, 0, 1, 0];
    assert Sum([0]) == 0 by { assert [0][1..] == []; }
    assert Sum([1, 0]) == 1 by { assert [1, 0][1..] == [0]; }
    assert Sum([0, 1, 0]) == 1 by { assert [0, 1, 0][1..] == [1, 0]; }
    assert a[1..] == [0, 1, 0];
    assert Sum(a) == 2;
    assert LastViable(a, 2) == 0;
  }

  /** [1, 1, 1, 1] with m = 1: three more misses are tolerated. */
  lemma DistanceExampleThree()
    ensures HistoryDistance([1, 1, 1, 1], 1) == Fin(3)
  {
    var b := [1, 1, 1, 1];
    assert Sum([1]) == 1 by { assert [1][1..] == []; }
    assert Sum([1, 1]) == 2 by { assert [1, 1][1..] == [1]; }
    assert Sum([1, 1, 1]) == 3 by { assert [1, 1, 1][1..] == [1, 1]; }
    assert b[1..] == [1, 1, 1] && b[2..] == [1, 1] && b[3..] == [1] && b[4..] == [];
    assert Sum(b) == 4;
    LastViableUnique(b, 1, 3);
  }
}
