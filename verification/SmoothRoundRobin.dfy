/**
 Smooth weighted round robin over fixed weights: how often each target is picked, exactly.
 */
module SmoothRoundRobin {
  import opened Arithmetic

  function Sum(s: seq<int>): int {
    if s == [] then 0 else Sum(s[..|s| - 1]) + s[|s| - 1]
  }

  /** The first position of a largest entry among the first `n`. */
  function BestOf(s: seq<int>, n: nat): (b: nat)
    requires 1 <= n <= |s|
    ensures b < n
  {
    if n == 1 then 0
    else
      var b := BestOf(s, n - 1);
      if s[n - 1] > s[b] then n - 1 else b
  }

  lemma {:induction false} BestIsFirstLargest(s: seq<int>, n: nat)
    requires 1 <= n <= |s|
    ensures forall i :: 0 <= i < n ==> s[i] <= s[BestOf(s, n)]
    ensures forall i :: 0 <= i < BestOf(s, n) ==> s[i] < s[BestOf(s, n)]
  {
    if n > 1 {
      BestIsFirstLargest(s, n - 1);
    }
  }

  function Bumped(w: seq<int>, c: seq<int>): (r: seq<int>)
    requires |c| == |w|
    ensures |r| == |w|
  {
    seq(|w|, i requires 0 <= i < |w| => c[i] + w[i])
  }

  /** One selection: every current weight grows by its weight, and the winner pays the total. */
  function Pick(w: seq<int>, c: seq<int>): (p: nat)
    requires |c| == |w| && w != []
    ensures p < |w|
  {
    BestOf(Bumped(w, c), |w|)
  }

  function Next(w: seq<int>, c: seq<int>): (r: seq<int>)
    requires |c| == |w| && w != []
    ensures |r| == |w|
  {
    var p := Pick(w, c);
    Bumped(w, c)[p := Bumped(w, c)[p] - Sum(w)]
  }

  function After(w: seq<int>, c: seq<int>, k: nat): (r: seq<int>)
    requires |c| == |w| && w != []
    ensures |r| == |w|
  {
    if k == 0 then c else Next(w, After(w, c, k - 1))
  }

  /** How often target `i` is picked in the first `k` selections. */
  function Picks(w: seq<int>, c: seq<int>, k: nat, i: nat): nat
    requires |c| == |w| && w != []
  {
    if k == 0 then 0 else Picks(w, c, k - 1, i) + if Pick(w, After(w, c, k - 1)) == i then 1 else 0
  }

  function Zeros(n: nat): (z: seq<int>)
    ensures |z| == n && forall i :: 0 <= i < n ==> z[i] == 0
  {
    seq(n, _ => 0)
  }

  ghost predicate Weights(w: seq<int>) {
    w != [] && forall i :: 0 <= i < |w| ==> w[i] >= 1
  }

  // ---- Sums ----

  lemma {:induction false} SumUpdate(s: seq<int>, i: nat, v: int)
    requires i < |s|
    ensures Sum(s[i := v]) == Sum(s) - s[i] + v
  {
    var n := |s| - 1;
    if i < n {
      SumUpdate(s[..n], i, v);
      assert s[i := v][..n] == s[..n][i := v];
    } else {
      assert s[i := v][..n] == s[..n];
    }
  }

  lemma {:induction false} SumBumped(w: seq<int>, c: seq<int>)
    requires |c| == |w|
    ensures Sum(Bumped(w, c)) == Sum(c) + Sum(w)
  {
    if w != [] {
      var n := |w| - 1;
      SumBumped(w[..n], c[..n]);
      assert Bumped(w, c)[..n] == Bumped(w[..n], c[..n]);
    }
  }

  lemma {:induction false} SumPositive(s: seq<int>)
    requires forall i :: 0 <= i < |s| ==> s[i] >= 1
    ensures Sum(s) >= |s|
  {
    if s != [] {
      SumPositive(s[..|s| - 1]);
    }
  }

  lemma {:induction false} SumZeros(n: nat)
    ensures Sum(Zeros(n)) == 0
  {
    if n > 0 {
      SumZeros(n - 1);
      assert Zeros(n)[..n - 1] == Zeros(n - 1);
    }
  }

  lemma {:induction false} SumNonPositive(s: seq<int>)
    requires forall i :: 0 <= i < |s| ==> s[i] <= 0
    ensures Sum(s) <= 0
  {
    if s != [] {
      SumNonPositive(s[..|s| - 1]);
    }
  }

  /** Sequences with the same sum, one nowhere above the other, are equal. */
  lemma {:induction false} SameSum(a: seq<int>, b: seq<int>)
    requires |a| == |b| && forall i :: 0 <= i < |a| ==> a[i] <= b[i]
    ensures Sum(a) <= Sum(b) && (Sum(a) == Sum(b) ==> a == b)
  {
    if a != [] {
      var n := |a| - 1;
      SameSum(a[..n], b[..n]);
      assert a == a[..n] + [a[n]] && b == b[..n] + [b[n]];
    }
  }

  // ---- What selections keep ----

  lemma {:induction false} SumKept(w: seq<int>, c: seq<int>)
    requires |c| == |w| && w != []
    ensures Sum(Next(w, c)) == Sum(c)
  {
    var b, p := Bumped(w, c), Pick(w, c);
    SumBumped(w, c);
    SumUpdate(b, p, b[p] - Sum(w));
  }

  /** The winner's bumped weight is positive, because the bumped weights sum to the positive total. */
  lemma {:induction false} WinnerPositive(w: seq<int>, c: seq<int>)
    requires |c| == |w| && Weights(w) && Sum(c) == 0
    ensures Bumped(w, c)[Pick(w, c)] >= 1
  {
    SumBumped(w, c);
    SumPositive(w);
    BestIsFirstLargest(Bumped(w, c), |w|);
    if Bumped(w, c)[Pick(w, c)] <= 0 {
      SumNonPositive(Bumped(w, c));
    }
  }

  lemma {:induction false} Floor(w: seq<int>, k: nat)
    requires Weights(w)
    ensures Sum(After(w, Zeros(|w|), k)) == 0
    ensures forall i :: 0 <= i < |w| ==> After(w, Zeros(|w|), k)[i] >= 1 - Sum(w)
  {
    SumPositive(w);
    if k == 0 {
      SumZeros(|w|);
    } else {
      Floor(w, k - 1);
      var c := After(w, Zeros(|w|), k - 1);
      SumKept(w, c);
      WinnerPositive(w, c);
    }
  }

  /** A current weight is what the target has earned less what its picks have cost. */
  lemma {:induction false} Account(w: seq<int>, c: seq<int>, k: nat, i: nat)
    requires |c| == |w| && w != [] && i < |w|
    ensures After(w, c, k)[i] == c[i] + Times(w[i], k) - Times(Sum(w), Picks(w, c, k, i))
  {
    if k > 0 {
      Account(w, c, k - 1, i);
      NextAt(w, After(w, c, k - 1), i);
    }
  }

  lemma {:induction false} NextAt(w: seq<int>, c: seq<int>, i: nat)
    requires |c| == |w| && w != [] && i < |w|
    ensures Next(w, c)[i] == c[i] + w[i] - if Pick(w, c) == i then Sum(w) else 0
  {
  }

  /** No target is ever ahead of its share by a whole pick. */
  lemma {:induction false} NeverAhead(w: seq<int>, k: nat, i: nat)
    requires Weights(w) && i < |w|
    ensures Sum(w) * Picks(w, Zeros(|w|), k, i) <= k * w[i] + Sum(w) - 1
  {
    Floor(w, k);
    Account(w, Zeros(|w|), k, i);
    TimesIsProduct(w[i], k);
    TimesIsProduct(Sum(w), Picks(w, Zeros(|w|), k, i));
  }

  // ---- Blocks of `Sum(w)` selections ----

  function Counts(w: seq<int>, c: seq<int>, k: nat): (r: seq<int>)
    requires |c| == |w| && w != []
    ensures |r| == |w|
  {
    seq(|w|, i requires 0 <= i < |w| => Picks(w, c, k, i))
  }

  lemma {:induction false} CountsSum(w: seq<int>, c: seq<int>, k: nat)
    requires |c| == |w| && w != []
    ensures Sum(Counts(w, c, k)) == k
  {
    if k == 0 {
      assert Counts(w, c, 0) == Zeros(|w|);
      SumZeros(|w|);
    } else {
      CountsSum(w, c, k - 1);
      var p, prev := Pick(w, After(w, c, k - 1)), Counts(w, c, k - 1);
      CountsStep(w, c, k, p);
      SumUpdate(prev, p, prev[p] + 1);
    }
  }

  lemma {:induction false} CountsStep(w: seq<int>, c: seq<int>, k: nat, p: nat)
    requires |c| == |w| && w != [] && k > 0 && p == Pick(w, After(w, c, k - 1))
    ensures Counts(w, c, k) == Counts(w, c, k - 1)[p := Counts(w, c, k - 1)[p] + 1]
  {
  }

  lemma {:induction false} OneMore(t: int, a: int, b: int)
    requires t >= 1
    ensures a > b ==> t * a >= t * b + t
  {
    if a > b {
      assert t * a == t * (b + 1) + t * (a - b - 1);
    }
  }

  /** From zero weights, as many selections as the total weight pick every target exactly as often as its weight. */
  lemma {:induction false} BlockExact(w: seq<int>)
    requires Weights(w)
    ensures Sum(w) >= 1
    ensures Counts(w, Zeros(|w|), Sum(w)) == w
    ensures After(w, Zeros(|w|), Sum(w)) == Zeros(|w|)
  {
    SumPositive(w);
    var total: nat := Sum(w);
    var counts := Counts(w, Zeros(|w|), total);
    forall i | 0 <= i < |w| ensures counts[i] <= w[i] {
      NeverAhead(w, total, i);
      OneMore(total, counts[i], w[i]);
    }
    CountsSum(w, Zeros(|w|), total);
    SameSum(counts, w);
    forall i | 0 <= i < |w| ensures After(w, Zeros(|w|), total)[i] == 0 {
      Settled(w, total, i, counts);
    }
  }

  lemma {:induction false} Settled(w: seq<int>, total: nat, i: nat, counts: seq<int>)
    requires w != [] && i < |w| && total == Sum(w) && counts == w && counts == Counts(w, Zeros(|w|), total)
    ensures After(w, Zeros(|w|), total)[i] == 0
  {
    Account(w, Zeros(|w|), total, i);
    assert Picks(w, Zeros(|w|), total, i) == counts[i] == w[i];
    TimesIsProduct(w[i], total);
    TimesIsProduct(total, w[i]);
  }

  lemma {:induction false} AfterSum(w: seq<int>, c: seq<int>, a: nat, b: nat)
    requires |c| == |w| && w != []
    ensures After(w, c, a + b) == After(w, After(w, c, a), b)
  {
    if b > 0 {
      AfterSum(w, c, a, b - 1);
    }
  }

  /** The same holds for every later block: the sequence of picks repeats. */
  lemma {:induction false} EveryBlock(w: seq<int>, m: nat)
    requires Weights(w)
    ensures Sum(w) >= 1 && m * Sum(w) >= 0
    ensures After(w, Zeros(|w|), m * Sum(w)) == Zeros(|w|)
    ensures Counts(w, After(w, Zeros(|w|), m * Sum(w)), Sum(w)) == w
  {
    BlockExact(w);
    if m > 0 {
      EveryBlock(w, m - 1);
      assert m * Sum(w) == (m - 1) * Sum(w) + Sum(w);
      AfterSum(w, Zeros(|w|), (m - 1) * Sum(w), Sum(w));
    }
  }
}
