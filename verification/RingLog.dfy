/**
 A circular buffer as a window on an unbounded log: byte `p` of the log sits at `p` modulo the capacity
 for as long as it is among the last `capacity` bytes.
 */
module RingLog {
  import opened Arithmetic

  // ---- Remainders ----

  lemma {:induction false} ModAdd(a: nat, i: nat, n: nat)
    requires n > 0 && a % n + i < n
    ensures (a + i) % n == a % n + i
  {
    UniqueRemainder(a + i, n, a / n, a % n + i);
  }

  /** The remainder of a sum depends only on the remainders. */
  lemma {:induction false} ModWrap(a: nat, i: nat, n: nat)
    requires n > 0
    ensures (a % n + i) % n == (a + i) % n
  {
    var q, r := (a % n + i) / n, (a % n + i) % n;
    assert n * (a / n) + n * q == n * (a / n + q);
    UniqueRemainder(a + i, n, a / n + q, r);
  }

  /** Positions less than `n` apart do not collide. */
  lemma {:induction false} ModDistinct(a: nat, b: nat, n: nat)
    requires n > 0 && a < b < a + n
    ensures a % n != b % n
  {
    var i := b - a;
    if a % n + i < n {
      ModAdd(a, i, n);
    } else {
      ModWrap(a, i, n);
      UniqueRemainder(a % n + i, n, 1, a % n + i - n);
    }
  }

  // ---- The window ----

  ghost predicate Window<T(!new)>(d: seq<T>, log: seq<T>) {
    |d| > 0 && forall p :: InWindow(|d|, |log|, p) ==> d[p % |d|] == log[p]
  }

  ghost predicate InWindow(n: nat, total: nat, p: int) {
    0 <= p < total && total <= p + n
  }

  function Patch<T>(d: seq<T>, pos: nat, c: seq<T>): (r: seq<T>)
    requires pos + |c| <= |d|
    ensures |r| == |d|
  {
    d[..pos] + c + d[pos + |c|..]
  }

  /** Writing a chunk that does not cross the end moves the window forward. */
  lemma {:induction false} WriteChunk<T(!new)>(d: seq<T>, log: seq<T>, c: seq<T>)
    requires Window(d, log) && |log| % |d| + |c| <= |d|
    ensures Window(Patch(d, |log| % |d|, c), log + c)
  {
    var pos, r := |log| % |d|, Patch(d, |log| % |d|, c);
    forall p | InWindow(|d|, |log + c|, p) ensures r[p % |d|] == (log + c)[p] {
      if p >= |log| {
        ModAdd(|log|, p - |log|, |d|);
      } else {
        Untouched(|d|, |log|, |c|, p);
        assert InWindow(|d|, |log|, p);
      }
    }
  }

  lemma {:induction false} Untouched(n: nat, total: nat, chunk: nat, p: nat)
    requires n > 0 && total % n + chunk <= n && p < total && total + chunk <= p + n
    ensures p % n < total % n || total % n + chunk <= p % n
  {
    if total % n <= p % n < total % n + chunk {
      var i := p % n - total % n;
      ModAdd(total, i, n);
      ModDistinct(p, total + i, n);
    }
  }

  lemma {:induction false} Advance(total: nat, chunk: nat, n: nat)
    requires n > 0
    ensures (total % n + chunk) % n == (total + chunk) % n
  {
    ModWrap(total, chunk, n);
  }

  // ---- Reading ----

  function ReadAt<T>(d: seq<T>, offset: nat, n: nat): (s: seq<T>)
    requires |d| > 0
    ensures |s| == n
  {
    seq(n, i requires 0 <= i < n => d[(offset + i) % |d|])
  }

  lemma {:induction false} ReadChunk<T>(d: seq<T>, offset: nat, done: nat, pos: nat, chunk: nat)
    requires |d| > 0 && pos == (offset + done) % |d| && pos + chunk <= |d|
    ensures ReadAt(d, offset, done + chunk) == ReadAt(d, offset, done) + d[pos..pos + chunk]
  {
    var whole := ReadAt(d, offset, done + chunk);
    assert whole[..done] == ReadAt(d, offset, done);
    forall k | done <= k < done + chunk ensures whole[k] == d[pos..pos + chunk][k - done] {
      ReadByte(d, offset, done, pos, k);
    }
    Pieces(whole, ReadAt(d, offset, done), d[pos..pos + chunk]);
  }

  lemma {:induction false} ReadByte<T>(d: seq<T>, offset: nat, done: nat, pos: nat, k: nat)
    requires |d| > 0 && pos == (offset + done) % |d| && done <= k && pos + (k - done) < |d|
    ensures d[(offset + k) % |d|] == d[pos + (k - done)]
  {
    ModAdd(offset + done, k - done, |d|);
    assert offset + done + (k - done) == offset + k;
  }

  lemma {:induction false} Pieces<T>(s: seq<T>, a: seq<T>, b: seq<T>)
    requires |s| == |a| + |b| && s[..|a|] == a && forall k :: |a| <= k < |s| ==> s[k] == b[k - |a|]
    ensures s == a + b
  {
    assert s == s[..|a|] + s[|a|..];
  }

  /** What is read at a log position still in the window is the log. */
  lemma {:induction false} ReadIsLog<T(!new)>(d: seq<T>, log: seq<T>, start: nat, n: nat, offset: nat)
    requires Window(d, log) && start + n <= |log| <= start + |d| && offset % |d| == start % |d|
    ensures ReadAt(d, offset, n) == log[start..start + n]
  {
    forall i | 0 <= i < n ensures ReadAt(d, offset, n)[i] == log[start + i] {
      ModWrap(offset, i, |d|);
      ModWrap(start, i, |d|);
      assert InWindow(|d|, |log|, start + i);
    }
  }
}
