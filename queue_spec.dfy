/**
 * The abstract view of a run queue: the sequence of thread control blocks it
 * holds, front first. The functions here are the specifications that the
 * pointer-based queues are proved against.
 */
module QueueSpec {

  /** No element occurs twice: a thread is queued at most once. */
  ghost predicate Distinct<T>(s: seq<T>)
  {
    forall i, j :: 0 <= i < j < |s| ==> s[i] != s[j]
  }

  /** Appending an element that is not there yet keeps a sequence free of duplicates. */
  lemma DistinctAppend<T>(s: seq<T>, x: T)
    requires Distinct(s) && x !in s
    ensures Distinct(s + [x])
  {
    forall i, j | 0 <= i < j < |s + [x]| ensures (s + [x])[i] != (s + [x])[j] {
      assert (s + [x])[i] == s[i];
    }
  }

  /** `s` with the first occurrence of `x` taken out (unchanged if `x` is absent). */
  function Without<T(==)>(s: seq<T>, x: T): (r: seq<T>)
    ensures |r| == if x in s then |s| - 1 else |s|
    ensures forall y :: y in r ==> y in s
  {
    if s == [] then []
    else if s[0] == x then s[1..]
    else [s[0]] + Without(s[1..], x)
  }

  /** Taking out an element that is not there changes nothing. */
  lemma {:induction false} WithoutAbsent<T>(s: seq<T>, x: T)
    requires x !in s
    ensures Without(s, x) == s
  {
    if s != [] {
      WithoutAbsent(s[1..], x);
    }
  }

  /** Taking out an element unlinks it and keeps everything around it, in order. */
  lemma {:induction false} WithoutSplit<T>(a: seq<T>, x: T, b: seq<T>)
    requires x !in a
    ensures Without(a + [x] + b, x) == a + b
  {
    if a == [] {
      assert a + [x] + b == [x] + b;
    } else {
      assert (a + [x] + b)[1..] == a[1..] + [x] + b;
      WithoutSplit(a[1..], x, b);
      assert a == [a[0]] + a[1..];
    }
  }

  /** In a queue without duplicates, taking out `x` leaves exactly the other members, still without duplicates. */
  lemma {:induction false} WithoutDistinct<T>(s: seq<T>, x: T)
    requires Distinct(s)
    ensures Distinct(Without(s, x))
    ensures forall y :: y in Without(s, x) <==> y in s && y != x
  {
    if s != [] {
      var t := s[1..];
      assert s == [s[0]] + t;
      assert s[0] !in t by {
        forall i | 0 <= i < |t| ensures t[i] != s[0] { assert t[i] == s[i + 1]; }
      }
      assert Distinct(t) by {
        forall i, j | 0 <= i < j < |t| ensures t[i] != t[j] { assert t[i] == s[i + 1] && t[j] == s[j + 1]; }
      }
      if s[0] != x {
        WithoutDistinct(t, x);
        var w := Without(t, x);
        assert Without(s, x) == [s[0]] + w;
        forall i, j | 0 <= i < j < |[s[0]] + w| ensures ([s[0]] + w)[i] != ([s[0]] + w)[j] {
          if i > 0 {
            assert ([s[0]] + w)[i] == w[i - 1] && ([s[0]] + w)[j] == w[j - 1];
          } else {
            assert ([s[0]] + w)[j] == w[j - 1] && w[j - 1] in t;
          }
        }
      }
    }
  }

  /** One round-robin step: the front moves to the back. */
  function RotateLeft<T>(s: seq<T>): (r: seq<T>)
    ensures |r| == |s|
  {
    if s == [] then [] else s[1..] + [s[0]]
  }

  /** One round-robin step keeps every thread: the line-up after it is a permutation of the one before. */
  lemma RotateLeftPermutes<T>(s: seq<T>)
    ensures multiset(RotateLeft(s)) == multiset(s)
  {
    if s != [] {
      assert s == [s[0]] + s[1..];
    }
  }

  /** `k` round-robin steps. */
  function Rotations<T>(s: seq<T>, k: nat): (r: seq<T>)
    ensures |r| == |s|
  {
    if k == 0 then s else RotateLeft(Rotations(s, k - 1))
  }

  /** `a + b` steps are `a` steps followed by `b` steps. */
  lemma {:induction false} RotationsAdd<T>(s: seq<T>, a: nat, b: nat)
    ensures Rotations(s, a + b) == Rotations(Rotations(s, a), b)
  {
    if b > 0 {
      RotationsAdd(s, a, b - 1);
    }
  }

  /** Within the first round, `k` steps move the first `k` threads, in order, behind the others. */
  lemma {:induction false} RotationsPrefix<T>(s: seq<T>, k: nat)
    requires k <= |s|
    ensures Rotations(s, k) == s[k..] + s[..k]
  {
    if k == 0 {
      assert s[0..] + s[..0] == s;
    } else {
      RotationsPrefix(s, k - 1);
      var t := s[k-1..] + s[..k-1];
      assert t[0] == s[k-1];
      assert t[1..] == s[k..] + s[..k-1];
      assert s[..k-1] + [s[k-1]] == s[..k];
    }
  }

  /** `|s|` round-robin steps bring the line-up back to where it started. */
  lemma FullCycle<T>(s: seq<T>)
    ensures Rotations(s, |s|) == s
  {
    RotationsPrefix(s, |s|);
    assert s[|s|..] + s[..|s|] == s;
  }

  /** After `q` full rounds and `r` more steps the line-up is the original one cut at position `r`. */
  lemma {:induction false} RotationsClosedForm<T>(s: seq<T>, q: nat, r: nat)
    requires r < |s|
    ensures Rotations(s, q * |s| + r) == s[r..] + s[..r]
  {
    var n := |s|;
    if q == 0 {
      RotationsPrefix(s, r);
    } else {
      var m := (q - 1) * n + r;
      assert q * n + r == n + m;
      RotationsAdd(s, n, m);
      FullCycle(s);
      RotationsClosedForm(s, q - 1, r);
    }
  }

  /** Under round robin the thread at the front after `k` steps is the one `k mod |s|` places along the original line-up. */
  lemma RoundRobinTurn<T>(s: seq<T>, k: nat)
    requires s != []
    ensures Rotations(s, k)[0] == s[k % |s|]
  {
    var n := |s|;
    var q, r := k / n, k % n;
    assert 0 <= r < n;
    assert q * n + r == k;
    RotationsClosedForm(s, q, r);
    assert Rotations(s, k) == s[r..] + s[..r];
    assert (s[r..] + s[..r])[0] == s[r];
  }
}
