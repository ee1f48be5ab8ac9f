/** Sequence helpers standing for the Swift array operations the model needs:
    `contains`, `indexOf`, `removeAtIndex(indexOf(x)!)` and counting. */
module SeqUtil {

  /** Number of occurrences of `x` in `s`. */
  function Count<T(==)>(s: seq<T>, x: T): (n: nat)
    ensures n <= |s|
    ensures n == 0 <==> x !in s
  {
    if |s| == 0 then 0
    else (if s[0] == x then 1 else 0) + Count(s[1..], x)
  }

  /** Number of elements of `s` that satisfy `p`. */
  function CountIf<T>(s: seq<T>, p: T -> bool): (n: nat)
    ensures n <= |s|
  {
    if |s| == 0 then 0
    else (if p(s[0]) then 1 else 0) + CountIf(s[1..], p)
  }

  /** Counting distributes over concatenation. */
  lemma {:induction false} CountIfConcat<T>(a: seq<T>, b: seq<T>, p: T -> bool)
    ensures CountIf(a + b, p) == CountIf(a, p) + CountIf(b, p)
  {
    if |a| == 0 {
      assert a + b == b;
    } else {
      assert (a + b)[1..] == a[1..] + b;
      CountIfConcat(a[1..], b, p);
    }
  }

  /** Swift's `indexOf(x)!`: the position of the first occurrence of `x`. */
  function IndexOf<T(==)>(s: seq<T>, x: T): (i: nat)
    requires x in s
    ensures i < |s| && s[i] == x
    ensures x !in s[..i]
  {
    if s[0] == x then 0
    else
      InTail(s, x);
      1 + IndexOf(s[1..], x)
  }

  lemma InTail<T>(s: seq<T>, x: T)
    requires |s| > 0 && s[0] != x
    ensures x in s <==> x in s[1..]
  {
    assert s == [s[0]] + s[1..];
  }

  /** `if contains(x) { removeAtIndex(indexOf(x)!) }`: drops the first
      occurrence of `x` and keeps everything else in order. */
  function RemoveFirst<T(==)>(s: seq<T>, x: T): (r: seq<T>)
    ensures x !in s ==> r == s
    ensures x in s ==> r == s[..IndexOf(s, x)] + s[IndexOf(s, x) + 1..]
  {
    if |s| == 0 then []
    else if s[0] == x then s[1..]
    else
      var rest := RemoveFirst(s[1..], x);
      InTail(s, x);
      if x in s then
        RemoveFirstStep(s, x, rest);
        [s[0]] + rest
      else
        [s[0]] + rest
  }

  /** The step of `RemoveFirst` past a head that is not `x`. */
  lemma RemoveFirstStep<T>(s: seq<T>, x: T, rest: seq<T>)
    requires |s| > 0 && s[0] != x
    requires x in s[1..]
    requires rest == s[1..][..IndexOf(s[1..], x)] + s[1..][IndexOf(s[1..], x) + 1..]
    ensures [s[0]] + rest == s[..IndexOf(s, x)] + s[IndexOf(s, x) + 1..]
  {
    var tail := s[1..];
    InTail(s, x);
    var j := IndexOf(tail, x);
    assert IndexOf(s, x) == j + 1;
    var lhs, rhs := [s[0]] + rest, s[..j + 1] + s[j + 2..];
    assert |lhs| == |rhs|;
    forall k | 0 <= k < |lhs| ensures lhs[k] == rhs[k] {
      if 0 < k <= j {
        assert lhs[k] == tail[k - 1];
      } else if k > j {
        assert lhs[k] == tail[k];
      }
    }
  }

  /** Removing the first occurrence takes exactly one copy of `x` out of the
      multiset of elements, or none when `x` is absent. */
  lemma {:induction false} RemoveFirstMultiset<T>(s: seq<T>, x: T)
    ensures multiset(RemoveFirst(s, x)) == multiset(s) - multiset{x}
  {
    if |s| > 0 {
      assert s == [s[0]] + s[1..];
      if s[0] != x {
        RemoveFirstMultiset(s[1..], x);
        assert RemoveFirst(s, x) == [s[0]] + RemoveFirst(s[1..], x);
      }
    }
  }

  /** `removeAtIndex(i)`. */
  function RemoveAt<T>(s: seq<T>, i: nat): (r: seq<T>)
    requires i < |s|
    ensures |r| == |s| - 1
    ensures forall k :: 0 <= k < i ==> r[k] == s[k]
    ensures forall k :: i <= k < |r| ==> r[k] == s[k + 1]
  {
    s[..i] + s[i + 1..]
  }

  /** Removing a position from a duplicate-free sequence removes exactly
      the element stored there. */
  lemma RemoveAtNoDuplicates<T>(s: seq<T>, i: nat)
    requires i < |s| && NoDuplicates(s)
    ensures NoDuplicates(RemoveAt(s, i))
    ensures forall x :: x in RemoveAt(s, i) <==> x in s && x != s[i]
  {
    var r := RemoveAt(s, i);
    forall x | x in r ensures x in s && x != s[i] {
      var k :| 0 <= k < |r| && r[k] == x;
      if k < i { assert s[k] == x; } else { assert s[k + 1] == x; }
    }
    forall x | x in s && x != s[i] ensures x in r {
      var k :| 0 <= k < |s| && s[k] == x;
      if k < i { assert r[k] == x; } else { assert r[k - 1] == x; }
    }
  }

  /** No element occurs twice. */
  predicate NoDuplicates<T(==)>(s: seq<T>) {
    forall i, j :: 0 <= i < j < |s| ==> s[i] != s[j]
  }

  /** Both halves of a duplicate-free sequence are duplicate-free and
      share no element. */
  lemma SplitNoDuplicates<T>(a: seq<T>, b: seq<T>)
    requires NoDuplicates(a + b)
    ensures NoDuplicates(a) && NoDuplicates(b)
    ensures forall x :: x in a ==> x !in b
  {
    var s := a + b;
    forall i, j | 0 <= i < j < |a| ensures a[i] != a[j] {
      assert a[i] == s[i] && a[j] == s[j];
    }
    forall i, j | 0 <= i < j < |b| ensures b[i] != b[j] {
      assert b[i] == s[|a| + i] && b[j] == s[|a| + j];
    }
    forall x | x in a ensures x !in b {
      var i :| 0 <= i < |a| && a[i] == x;
      forall j | 0 <= j < |b| ensures b[j] != x {
        assert s[i] == x && s[|a| + j] == b[j];
      }
    }
  }

  /** Removing the first occurrence keeps a duplicate-free sequence free of
      duplicates and removes every occurrence of the element. */
  lemma RemoveFirstNoDuplicates<T>(s: seq<T>, x: T)
    requires NoDuplicates(s)
    ensures NoDuplicates(RemoveFirst(s, x))
    ensures forall y :: y in RemoveFirst(s, x) <==> y in s && y != x
  {
    if x in s {
      var i := IndexOf(s, x);
      RemoveAtNoDuplicates(s, i);
      assert RemoveFirst(s, x) == RemoveAt(s, i);
    }
  }
}
