/** Searching and deleting in Python lists, which the record's phone list and
    the book's key order both rely on. */
module Seqs {
  import opened Exceptions

  /** Position of the first element equal to `x`, as a linear search from the
      front finds it. */
  function FirstIndex<T(==)>(xs: seq<T>, x: T): (r: Option<nat>)
    ensures r.None? <==> x !in xs
    ensures r.Some? ==> r.value < |xs| && xs[r.value] == x && x !in xs[..r.value]
  {
    if xs == [] then None
    else if xs[0] == x then Some(0)
    else match FirstIndex(xs[1..], x)
      case None => None
      case Some(i) =>
        assert xs[1..][..i] == xs[1..i + 1];
        assert xs[..i + 1] == [xs[0]] + xs[1..i + 1];
        Some(i + 1)
  }

  /** The first match is the only index before which `x` does not occur. */
  lemma FirstIndexAt<T>(xs: seq<T>, x: T, i: nat)
    requires i < |xs| && xs[i] == x && x !in xs[..i]
    ensures FirstIndex(xs, x) == Some(i)
  {
  }

  /** `list.remove(x)`: deletes the first element equal to `x`, if any. */
  function RemoveFirst<T(==)>(xs: seq<T>, x: T): seq<T>
  {
    match FirstIndex(xs, x)
    case None => xs
    case Some(i) => xs[..i] + xs[i + 1..]
  }

  /** Removing leaves the list as it was when `x` is absent; otherwise it
      takes out exactly one occurrence of `x`. */
  lemma RemoveFirstMeaning<T>(xs: seq<T>, x: T)
    ensures x !in xs ==> RemoveFirst(xs, x) == xs
    ensures x in xs ==> |RemoveFirst(xs, x)| == |xs| - 1
                        && multiset(RemoveFirst(xs, x)) == multiset(xs) - multiset{x}
  {
    if x in xs {
      var i := FirstIndex(xs, x).value;
      var front, back := xs[..i], xs[i + 1..];
      assert RemoveFirst(xs, x) == front + back;
      assert xs == front + [x] + back;
      assert multiset(xs) == multiset(front) + multiset{x} + multiset(back);
    }
  }

  /** The occurrence taken out is the first: the elements before and after it
      keep their places. */
  lemma RemoveFirstAround<T>(xs: seq<T>, x: T, i: nat)
    requires FirstIndex(xs, x) == Some(i)
    ensures RemoveFirst(xs, x)[..i] == xs[..i] && RemoveFirst(xs, x)[i..] == xs[i + 1..]
  {
    var r := RemoveFirst(xs, x);
    assert r == xs[..i] + xs[i + 1..];
  }

  /** No element occurs twice. */
  predicate NoDup<T(==)>(xs: seq<T>)
  {
    forall i, j :: 0 <= i < j < |xs| ==> xs[i] != xs[j]
  }

  /** Element `k` of the list after a removal at `i`. */
  lemma RemovedAt<T>(xs: seq<T>, i: nat, k: nat)
    requires i < |xs| && k < |xs| - 1
    ensures (xs[..i] + xs[i + 1..])[k] == if k < i then xs[k] else xs[k + 1]
  {
  }

  /** Removing an element from a sequence without repetitions leaves one
      without repetitions. */
  lemma RemoveFirstNoDup<T>(xs: seq<T>, x: T)
    requires NoDup(xs)
    ensures NoDup(RemoveFirst(xs, x))
  {
    if x in xs {
      var i := FirstIndex(xs, x).value;
      var r := RemoveFirst(xs, x);
      assert r == xs[..i] + xs[i + 1..];
      forall a, b | 0 <= a < b < |r| ensures r[a] != r[b] {
        RemovedAt(xs, i, a);
        RemovedAt(xs, i, b);
      }
    }
  }

  /** Removing an element from a sequence without repetitions leaves exactly
      the other elements. */
  lemma RemoveFirstMembers<T>(xs: seq<T>, x: T)
    requires NoDup(xs)
    ensures forall y :: y in RemoveFirst(xs, x) <==> y in xs && y != x
  {
    if x in xs {
      var i := FirstIndex(xs, x).value;
      var front, back := xs[..i], xs[i + 1..];
      assert xs == front + [x] + back;
      assert RemoveFirst(xs, x) == front + back;
      assert x !in back by {
        forall k | 0 <= k < |back| ensures back[k] != x {
          assert back[k] == xs[i + 1 + k];
        }
      }
    }
  }

  /** A sequence without repetitions has as many distinct elements as it has
      entries. */
  lemma {:induction false} NoDupCard<T>(xs: seq<T>)
    requires NoDup(xs)
    ensures |set x | x in xs| == |xs|
    decreases |xs|
  {
    if xs != [] {
      var n := |xs| - 1;
      var front := xs[..n];
      assert NoDup(front) by {
        forall i, j | 0 <= i < j < |front| ensures front[i] != front[j] {
          assert front[i] == xs[i] && front[j] == xs[j];
        }
      }
      NoDupCard(front);
      assert xs[n] !in front by {
        forall i | 0 <= i < |front| ensures front[i] != xs[n] {
          assert front[i] == xs[i];
        }
      }
      assert xs == front + [xs[n]];
      assert (set x | x in xs) == (set x | x in front) + {xs[n]};
    }
  }

  /** `xs` is `ys` with some elements left out, the rest in their order. */
  predicate Subseq<T(==)>(xs: seq<T>, ys: seq<T>)
    decreases |ys|
  {
    if ys == [] then xs == []
    else Subseq(xs, ys[1..]) || (xs != [] && xs[0] == ys[0] && Subseq(xs[1..], ys[1..]))
  }

  /** A subsequence keeps only elements of the sequence. */
  lemma {:induction false} SubseqMembers<T>(xs: seq<T>, ys: seq<T>)
    requires Subseq(xs, ys)
    ensures forall x :: x in xs ==> x in ys
  {
    if ys != [] {
      if Subseq(xs, ys[1..]) {
        SubseqMembers(xs, ys[1..]);
      } else {
        SubseqMembers(xs[1..], ys[1..]);
        assert forall x :: x in xs ==> x == xs[0] || x in xs[1..];
      }
    }
  }

  /** A subsequence of a sequence without repetitions has none either: each
      element appears at most once. */
  lemma {:induction false} SubseqNoDup<T>(xs: seq<T>, ys: seq<T>)
    requires Subseq(xs, ys) && NoDup(ys)
    ensures NoDup(xs)
  {
    if ys != [] {
      assert NoDup(ys[1..]) by {
        forall i, j | 0 <= i < j < |ys[1..]| ensures ys[1..][i] != ys[1..][j] {
          assert ys[1..][i] == ys[i + 1] && ys[1..][j] == ys[j + 1];
        }
      }
      if Subseq(xs, ys[1..]) {
        SubseqNoDup(xs, ys[1..]);
      } else {
        SubseqNoDup(xs[1..], ys[1..]);
        SubseqMembers(xs[1..], ys[1..]);
        assert ys[0] !in ys[1..] by {
          forall k | 0 <= k < |ys[1..]| ensures ys[1..][k] != ys[0] {
            assert ys[1..][k] == ys[k + 1];
          }
        }
        forall i, j | 0 <= i < j < |xs| ensures xs[i] != xs[j] {
          if i == 0 {
            assert xs[j] == xs[1..][j - 1];
          } else {
            assert xs[i] == xs[1..][i - 1] && xs[j] == xs[1..][j - 1];
          }
        }
      }
    }
  }
}
