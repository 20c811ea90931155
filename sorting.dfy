/** `list.sort(key=..., reverse=True)` on string keys, in place. */
module Sorting {
  import opened Lex

  /** Every element's key is not before the key of any later element. */
  ghost predicate DescendingBy<T>(s: seq<T>, key: T -> string) {
    forall i, j :: 0 <= i < j < |s| ==> !Less(key(s[i]), key(s[j]))
  }

  /** Every later element's key comes strictly before an earlier one's. */
  ghost predicate StrictlyDescendingBy<T>(s: seq<T>, key: T -> string) {
    forall i, j :: 0 <= i < j < |s| ==> Less(key(s[j]), key(s[i]))
  }

  ghost predicate DistinctKeys<T>(s: seq<T>, key: T -> string) {
    forall i, j :: 0 <= i < j < |s| ==> key(s[i]) != key(s[j])
  }

  /** With no two equal keys, descending is strictly descending: each key appears once. */
  lemma DescendingDistinctIsStrict<T>(s: seq<T>, key: T -> string)
    requires DescendingBy(s, key) && DistinctKeys(s, key)
    ensures StrictlyDescendingBy(s, key)
  {
    forall i, j | 0 <= i < j < |s|
      ensures Less(key(s[j]), key(s[i]))
    {
      LessTotal(key(s[i]), key(s[j]));
    }
  }

  /** Keys that are distinct in a sequence stay distinct in any permutation of it. */
  lemma DistinctKeysPermutation<T>(s: seq<T>, t: seq<T>, key: T -> string)
    requires multiset(s) == multiset(t)
    requires DistinctKeys(s, key)
    ensures DistinctKeys(t, key)
  {
    forall i, j | 0 <= i < j < |t|
      ensures key(t[i]) != key(t[j])
    {
      assert t[i] in multiset(s) && t[j] in multiset(s);
      var p :| 0 <= p < |s| && s[p] == t[i];
      var q :| 0 <= q < |s| && s[q] == t[j];
      MultiplicityOne(s, p, key);
      MultiplicityTwo(t, i, j);
    }
  }

  lemma MultiplicityTwo<T>(t: seq<T>, i: int, j: int)
    requires 0 <= i < j < |t|
    ensures t[i] == t[j] ==> multiset(t)[t[i]] >= 2
  {
    assert t == t[..i] + [t[i]] + t[i + 1..j] + [t[j]] + t[j + 1..];
  }

  lemma MultiplicityOne<T>(s: seq<T>, p: int, key: T -> string)
    requires DistinctKeys(s, key) && 0 <= p < |s|
    ensures multiset(s)[s[p]] == 1
  {
    assert s == s[..p] + [s[p]] + s[p + 1..];
    assert forall k :: 0 <= k < p ==> s[..p][k] == s[k] != s[p];
    var tail := s[p + 1..];
    forall k | 0 <= k < |tail|
      ensures tail[k] != s[p]
    {
      assert tail[k] == s[p + 1 + k];
    }
    assert s[p] !in s[..p];
    assert s[p] !in s[p + 1..];
  }

  /** The state of one insertion: apart from the moving element at `j`, the
      prefix up to `i` is descending, and everything the moving element has
      passed comes strictly before it. */
  ghost predicate Sifting<T>(s: seq<T>, i: int, j: int, key: T -> string) {
    0 <= j <= i < |s| &&
    (forall p, q :: 0 <= p < q <= i && p != j && q != j ==> !Less(key(s[p]), key(s[q]))) &&
    (forall q :: j < q <= i ==> Less(key(s[q]), key(s[j])))
  }

  /** Swapping the moving element with a predecessor that comes before it
      keeps the insertion state, one place further left. */
  lemma SwapSifts<T>(s: seq<T>, i: int, j: int, key: T -> string)
    requires Sifting(s, i, j, key) && 0 < j && Less(key(s[j - 1]), key(s[j]))
    ensures Sifting(s[j - 1 := s[j]][j := s[j - 1]], i, j - 1, key)
  {
    var t := s[j - 1 := s[j]][j := s[j - 1]];
    assert forall k :: 0 <= k < |s| && k != j - 1 && k != j ==> t[k] == s[k];
    assert t[j - 1] == s[j] && t[j] == s[j - 1];
  }

  /** Once the moving element meets a predecessor that does not come before
      it, the prefix up to `i` is descending. */
  lemma SiftDone<T>(s: seq<T>, i: int, j: int, key: T -> string)
    requires Sifting(s, i, j, key) && (j == 0 || !Less(key(s[j - 1]), key(s[j])))
    ensures forall p, q :: 0 <= p < q <= i ==> !Less(key(s[p]), key(s[q]))
  {
    forall p, q | 0 <= p < q <= i
      ensures !Less(key(s[p]), key(s[q]))
    {
      if q == j && p < j - 1 {
        NotLessTransitive(key(s[p]), key(s[j - 1]), key(s[j]));
      } else if p == j {
        LessAsymmetric(key(s[q]), key(s[j]));
      }
    }
  }

  /** Swapping two neighbours keeps the elements and every other position. */
  lemma SwapKeeps<T>(s: seq<T>, j: int)
    requires 0 < j < |s|
    ensures var t := s[j - 1 := s[j]][j := s[j - 1]];
      multiset(t) == multiset(s) && forall k :: 0 <= k < |s| && k != j - 1 && k != j ==> t[k] == s[k]
  {
  }

  /** Moves `a[i]` left past every element whose key comes before its own, so
      that `a[..i + 1]` becomes ordered by descending key. */
  method InsertDescending<T>(a: array<T>, i: int, key: T -> string)
    requires 0 <= i < a.Length
    requires forall p, q :: 0 <= p < q < i ==> !Less(key(a[p]), key(a[q]))
    modifies a
    ensures forall p, q :: 0 <= p < q <= i ==> !Less(key(a[p]), key(a[q]))
    ensures multiset(a[..]) == multiset(old(a[..]))
    ensures forall k :: i < k < a.Length ==> a[k] == old(a[k])
  {
    var j := i;
    while j > 0 && Less(key(a[j - 1]), key(a[j]))
      invariant Sifting(a[..], i, j, key)
      invariant multiset(a[..]) == multiset(old(a[..]))
      invariant forall k :: i < k < a.Length ==> a[k] == old(a[k])
    {
      ghost var before := a[..];
      assert before[j - 1] == a[j - 1] && before[j] == a[j];
      SwapSifts(before, i, j, key);
      SwapKeeps(before, j);
      a[j - 1], a[j] := a[j], a[j - 1];
      assert a[..] == before[j - 1 := before[j]][j := before[j - 1]];
      j := j - 1;
    }
    assert j > 0 ==> a[..][j - 1] == a[j - 1] && a[..][j] == a[j];
    SiftDone(a[..], i, j, key);
  }

  /** Insertion sort: the array ends up ordered by descending key and holds
      exactly the elements it held before. */
  method SortDescending<T>(a: array<T>, key: T -> string)
    modifies a
    ensures DescendingBy(a[..], key)
    ensures multiset(a[..]) == multiset(old(a[..]))
  {
    for i := 0 to a.Length
      invariant forall p, q :: 0 <= p < q < i ==> !Less(key(a[p]), key(a[q]))
      invariant multiset(a[..]) == multiset(old(a[..]))
    {
      InsertDescending(a, i, key);
    }
  }
}
