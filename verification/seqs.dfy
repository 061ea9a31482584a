/** Generic sequence operations that stand in for the document store's
    "first document whose field equals v" lookups and for JavaScript's
    Array.prototype.filter / splice on embedded arrays. Elements are compared
    through a key function (a document's id, its owner, its email, ...). */
module Seqs {

  /** The elements of `a` occur in `b` in the same relative order. */
  predicate Subsequence<T(==)>(a: seq<T>, b: seq<T>)
    decreases |b|
  {
    if |a| == 0 then true
    else if |b| == 0 then false
    else (a[0] == b[0] && Subsequence(a[1..], b[1..])) || Subsequence(a, b[1..])
  }

  /** Some element of `s` has key `k`. */
  predicate Contains<T, K(==)>(s: seq<T>, key: T -> K, k: K)
  {
    exists i :: 0 <= i < |s| && key(s[i]) == k
  }

  /** No two elements of `s` share a key. */
  predicate Distinct<T, K(==)>(s: seq<T>, key: T -> K)
  {
    forall i, j :: 0 <= i < j < |s| ==> key(s[i]) != key(s[j])
  }

  /** Position of the first element whose key is `k`; `|s|` when there is
      none (where JavaScript's findIndex/indexOf would answer -1). */
  function IndexOf<T, K(==)>(s: seq<T>, key: T -> K, k: K): (i: nat)
    ensures i <= |s|
    ensures i < |s| ==> key(s[i]) == k
    ensures forall j :: 0 <= j < i ==> key(s[j]) != k
    ensures i < |s| <==> Contains(s, key, k)
    decreases |s|
  {
    if |s| == 0 then 0
    else if key(s[0]) == k then 0
    else
      var i := 1 + IndexOf(s[1..], key, k);
      assert forall j :: 1 <= j < |s| ==> s[j] == s[1..][j - 1];
      i
  }

  /** `s` with the element at position `i` cut out (splice(i, 1)). */
  function RemoveAt<T>(s: seq<T>, i: nat): (r: seq<T>)
    requires i < |s|
    ensures |r| == |s| - 1
    ensures forall j :: 0 <= j < i ==> r[j] == s[j]
    ensures forall j :: i <= j < |r| ==> r[j] == s[j + 1]
  {
    s[..i] + s[i + 1..]
  }

  /** The elements of `s` whose key differs from `k`, in their original order. */
  function Without<T(==,!new), K(==)>(s: seq<T>, key: T -> K, k: K): (r: seq<T>)
    ensures Subsequence(r, s)
    ensures !Contains(r, key, k)
    ensures |r| <= |s|
    decreases |s|
  {
    if |s| == 0 then []
    else
      var rest := Without(s[1..], key, k);
      if key(s[0]) == k then
        SubsequenceDropHead(rest, s);
        rest
      else
        assert ([s[0]] + rest)[1..] == rest;
        assert forall j :: 1 <= j < |[s[0]] + rest| ==> ([s[0]] + rest)[j] == rest[j - 1];
        [s[0]] + rest
  }

  /** Deletes the first element whose key is `k` (findOneAndDelete); leaves
      `s` alone when there is none. */
  function RemoveFirst<T(==,!new), K(==)>(s: seq<T>, key: T -> K, k: K): (r: seq<T>)
    ensures Contains(s, key, k) ==> |r| == |s| - 1
    ensures Contains(s, key, k) ==>
      var i := IndexOf(s, key, k);
      r[..i] == s[..i] && r[i..] == s[i + 1..]
    ensures !Contains(s, key, k) ==> r == s
    ensures Distinct(s, key) ==> r == Without(s, key, k)
  {
    var i := IndexOf(s, key, k);
    if i < |s| then
      assert Distinct(s, key) ==> RemoveAt(s, i) == Without(s, key, k) by {
        if Distinct(s, key) {
          RemoveUniqueIsWithout(s, key, k);
        }
      }
      RemoveAt(s, i)
    else
      WithoutNoMatch(s, key, k);
      s
  }

  lemma SubsequenceDropHead<T>(a: seq<T>, b: seq<T>)
    requires |b| > 0 && Subsequence(a, b[1..])
    ensures Subsequence(a, b)
  {
  }

  /** Filtering out a key nobody has changes nothing. */
  lemma {:induction false} WithoutNoMatch<T(!new), K>(s: seq<T>, key: T -> K, k: K)
    requires !Contains(s, key, k)
    ensures Without(s, key, k) == s
    decreases |s|
  {
    if |s| > 0 {
      assert key(s[0]) != k;
      assert !Contains(s[1..], key, k) by {
        forall j | 0 <= j < |s[1..]| ensures key(s[1..][j]) != k {
          assert s[1..][j] == s[j + 1];
        }
      }
      WithoutNoMatch(s[1..], key, k);
      assert s == [s[0]] + s[1..];
    }
  }

  /** Filtering keeps the multiplicity of every element whose key is not
      `k` and drops every element whose key is `k`. */
  lemma {:induction false} WithoutCounts<T(!new), K>(s: seq<T>, key: T -> K, k: K)
    ensures forall x :: multiset(Without(s, key, k))[x] == if key(x) == k then 0 else multiset(s)[x]
    decreases |s|
  {
    if |s| > 0 {
      WithoutCounts(s[1..], key, k);
      assert s == [s[0]] + s[1..];
    }
  }

  /** Filtering twice by the same key is filtering once. */
  lemma WithoutIdempotent<T(!new), K>(s: seq<T>, key: T -> K, k: K)
    ensures Without(Without(s, key, k), key, k) == Without(s, key, k)
  {
    WithoutNoMatch(Without(s, key, k), key, k);
  }

  /** Filtering a prepended element: it is dropped when its key is `k`,
      kept in front otherwise. */
  lemma WithoutCons<T(!new), K>(x: T, s: seq<T>, key: T -> K, k: K)
    ensures Without([x] + s, key, k) == if key(x) == k then Without(s, key, k) else [x] + Without(s, key, k)
  {
    assert ([x] + s)[1..] == s;
  }

  /** When keys are distinct, cutting out the first match is filtering. */
  lemma {:induction false} RemoveUniqueIsWithout<T(!new), K>(s: seq<T>, key: T -> K, k: K)
    requires Distinct(s, key)
    requires IndexOf(s, key, k) < |s|
    ensures RemoveAt(s, IndexOf(s, key, k)) == Without(s, key, k)
    decreases |s|
  {
    var i := IndexOf(s, key, k);
    assert s == [s[0]] + s[1..];
    if i == 0 {
      assert !Contains(s[1..], key, k) by {
        forall j | 0 <= j < |s[1..]| ensures key(s[1..][j]) != k {
          assert s[1..][j] == s[j + 1];
          assert key(s[0]) != key(s[j + 1]);
        }
      }
      WithoutNoMatch(s[1..], key, k);
      assert RemoveAt(s, 0) == s[1..];
    } else {
      assert Distinct(s[1..], key) by {
        forall a, b | 0 <= a < b < |s[1..]| ensures key(s[1..][a]) != key(s[1..][b]) {
          assert s[1..][a] == s[a + 1] && s[1..][b] == s[b + 1];
        }
      }
      assert IndexOf(s[1..], key, k) == i - 1;
      RemoveUniqueIsWithout(s[1..], key, k);
      assert RemoveAt(s, i) == [s[0]] + RemoveAt(s[1..], i - 1);
    }
  }

  /** Replacing the first match by an element with the same key leaves it
      the first match. */
  lemma IndexOfUpdate<T, K>(s: seq<T>, i: nat, x: T, key: T -> K, k: K)
    requires i == IndexOf(s, key, k) && i < |s| && key(x) == k
    ensures IndexOf(s[i := x], key, k) == i
  {
    var t := s[i := x];
    var r := IndexOf(t, key, k);
    assert key(t[i]) == k;
  }

  /** An element appended under a key no earlier element has is found at the end. */
  lemma IndexOfAppend<T, K>(s: seq<T>, x: T, key: T -> K)
    requires !Contains(s, key, key(x))
    ensures IndexOf(s + [x], key, key(x)) == |s|
  {
    var t := s + [x];
    var r := IndexOf(t, key, key(x));
    assert key(t[|s|]) == key(x);
  }

  lemma DistinctAppend<T, K>(s: seq<T>, x: T, key: T -> K)
    requires Distinct(s, key) && !Contains(s, key, key(x))
    ensures Distinct(s + [x], key)
  {
    forall i, j | 0 <= i < j < |s + [x]| ensures key((s + [x])[i]) != key((s + [x])[j]) {
      if j == |s| {
        assert (s + [x])[i] == s[i];
      } else {
        assert (s + [x])[i] == s[i] && (s + [x])[j] == s[j];
      }
    }
  }

  lemma DistinctRemoveAt<T, K>(s: seq<T>, i: nat, key: T -> K)
    requires i < |s| && Distinct(s, key)
    ensures Distinct(RemoveAt(s, i), key)
  {
    var r := RemoveAt(s, i);
    forall a, b | 0 <= a < b < |r| ensures key(r[a]) != key(r[b]) {
      var a' := if a < i then a else a + 1;
      var b' := if b < i then b else b + 1;
      assert r[a] == s[a'] && r[b] == s[b'];
    }
  }

  /** Replacing an element by one with the same key keeps keys distinct. */
  lemma DistinctUpdate<T, K>(s: seq<T>, i: nat, x: T, key: T -> K)
    requires i < |s| && Distinct(s, key) && key(x) == key(s[i])
    ensures Distinct(s[i := x], key)
  {
    var r := s[i := x];
    forall a, b | 0 <= a < b < |r| ensures key(r[a]) != key(r[b]) {
      assert key(r[a]) == key(s[a]) && key(r[b]) == key(s[b]);
    }
  }

  lemma DistinctWithout<T(!new), K>(s: seq<T>, key: T -> K, k: K)
    requires Distinct(s, key)
    ensures Distinct(Without(s, key, k), key)
  {
    if Contains(s, key, k) {
      RemoveUniqueIsWithout(s, key, k);
      DistinctRemoveAt(s, IndexOf(s, key, k), key);
    } else {
      WithoutNoMatch(s, key, k);
    }
  }
}
