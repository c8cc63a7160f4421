/** Generic operations on Python-style lists: the comprehension with a
    condition (`[x for x in s if keep(x)]`), the first-match lookup
    (`next((x for x in s if key(x) == k), None)`), and uniqueness of keys. */
module Lists {

  datatype Option<T> = None | Some(value: T)

  /** The elements of `s` that satisfy `keep`, in their original order. */
  function Filter<T(==,!new)>(s: seq<T>, keep: T -> bool): (r: seq<T>)
    ensures |r| <= |s|
    ensures forall x :: x in r <==> x in s && keep(x)
  {
    if |s| == 0 then []
    else
      var last := s[|s| - 1];
      assert s == s[..|s| - 1] + [last];
      var init := Filter(s[..|s| - 1], keep);
      if keep(last) then init + [last] else init
  }

  /** The positions of `s` whose elements satisfy `keep`, in increasing order. */
  function KeptPositions<T>(s: seq<T>, keep: T -> bool): (idx: seq<nat>)
    ensures forall k :: 0 <= k < |idx| ==> idx[k] < |s| && keep(s[idx[k]])
    ensures forall k, l :: 0 <= k < l < |idx| ==> idx[k] < idx[l]
    ensures forall i :: 0 <= i < |s| && keep(s[i]) ==> i in idx
  {
    if |s| == 0 then []
    else
      var init := KeptPositions(s[..|s| - 1], keep);
      if keep(s[|s| - 1]) then init + [|s| - 1] else init
  }

  /** A filter keeps exactly the elements at the kept positions, unchanged
      and in their original relative order. */
  lemma {:induction false} FilterPositions<T(!new)>(s: seq<T>, keep: T -> bool)
    ensures |Filter(s, keep)| == |KeptPositions(s, keep)|
    ensures forall k :: 0 <= k < |Filter(s, keep)| ==>
              Filter(s, keep)[k] == s[KeptPositions(s, keep)[k]]
  {
    if |s| > 0 {
      var init, x := s[..|s| - 1], s[|s| - 1];
      FilterPositions(init, keep);
      var f, p := Filter(init, keep), KeptPositions(init, keep);
      if keep(x) {
        assert Filter(s, keep) == f + [x] && KeptPositions(s, keep) == p + [|s| - 1];
        forall k | 0 <= k < |f| + 1 ensures (f + [x])[k] == s[(p + [|s| - 1])[k]] {
          if k < |f| {
            assert s[p[k]] == init[p[k]];
          }
        }
      } else {
        assert Filter(s, keep) == f && KeptPositions(s, keep) == p;
        forall k | 0 <= k < |f| ensures f[k] == s[p[k]] {
          assert s[p[k]] == init[p[k]];
        }
      }
    }
  }

  /** Filtering a list with one more element at its end. */
  lemma FilterSnoc<T(!new)>(s: seq<T>, x: T, keep: T -> bool)
    ensures Filter(s + [x], keep) == if keep(x) then Filter(s, keep) + [x] else Filter(s, keep)
  {
    assert (s + [x])[..|s|] == s;
  }

  /** Filtering distributes over concatenation. */
  lemma {:induction false} FilterConcat<T(!new)>(a: seq<T>, b: seq<T>, keep: T -> bool)
    ensures Filter(a + b, keep) == Filter(a, keep) + Filter(b, keep)
  {
    if |b| == 0 {
      assert a + b == a;
    } else {
      assert (a + b)[..|a + b| - 1] == a + b[..|b| - 1];
      FilterConcat(a, b[..|b| - 1], keep);
    }
  }

  /** Filtering by a condition that implies an earlier one makes the earlier
      filter redundant; in particular filtering twice equals filtering once. */
  lemma {:induction false} FilterTwice<T(!new)>(s: seq<T>, p: T -> bool, q: T -> bool)
    requires forall x :: q(x) ==> p(x)
    ensures Filter(Filter(s, p), q) == Filter(s, q)
  {
    if |s| > 0 {
      var init, last := s[..|s| - 1], s[|s| - 1];
      FilterTwice(init, p, q);
      if p(last) {
        FilterConcat(Filter(init, p), [last], q);
        assert [last][..0] == [];
      }
    }
  }

  /** Everything is dropped when no element is kept. */
  lemma {:induction false} FilterKeepsNone<T(!new)>(s: seq<T>, keep: T -> bool)
    requires forall x :: x in s ==> !keep(x)
    ensures Filter(s, keep) == []
  {
    if |s| > 0 {
      assert s == s[..|s| - 1] + [s[|s| - 1]];
      FilterKeepsNone(s[..|s| - 1], keep);
    }
  }

  /** No two elements of `s` share a key. */
  predicate Distinct<T, K(==)>(s: seq<T>, key: T -> K) {
    forall i, j :: 0 <= i < j < |s| ==> key(s[i]) != key(s[j])
  }

  /** A filter of a list with distinct keys has distinct keys. */
  lemma FilterDistinct<T(!new)>(s: seq<T>, keep: T -> bool, key: T -> string)
    requires Distinct(s, key)
    ensures Distinct(Filter(s, keep), key)
  {
    FilterPositions(s, keep);
    var r, idx := Filter(s, keep), KeptPositions(s, keep);
    forall k, l | 0 <= k < l < |r| ensures key(r[k]) != key(r[l]) {
      assert r[k] == s[idx[k]] && r[l] == s[idx[l]];
    }
  }

  /** Appending an element with an unused key keeps keys distinct. */
  lemma DistinctAppend<T>(s: seq<T>, x: T, key: T -> string)
    requires Distinct(s, key)
    requires forall i :: 0 <= i < |s| ==> key(s[i]) != key(x)
    ensures Distinct(s + [x], key)
  {
  }

  /** Removing the element at position `i` keeps keys distinct. */
  lemma DistinctRemoveAt<T>(s: seq<T>, i: nat, key: T -> string)
    requires i < |s|
    requires Distinct(s, key)
    ensures Distinct(s[..i] + s[i + 1..], key)
  {
    var r := s[..i] + s[i + 1..];
    forall k, l | 0 <= k < l < |r| ensures key(r[k]) != key(r[l]) {
      var k', l' := if k < i then k else k + 1, if l < i then l else l + 1;
      assert r[k] == s[k'] && r[l] == s[l'];
    }
  }

  /** Keeps the elements whose key differs from `k`. */
  function KeyIsNot<T, K(==)>(key: T -> K, k: K): T -> bool {
    x => key(x) != k
  }

  /** The first position of `s` whose element has key `k`, if there is one. */
  function IndexOfKey<T, K(==)>(s: seq<T>, key: T -> K, k: K): (r: Option<nat>)
    ensures r.None? <==> forall i :: 0 <= i < |s| ==> key(s[i]) != k
    ensures r.Some? ==> r.value < |s| && key(s[r.value]) == k
    ensures r.Some? ==> forall i :: 0 <= i < r.value ==> key(s[i]) != k
    decreases |s|
  {
    if |s| == 0 then None
    else if key(s[0]) == k then Some(0)
    else match IndexOfKey(s[1..], key, k)
      case None => None
      case Some(i) => Some(i + 1)
  }

  /** With distinct keys, the element with key `k` sits at `IndexOfKey`. */
  lemma IndexOfDistinctKey<T>(s: seq<T>, key: T -> string, i: nat)
    requires Distinct(s, key)
    requires i < |s|
    ensures IndexOfKey(s, key, key(s[i])) == Some(i)
  {
  }
}
