/**
 * Sequence operations behind the scripts' list passes: the key order of a
 * dict filled while scanning a list, first-occurrence deduplication, and
 * Python's stable `sorted(..., key=rank, reverse=True)`.
 */
module Seqs {

  /** `r` is `s` with some elements left out, order kept. */
  predicate IsSubsequence<T(==)>(r: seq<T>, s: seq<T>)
    decreases |s|
  {
    r == [] ||
    (s != [] &&
      ((r[|r| - 1] == s[|s| - 1] && IsSubsequence(r[..|r| - 1], s[..|s| - 1]))
       || IsSubsequence(r, s[..|s| - 1])))
  }

  lemma {:induction false} SubsequenceRefl<T>(s: seq<T>)
    ensures IsSubsequence(s, s)
    decreases |s|
  {
    if s != [] {
      SubsequenceRefl(s[..|s| - 1]);
    }
  }

  /** Elements of a subsequence are elements of the whole. */
  lemma {:induction false} SubsequenceMembers<T>(r: seq<T>, s: seq<T>)
    requires IsSubsequence(r, s)
    ensures forall x :: x in r ==> x in s
    decreases |s|
  {
    if r != [] {
      if r[|r| - 1] == s[|s| - 1] && IsSubsequence(r[..|r| - 1], s[..|s| - 1]) {
        SubsequenceMembers(r[..|r| - 1], s[..|s| - 1]);
        assert r == r[..|r| - 1] + [r[|r| - 1]];
        assert s == s[..|s| - 1] + [s[|s| - 1]];
      } else {
        SubsequenceMembers(r, s[..|s| - 1]);
        assert s == s[..|s| - 1] + [s[|s| - 1]];
      }
    }
  }

  /** Appending the same element to both sides, or to the whole only, keeps a subsequence. */
  lemma {:induction false} SubsequenceSnoc<T>(r: seq<T>, s: seq<T>, x: T)
    requires IsSubsequence(r, s)
    ensures IsSubsequence(r + [x], s + [x])
    ensures IsSubsequence(r, s + [x])
  {
    assert (r + [x])[..|r|] == r;
    assert (s + [x])[..|s|] == s;
  }

  // ---------------------------------------------------------------------
  // Dict key order
  // ---------------------------------------------------------------------

  /** The distinct elements of `s` in order of first appearance. */
  function Distinct<T(==)>(s: seq<T>): seq<T>
  {
    if s == [] then []
    else
      var d := Distinct(s[..|s| - 1]);
      if s[|s| - 1] in d then d else d + [s[|s| - 1]]
  }

  /** `Distinct` holds exactly the elements of `s`, each once. */
  lemma {:induction false} DistinctProps<T>(s: seq<T>)
    ensures forall x :: x in Distinct(s) <==> x in s
    ensures forall i, j :: 0 <= i < j < |Distinct(s)| ==> Distinct(s)[i] != Distinct(s)[j]
    decreases |s|
  {
    if s != [] {
      DistinctProps(s[..|s| - 1]);
      assert s == s[..|s| - 1] + [s[|s| - 1]];
    }
  }

  // ---------------------------------------------------------------------
  // First-occurrence deduplication
  // ---------------------------------------------------------------------

  /** The keys of the elements of `s`. */
  function Keys<T, K(==)>(s: seq<T>, key: T -> K): set<K> {
    set i | 0 <= i < |s| :: key(s[i])
  }

  lemma {:induction false} KeysSnoc<T, K>(s: seq<T>, x: T, key: T -> K)
    ensures Keys(s + [x], key) == Keys(s, key) + {key(x)}
  {
    var t := s + [x];
    assert forall i :: 0 <= i < |s| ==> t[i] == s[i];
    assert key(t[|s|]) == key(x);
  }

  /** Keeps the first element of every key, in input order. */
  function Dedup<T, K(==)>(s: seq<T>, key: T -> K): seq<T>
  {
    if s == [] then []
    else
      var init := s[..|s| - 1];
      Dedup(init, key) + (if key(s[|s| - 1]) in Keys(init, key) then [] else [s[|s| - 1]])
  }

  /**
   * What deduplication promises: an order-preserving subsequence, with every
   * key of the input exactly once, each represented by its first occurrence.
   */
  lemma {:induction false} DedupProps<T, K>(s: seq<T>, key: T -> K)
    ensures IsSubsequence(Dedup(s, key), s)
    ensures Keys(Dedup(s, key), key) == Keys(s, key)
    ensures forall i, j :: 0 <= i < j < |Dedup(s, key)| ==> key(Dedup(s, key)[i]) != key(Dedup(s, key)[j])
    ensures forall k :: 0 <= k < |Dedup(s, key)| ==>
      exists i :: 0 <= i < |s| && Dedup(s, key)[k] == s[i] && key(s[i]) !in Keys(s[..i], key)
  {
    DedupKeys(s, key);
    DedupDistinct(s, key);
    DedupFirst(s, key);
  }

  lemma {:induction false} DedupKeys<T, K>(s: seq<T>, key: T -> K)
    ensures IsSubsequence(Dedup(s, key), s)
    ensures Keys(Dedup(s, key), key) == Keys(s, key)
    decreases |s|
  {
    if s != [] {
      var init, x := s[..|s| - 1], s[|s| - 1];
      var d := Dedup(init, key);
      DedupKeys(init, key);
      assert s == init + [x];
      KeysSnoc(init, x, key);
      SubsequenceSnoc(d, init, x);
      if key(x) in Keys(init, key) {
        assert Dedup(s, key) == d;
      } else {
        assert Dedup(s, key) == d + [x];
        KeysSnoc(d, x, key);
      }
    }
  }

  lemma {:induction false} DedupDistinct<T, K>(s: seq<T>, key: T -> K)
    ensures forall i, j :: 0 <= i < j < |Dedup(s, key)| ==> key(Dedup(s, key)[i]) != key(Dedup(s, key)[j])
    decreases |s|
  {
    if s != [] {
      var init, x := s[..|s| - 1], s[|s| - 1];
      var d := Dedup(init, key);
      DedupDistinct(init, key);
      if key(x) !in Keys(init, key) {
        DedupKeys(init, key);
        var r := d + [x];
        assert Dedup(s, key) == r;
        forall i, j | 0 <= i < j < |r| ensures key(r[i]) != key(r[j]) {
          assert r[i] == d[i];
          if j == |r| - 1 {
            assert key(d[i]) in Keys(d, key);
          } else {
            assert r[j] == d[j];
          }
        }
      }
    }
  }

  lemma {:induction false} DedupFirst<T, K>(s: seq<T>, key: T -> K)
    ensures forall k :: 0 <= k < |Dedup(s, key)| ==>
      exists i :: 0 <= i < |s| && Dedup(s, key)[k] == s[i] && key(s[i]) !in Keys(s[..i], key)
    decreases |s|
  {
    if s != [] {
      var init, x := s[..|s| - 1], s[|s| - 1];
      var d := Dedup(init, key);
      DedupFirst(init, key);
      var r := Dedup(s, key);
      var isNew := key(x) !in Keys(init, key);
      assert r == if isNew then d + [x] else d;
      forall k | 0 <= k < |Dedup(s, key)|
        ensures exists i :: 0 <= i < |s| && Dedup(s, key)[k] == s[i] && key(s[i]) !in Keys(s[..i], key)
      {
        if k < |d| {
          assert r[k] == d[k];
          var i :| 0 <= i < |init| && d[k] == init[i] && key(init[i]) !in Keys(init[..i], key);
          assert s[i] == init[i] && s[..i] == init[..i];
        } else {
          assert isNew && r[k] == x;
          var i := |s| - 1;
          assert s[i] == x && s[..i] == init;
        }
      }
    } else {
      assert Dedup(s, key) == [];
    }
  }

  // ---------------------------------------------------------------------
  // Stable sort, descending
  // ---------------------------------------------------------------------

  predicate SortedDesc<T>(s: seq<T>, rank: T -> int) {
    forall i, j :: 0 <= i < j < |s| ==> rank(s[i]) >= rank(s[j])
  }

  /** Inserts `x` after every element ranked at least as high, so earlier equals stay first. */
  function InsertDesc<T>(x: T, s: seq<T>, rank: T -> int): seq<T>
  {
    if s == [] then [x]
    else if rank(s[0]) >= rank(x) then [s[0]] + InsertDesc(x, s[1..], rank)
    else [x] + s
  }

  /** `sorted(s, key=rank, reverse=True)`, as an insertion sort. */
  function SortDesc<T>(s: seq<T>, rank: T -> int): seq<T>
  {
    if s == [] then [] else InsertDesc(s[|s| - 1], SortDesc(s[..|s| - 1], rank), rank)
  }

  /** Inserting below a bound keeps every rank below it. */
  lemma {:induction false} InsertDescBelow<T>(x: T, s: seq<T>, rank: T -> int, b: int)
    requires rank(x) <= b
    requires forall k :: 0 <= k < |s| ==> rank(s[k]) <= b
    ensures forall k :: 0 <= k < |InsertDesc(x, s, rank)| ==> rank(InsertDesc(x, s, rank)[k]) <= b
    decreases |s|
  {
    var t := InsertDesc(x, s, rank);
    if s == [] {
      assert t == [x];
    } else if rank(s[0]) >= rank(x) {
      var tail := s[1..];
      assert forall k :: 0 <= k < |tail| ==> tail[k] == s[k + 1];
      InsertDescBelow(x, tail, rank, b);
      var u := InsertDesc(x, tail, rank);
      assert t == [s[0]] + u;
      forall k | 0 <= k < |t|
        ensures rank(t[k]) <= b
      {
        if k > 0 {
          assert t[k] == u[k - 1];
        }
      }
    } else {
      assert t == [x] + s;
      forall k | 0 <= k < |t|
        ensures rank(t[k]) <= b
      {
        if k > 0 {
          assert t[k] == s[k - 1];
        }
      }
    }
  }

  lemma {:induction false} InsertDescSorted<T>(x: T, s: seq<T>, rank: T -> int)
    requires SortedDesc(s, rank)
    ensures SortedDesc(InsertDesc(x, s, rank), rank)
    decreases |s|
  {
    if s == [] {
      assert InsertDesc(x, s, rank) == [x];
    } else if rank(s[0]) >= rank(x) {
      var tail := s[1..];
      assert forall k :: 0 <= k < |tail| ==> tail[k] == s[k + 1];
      var u := InsertDesc(x, tail, rank);
      InsertDescSorted(x, tail, rank);
      InsertDescBelow(x, tail, rank, rank(s[0]));
      var t := [s[0]] + u;
      forall i, j | 0 <= i < j < |t|
        ensures rank(t[i]) >= rank(t[j])
      {
        assert t[j] == u[j - 1];
        if i > 0 {
          assert t[i] == u[i - 1];
        }
      }
      assert InsertDesc(x, s, rank) == t;
    } else {
      var t := [x] + s;
      forall i, j | 0 <= i < j < |t|
        ensures rank(t[i]) >= rank(t[j])
      {
        assert t[j] == s[j - 1];
        if i > 0 {
          assert t[i] == s[i - 1];
        }
      }
      assert InsertDesc(x, s, rank) == t;
    }
  }

  lemma {:induction false} InsertDescPerm<T>(x: T, s: seq<T>, rank: T -> int)
    ensures multiset(InsertDesc(x, s, rank)) == multiset(s) + multiset{x}
    decreases |s|
  {
    if s != [] && rank(s[0]) >= rank(x) {
      InsertDescPerm(x, s[1..], rank);
      assert s == [s[0]] + s[1..];
    }
  }

  /** The sort yields a permutation of its input, ranks non-increasing. */
  lemma {:induction false} SortDescProps<T>(s: seq<T>, rank: T -> int)
    ensures SortedDesc(SortDesc(s, rank), rank)
    ensures multiset(SortDesc(s, rank)) == multiset(s)
    decreases |s|
  {
    if s != [] {
      SortDescProps(s[..|s| - 1], rank);
      InsertDescSorted(s[|s| - 1], SortDesc(s[..|s| - 1], rank), rank);
      InsertDescPerm(s[|s| - 1], SortDesc(s[..|s| - 1], rank), rank);
      assert s == s[..|s| - 1] + [s[|s| - 1]];
    }
  }

  // ---------------------------------------------------------------------
  // Duplicates
  // ---------------------------------------------------------------------

  /** No element occurs twice. */
  predicate NoDup<T(==)>(s: seq<T>) {
    forall i, j :: 0 <= i < j < |s| ==> s[i] != s[j]
  }

  lemma {:induction false} NoDupCount<T>(s: seq<T>, x: T)
    requires NoDup(s)
    ensures multiset(s)[x] <= 1
    decreases |s|
  {
    if s != [] {
      var init := s[..|s| - 1];
      assert s == init + [s[|s| - 1]];
      assert NoDup(init) by {
        assert forall i :: 0 <= i < |init| ==> init[i] == s[i];
      }
      NoDupCount(init, x);
      if s[|s| - 1] == x {
        assert forall i :: 0 <= i < |init| ==> init[i] != x;
      }
    }
  }

  /** An element at two positions is counted at least twice. */
  lemma {:induction false} CountOfPair<T>(s: seq<T>, i: nat, j: nat)
    requires i < j < |s|
    ensures s[i] == s[j] ==> multiset(s)[s[i]] >= 2
  {
    assert s == s[..j] + [s[j]] + s[j + 1..];
    assert s[..j][i] == s[i];
  }

  /** A rearrangement of a sequence without duplicates has none either. */
  lemma {:induction false} NoDupPerm<T>(a: seq<T>, b: seq<T>)
    requires NoDup(a) && multiset(a) == multiset(b)
    ensures NoDup(b)
  {
    forall i, j | 0 <= i < j < |b|
      ensures b[i] != b[j]
    {
      CountOfPair(b, i, j);
      NoDupCount(a, b[i]);
    }
  }

  /** Ranks strictly decrease. */
  predicate StrictDesc<T>(s: seq<T>, rank: T -> int) {
    forall i, j :: 0 <= i < j < |s| ==> rank(s[i]) > rank(s[j])
  }

  /** A subsequence of a sorted sequence is sorted. */
  lemma {:induction false} SubsequenceSorted<T>(r: seq<T>, s: seq<T>, rank: T -> int)
    requires IsSubsequence(r, s) && SortedDesc(s, rank)
    ensures SortedDesc(r, rank)
    decreases |s|
  {
    if r != [] {
      var s0 := s[..|s| - 1];
      assert SortedDesc(s0, rank) by {
        assert forall i :: 0 <= i < |s0| ==> s0[i] == s[i];
      }
      if r[|r| - 1] == s[|s| - 1] && IsSubsequence(r[..|r| - 1], s0) {
        var r0 := r[..|r| - 1];
        SubsequenceSorted(r0, s0, rank);
        SubsequenceMembers(r0, s0);
        forall i, j | 0 <= i < j < |r|
          ensures rank(r[i]) >= rank(r[j])
        {
          assert r[i] == r0[i];
          if j == |r| - 1 {
            assert r0[i] in s0;
            var m :| 0 <= m < |s0| && s0[m] == r0[i];
            assert s[m] == r[i];
          } else {
            assert r[j] == r0[j];
          }
        }
      } else {
        SubsequenceSorted(r, s0, rank);
      }
    }
  }

  /** A subsequence of a strictly sorted sequence is strictly sorted. */
  lemma {:induction false} SubsequenceStrict<T>(r: seq<T>, s: seq<T>, rank: T -> int)
    requires IsSubsequence(r, s) && StrictDesc(s, rank)
    ensures StrictDesc(r, rank)
    decreases |s|
  {
    if r != [] {
      var s0 := s[..|s| - 1];
      assert StrictDesc(s0, rank) by {
        assert forall i :: 0 <= i < |s0| ==> s0[i] == s[i];
      }
      if r[|r| - 1] == s[|s| - 1] && IsSubsequence(r[..|r| - 1], s0) {
        var r0 := r[..|r| - 1];
        SubsequenceStrict(r0, s0, rank);
        SubsequenceMembers(r0, s0);
        forall i, j | 0 <= i < j < |r|
          ensures rank(r[i]) > rank(r[j])
        {
          assert r[i] == r0[i];
          if j == |r| - 1 {
            assert r0[i] in s0;
            var m :| 0 <= m < |s0| && s0[m] == r0[i];
            assert s[m] == r[i];
          } else {
            assert r[j] == r0[j];
          }
        }
      } else {
        SubsequenceStrict(r, s0, rank);
      }
    }
  }

  // ---------------------------------------------------------------------
  // Filtering and dict building
  // ---------------------------------------------------------------------

  /** `[x for x in s if f(x)]`. */
  function Filter<T>(s: seq<T>, f: T -> bool): (r: seq<T>)
    ensures |r| <= |s|
  {
    if s == [] then []
    else Filter(s[..|s| - 1], f) + (if f(s[|s| - 1]) then [s[|s| - 1]] else [])
  }

  /** `[f(x) for x in s]`. */
  function Map<T, U>(s: seq<T>, f: T -> U): (r: seq<U>)
    ensures |r| == |s|
    ensures forall i :: 0 <= i < |s| ==> r[i] == f(s[i])
  {
    seq(|s|, i requires 0 <= i < |s| => f(s[i]))
  }

  lemma {:induction false} MapSnoc<T, U>(s: seq<T>, f: T -> U, x: T)
    ensures Map(s + [x], f) == Map(s, f) + [f(x)]
  {
  }

  lemma {:induction false} PrefixSnoc<T>(s: seq<T>, i: nat)
    requires i < |s|
    ensures s[..i + 1] == s[..i] + [s[i]]
  {
  }

  lemma {:induction false} FilterSnoc<T>(s: seq<T>, f: T -> bool, x: T)
    ensures Filter(s + [x], f) == Filter(s, f) + (if f(x) then [x] else [])
  {
    assert (s + [x])[..|s|] == s;
  }

  /** The filter keeps exactly the elements satisfying `f`. */
  lemma {:induction false} FilterMember<T>(s: seq<T>, f: T -> bool, x: T)
    ensures x in Filter(s, f) <==> x in s && f(x)
    decreases |s|
  {
    if s != [] {
      var init, y := s[..|s| - 1], s[|s| - 1];
      FilterMember(init, f, x);
      assert s == init + [y];
    }
  }

  /** The filter keeps the order of what it keeps. */
  lemma {:induction false} FilterOrder<T>(s: seq<T>, f: T -> bool)
    ensures IsSubsequence(Filter(s, f), s)
    decreases |s|
  {
    if s != [] {
      var init, y := s[..|s| - 1], s[|s| - 1];
      FilterOrder(init, f);
      assert s == init + [y];
      SubsequenceSnoc(Filter(init, f), init, y);
      if f(y) {
        assert Filter(s, f) == Filter(init, f) + [y];
      } else {
        assert Filter(s, f) == Filter(init, f);
      }
    }
  }

  /** Filtering by a test and by its negation splits the sequence in two. */
  lemma {:induction false} FilterPartition<T>(s: seq<T>, f: T -> bool, g: T -> bool)
    requires forall x :: g(x) == !f(x)
    ensures multiset(Filter(s, f)) + multiset(Filter(s, g)) == multiset(s)
    decreases |s|
  {
    if s != [] {
      var init, x := s[..|s| - 1], s[|s| - 1];
      FilterPartition(init, f, g);
      assert s == init + [x];
    }
  }

  /**
   * The dict `d` filled by `for x in s: if keep(x): d[key(x)] = val(x)`:
   * a later entry overwrites an earlier one with the same key.
   */
  function DictOf<T, K(==), V>(s: seq<T>, keep: T -> bool, key: T -> K, val: T -> V): map<K, V>
  {
    if s == [] then map[]
    else
      var x := s[|s| - 1];
      var prev := DictOf(s[..|s| - 1], keep, key, val);
      if keep(x) then prev[key(x) := val(x)] else prev
  }

  lemma {:induction false} DictOfSnoc<T, K, V>(s: seq<T>, keep: T -> bool, key: T -> K, val: T -> V, x: T)
    ensures DictOf(s + [x], keep, key, val)
      == if keep(x) then DictOf(s, keep, key, val)[key(x) := val(x)] else DictOf(s, keep, key, val)
  {
    assert (s + [x])[..|s|] == s;
  }

  /**
   * A key is in the dict exactly when a kept element has it, and its value
   * is the value of the last kept element with that key.
   */
  lemma {:induction false} DictOfKeys<T, K, V>(s: seq<T>, keep: T -> bool, key: T -> K, val: T -> V, k: K)
    ensures k in DictOf(s, keep, key, val) <==> exists i :: 0 <= i < |s| && keep(s[i]) && key(s[i]) == k
    ensures k in DictOf(s, keep, key, val) ==>
      exists i :: 0 <= i < |s| && keep(s[i]) && key(s[i]) == k && val(s[i]) == DictOf(s, keep, key, val)[k]
    decreases |s|
  {
    if s != [] {
      var n := |s| - 1;
      var init := s[..n];
      DictOfKeys(init, keep, key, val, k);
      if exists i :: 0 <= i < n && keep(init[i]) && key(init[i]) == k {
        var i :| 0 <= i < n && keep(init[i]) && key(init[i]) == k;
        assert s[i] == init[i];
      }
      if exists i :: 0 <= i < |s| && keep(s[i]) && key(s[i]) == k {
        var i :| 0 <= i < |s| && keep(s[i]) && key(s[i]) == k;
        if i < n {
          assert init[i] == s[i];
        }
      }
      if k in DictOf(s, keep, key, val) && !(keep(s[n]) && key(s[n]) == k) {
        var i :| 0 <= i < n && keep(init[i]) && key(init[i]) == k
          && val(init[i]) == DictOf(init, keep, key, val)[k];
        assert s[i] == init[i];
      }
    }
  }

  /** The last kept element with a key decides that key's value. */
  lemma {:induction false} DictOfLastWins<T, K, V>(s: seq<T>, keep: T -> bool, key: T -> K, val: T -> V, i: nat)
    requires i < |s| && keep(s[i])
    requires forall j :: i < j < |s| && keep(s[j]) ==> key(s[j]) != key(s[i])
    ensures key(s[i]) in DictOf(s, keep, key, val)
    ensures DictOf(s, keep, key, val)[key(s[i])] == val(s[i])
    decreases |s|
  {
    var n := |s| - 1;
    if i < n {
      var init := s[..n];
      assert init[i] == s[i];
      DictOfLastWins(init, keep, key, val, i);
    }
  }
}
