/** Sequence helpers shared by the stores: duplicate-freedom, filtering and
    lodash's `uniq` (first occurrence kept, order preserved). */
module Seqs {
  import opened Common

  /** No element occurs twice. */
  predicate NoDup<T(==)>(s: seq<T>) {
    forall i, j | 0 <= i < j < |s| :: s[i] != s[j]
  }

  /** `Array.prototype.filter`: the elements satisfying `p`, in their original order. */
  function Filter<T>(s: seq<T>, p: T -> bool): (r: seq<T>)
    ensures |r| <= |s|
    ensures forall i | 0 <= i < |r| :: p(r[i])
    ensures forall x | x in s && p(x) :: x in r
    ensures forall x | x in r :: x in s && p(x)
  {
    if |s| == 0 then []
    else if p(s[0]) then [s[0]] + Filter(s[1..], p)
    else Filter(s[1..], p)
  }

  /** `Array.prototype.map`: `f` applied to each element, in order. */
  function Map<T, U>(s: seq<T>, f: T -> U): (r: seq<U>)
    ensures |r| == |s| && forall i | 0 <= i < |s| :: r[i] == f(s[i])
  {
    seq(|s|, i requires 0 <= i < |s| => f(s[i]))
  }

  /** Filtering keeps every element that satisfies `p` and nothing else. */
  lemma FilterMembership<T>(s: seq<T>, p: T -> bool, x: T)
    ensures x in Filter(s, p) <==> x in s && p(x)
  {
  }

  /** Filtering everything in leaves the sequence as it was. */
  lemma {:induction false} FilterAll<T>(s: seq<T>, p: T -> bool)
    requires forall i | 0 <= i < |s| :: p(s[i])
    ensures Filter(s, p) == s
  {
    if |s| > 0 {
      FilterAll(s[1..], p);
    }
  }

  /** Filtering a duplicate-free sequence keeps it duplicate-free. */
  lemma {:induction false} FilterNoDup<T>(s: seq<T>, p: T -> bool)
    requires NoDup(s)
    ensures NoDup(Filter(s, p))
  {
    if |s| > 0 {
      FilterNoDup(s[1..], p);
      var rest := Filter(s[1..], p);
      assert s[0] !in s[1..] by {
        forall k | 0 <= k < |s[1..]| ensures s[1..][k] != s[0] {
          assert s[1..][k] == s[k + 1];
        }
      }
      assert s[0] !in rest;
    }
  }

  /** The element of `s` that comes last among those whose `key` is `id`, if
      any: how a later entry for the same key overrides an earlier one. */
  function LastWith<T>(s: seq<T>, key: T -> string, id: string): (r: Option<T>)
    ensures r.Some? ==> r.value in s && key(r.value) == id
    ensures r.None? ==> forall i | 0 <= i < |s| :: key(s[i]) != id
  {
    if |s| == 0 then None
    else
      match LastWith(s[1..], key, id)
      case Some(x) => Some(x)
      case None => if key(s[0]) == id then Some(s[0]) else None
  }

  /** The element found is the last one with the key: an element with the key
      and no later element with it is exactly what `LastWith` returns. */
  lemma {:induction false} LastWithIsLast<T>(s: seq<T>, key: T -> string, id: string, i: nat)
    requires i < |s| && key(s[i]) == id
    requires forall j | i < j < |s| :: key(s[j]) != id
    ensures LastWith(s, key, id) == Some(s[i])
    decreases |s|
  {
    assert forall j | 0 <= j < |s[1..]| :: s[1..][j] == s[j + 1];
    if i > 0 {
      LastWithIsLast(s[1..], key, id, i - 1);
    }
  }

  /** The tail of a duplicate-free sequence is duplicate-free and does not
      hold the head. */
  lemma NoDupTail<T>(s: seq<T>)
    requires |s| > 0 && NoDup(s)
    ensures NoDup(s[1..]) && s[0] !in s[1..]
  {
    forall a, b | 0 <= a < b < |s[1..]| ensures s[1..][a] != s[1..][b] {
      assert s[1..][a] == s[a + 1] && s[1..][b] == s[b + 1];
    }
    forall j | 0 <= j < |s[1..]| ensures s[1..][j] != s[0] {
      assert s[1..][j] == s[j + 1];
    }
  }

  /** Concatenation is associative. */
  lemma AppendAssoc<T>(a: seq<T>, b: seq<T>, c: seq<T>)
    ensures a + (b + c) == (a + b) + c
  {
  }

  /** lodash `uniq`: drops every repeated element, keeping first occurrences
      in their original order. */
  function Uniq<T(==)>(s: seq<T>): (r: seq<T>)
    ensures NoDup(r)
    ensures forall x | x in s :: x in r
    ensures forall x | x in r :: x in s
    ensures |r| <= |s|
    decreases |s|
  {
    if |s| == 0 then []
    else
      var u := Uniq(s[..|s| - 1]);
      var last := s[|s| - 1];
      assert forall x | x in s :: x in s[..|s| - 1] || x == last;
      if last in u then u else u + [last]
  }

  /** `uniq` of a sequence that has no duplicates is the sequence itself. */
  lemma {:induction false} UniqOfNoDup<T>(s: seq<T>)
    requires NoDup(s)
    ensures Uniq(s) == s
  {
    if |s| > 0 {
      var init := s[..|s| - 1];
      assert NoDup(init);
      UniqOfNoDup(init);
      assert s[|s| - 1] !in init;
      assert init + [s[|s| - 1]] == s;
    }
  }
}
