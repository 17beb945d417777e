/** Sequence vocabulary shared by the picker and the backup driver: an optional value,
    Python's `filter`/`map` over lists, and the subsequence relation used to state that
    a filter neither reorders nor duplicates. */
module Common {

  /** Python's `None`-or-value. */
  datatype Option<T> = None | Some(value: T)

  /** `a` is obtained from `b` by deleting zero or more elements, keeping the order. */
  ghost predicate IsSubsequence<T>(a: seq<T>, b: seq<T>)
    decreases |b|
  {
    if b == [] then a == []
    else (a != [] && a[0] == b[0] && IsSubsequence(a[1..], b[1..])) || IsSubsequence(a, b[1..])
  }

  /** `[x for x in s if p(x)]`. */
  function Filter<T>(p: T -> bool, s: seq<T>): (r: seq<T>)
    ensures |r| <= |s|
    ensures forall i :: 0 <= i < |r| ==> p(r[i])
  {
    if s == [] then [] else (if p(s[0]) then [s[0]] else []) + Filter(p, s[1..])
  }

  /** Every element the filter keeps comes from the list, and every accepted one is kept. */
  lemma {:induction false} FilterMembers<T>(p: T -> bool, s: seq<T>)
    ensures forall i :: 0 <= i < |Filter(p, s)| ==> Filter(p, s)[i] in s
    ensures forall i :: 0 <= i < |s| && p(s[i]) ==> s[i] in Filter(p, s)
    decreases |s|
  {
    if s != [] {
      FilterMembers(p, s[1..]);
      var head := if p(s[0]) then [s[0]] else [];
      var r := Filter(p, s);
      assert r == head + Filter(p, s[1..]);
      forall i | 0 <= i < |r|
        ensures r[i] in s
      {
        if i >= |head| {
          assert r[i] == Filter(p, s[1..])[i - |head|];
        }
      }
      forall i | 0 <= i < |s| && p(s[i])
        ensures s[i] in r
      {
        if i > 0 {
          assert s[i] == s[1..][i - 1];
        }
      }
    }
  }

  /** `[f(x) for x in s]`. */
  function Map<A, B>(f: A -> B, s: seq<A>): (r: seq<B>)
    ensures |r| == |s|
    ensures forall i :: 0 <= i < |s| ==> r[i] == f(s[i])
  {
    seq(|s|, i requires 0 <= i < |s| => f(s[i]))
  }

  /** A list of results when every element is present, `None` as soon as one is missing:
      a comprehension over a call that raises on bad input. */
  function AllSome<T>(xs: seq<Option<T>>): (r: Option<seq<T>>)
    ensures r.Some? <==> forall k :: 0 <= k < |xs| ==> xs[k].Some?
    ensures r.Some? ==> |r.value| == |xs|
    ensures r.Some? ==> forall k :: 0 <= k < |xs| ==> r.value[k] == xs[k].value
  {
    if xs == [] then Some([])
    else if xs[0].None? then None
    else
      var rest := AllSome(xs[1..]);
      if rest.None? then
        assert forall k :: 1 <= k < |xs| ==> xs[1..][k - 1] == xs[k];
        None
      else Some([xs[0].value] + rest.value)
  }

  /** The first index holding the largest key. */
  function FirstMax(keys: seq<int>): (k: nat)
    requires keys != []
    ensures k < |keys|
    ensures forall j :: 0 <= j < |keys| ==> keys[j] <= keys[k]
    ensures forall j :: 0 <= j < k ==> keys[j] < keys[k]
  {
    if |keys| == 1 then 0
    else
      var k := FirstMax(keys[..|keys| - 1]);
      if keys[|keys| - 1] > keys[k] then |keys| - 1 else k
  }

  lemma {:induction false} EmptyIsSubsequence<T>(b: seq<T>)
    ensures IsSubsequence([], b)
    decreases |b|
  {
    if b != [] {
      EmptyIsSubsequence(b[1..]);
    }
  }

  lemma {:induction false} FilterIsSubsequence<T>(p: T -> bool, s: seq<T>)
    ensures IsSubsequence(Filter(p, s), s)
    decreases |s|
  {
    if s != [] {
      FilterIsSubsequence(p, s[1..]);
      if p(s[0]) {
        assert Filter(p, s) == [s[0]] + Filter(p, s[1..]);
        assert Filter(p, s)[1..] == Filter(p, s[1..]);
      } else {
        assert Filter(p, s) == Filter(p, s[1..]);
      }
    }
  }

  lemma {:induction false} PrefixIsSubsequence<T>(a: seq<T>, b: seq<T>, k: nat)
    requires IsSubsequence(a, b) && k <= |a|
    ensures IsSubsequence(a[..k], b)
    decreases |b|
  {
    if k == 0 {
      assert a[..k] == [];
      EmptyIsSubsequence(b);
    } else {
      assert b != [];
      if a[0] == b[0] && IsSubsequence(a[1..], b[1..]) {
        PrefixIsSubsequence(a[1..], b[1..], k - 1);
        assert a[..k][1..] == a[1..][..k - 1];
      } else {
        PrefixIsSubsequence(a, b[1..], k);
      }
    }
  }

  lemma {:induction false} MapIsSubsequence<A, B>(f: A -> B, a: seq<A>, b: seq<A>)
    requires IsSubsequence(a, b)
    ensures IsSubsequence(Map(f, a), Map(f, b))
    decreases |b|
  {
    if b == [] {
    } else if a != [] && a[0] == b[0] && IsSubsequence(a[1..], b[1..]) {
      MapIsSubsequence(f, a[1..], b[1..]);
      assert Map(f, a)[1..] == Map(f, a[1..]);
      assert Map(f, b)[1..] == Map(f, b[1..]);
    } else {
      MapIsSubsequence(f, a, b[1..]);
      assert Map(f, b)[1..] == Map(f, b[1..]);
    }
  }

  lemma {:induction false} FilterAppend<T>(p: T -> bool, a: seq<T>, b: seq<T>)
    ensures Filter(p, a + b) == Filter(p, a) + Filter(p, b)
    decreases |a|
  {
    if a != [] {
      assert (a + b)[0] == a[0];
      assert (a + b)[1..] == a[1..] + b;
      FilterAppend(p, a[1..], b);
      var head := if p(a[0]) then [a[0]] else [];
      assert Filter(p, a + b) == head + Filter(p, a[1..] + b);
      assert Filter(p, a) == head + Filter(p, a[1..]);
    } else {
      assert a + b == b;
    }
  }

  /** Filtering one more element extends the result by that element exactly when the
      predicate accepts it. */
  lemma FilterSnoc<T>(p: T -> bool, s: seq<T>, x: T)
    ensures Filter(p, s + [x]) == Filter(p, s) + (if p(x) then [x] else [])
  {
    FilterAppend(p, s, [x]);
    assert [x][1..] == [];
    if p(x) {
      assert Filter(p, [x]) == [x];
    } else {
      assert Filter(p, [x]) == [];
    }
  }

  /** A filter that keeps every element is the identity. */
  lemma {:induction false} FilterKeepsAll<T>(p: T -> bool, s: seq<T>)
    requires forall i :: 0 <= i < |s| ==> p(s[i])
    ensures Filter(p, s) == s
    decreases |s|
  {
    if s != [] {
      FilterKeepsAll(p, s[1..]);
    }
  }

  /** The length of a filtered list is the number of elements the predicate accepts. */
  lemma {:induction false} FilterLength<T>(p: T -> bool, s: seq<T>)
    ensures |Filter(p, s)| == multiset(Map(p, s))[true]
    decreases |s|
  {
    if s != [] {
      FilterLength(p, s[1..]);
      assert Map(p, s) == [p(s[0])] + Map(p, s[1..]);
    }
  }
}
