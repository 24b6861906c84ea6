/**
 * Python's `dict` from `str` to `str`, as the launcher uses it: an
 * association list in insertion order in which every name occurs once.
 * Iteration (`items()`) follows that order, assigning to an existing name
 * keeps its position, and a new name is appended.
 */
module Dicts {
  import opened Wrappers

  /** The names bound in an association list. */
  function Keys(d: seq<(string, string)>): set<string> {
    if d == [] then {} else {d[0].0} + Keys(d[1..])
  }

  /** No name is bound twice. */
  predicate DistinctKeys(d: seq<(string, string)>) {
    d == [] || (d[0].0 !in Keys(d[1..]) && DistinctKeys(d[1..]))
  }

  /** A `dict[str, str]`: its items in insertion order. */
  type Dict = d: seq<(string, string)> | DistinctKeys(d)

  /** `d.get(k)`. */
  function Lookup(d: Dict, k: string): (r: Option<string>)
    ensures r.Some? <==> k in Keys(d)
  {
    if d == [] then None
    else if d[0].0 == k then Some(d[0].1)
    else Lookup(d[1..], k)
  }

  /** The names of an association list, in its order (`list(d)` for a dict). */
  function Names(d: seq<(string, string)>): (r: seq<string>)
    ensures |r| == |d| && forall i :: 0 <= i < |d| ==> r[i] == d[i].0
  {
    if d == [] then [] else [d[0].0] + Names(d[1..])
  }

  /**
   * The names of `xs` that are not in `ks`, each once, in the order in
   * which they first occur: the names a merge appends.
   */
  function NewNames(xs: seq<string>, ks: set<string>): (r: seq<string>)
    ensures forall x :: x in r <==> x in xs && x !in ks
  {
    if xs == [] then []
    else if xs[0] in ks then NewNames(xs[1..], ks)
    else [xs[0]] + NewNames(xs[1..], ks + {xs[0]})
  }

  /** The new names of a concatenation: those of the first part, then the rest's names not seen so far. */
  lemma {:induction false} NewNamesAppend(xs: seq<string>, ys: seq<string>, ks: set<string>, seen: set<string>)
    requires forall x :: x in seen <==> x in ks || x in xs
    ensures NewNames(xs + ys, ks) == NewNames(xs, ks) + NewNames(ys, seen)
    decreases |xs|
  {
    if xs == [] {
      assert seen == ks;
      assert xs + ys == ys;
    } else {
      assert (xs + ys)[1..] == xs[1..] + ys;
      if xs[0] in ks {
        NewNamesAppend(xs[1..], ys, ks, seen);
      } else {
        NewNamesAppend(xs[1..], ys, ks + {xs[0]}, seen);
      }
    }
  }

  /** `d[k] = v` on a copy of `d`. */
  function Put(d: Dict, k: string, v: string): (r: Dict)
    ensures Keys(r) == Keys(d) + {k}
    ensures forall j :: Lookup(r, j) == if j == k then Some(v) else Lookup(d, j)
    ensures k in Keys(d) ==> |r| == |d| && forall i :: 0 <= i < |d| ==> r[i].0 == d[i].0
    ensures k !in Keys(d) ==> r == d + [(k, v)]
  {
    if d == [] then SingletonIsDict(k, v); [(k, v)]
    else if d[0].0 == k then [(k, v)] + d[1..]
    else
      var r := [d[0]] + Put(d[1..], k, v);
      assert k !in Keys(d) ==> r == d + [(k, v)];
      r
  }

  /** `{**a, **b}`: the items of `a`, overridden and then extended by those of `b`. */
  function Update(a: Dict, b: Dict): (r: Dict)
    ensures Keys(r) == Keys(a) + Keys(b)
    ensures forall k :: Lookup(r, k) == if k in Keys(b) then Lookup(b, k) else Lookup(a, k)
    decreases |b|
  {
    if b == [] then a
    else Update(Put(a, b[0].0, b[0].1), b[1..])
  }

  /**
   * The order of `{**a, **b}`: `a`'s names keep their places and `b`'s
   * names that `a` lacks follow, in `b`'s order.
   */
  lemma {:induction false} UpdateNames(a: Dict, b: Dict)
    ensures Names(Update(a, b)) == Names(a) + NewNames(Names(b), Keys(a))
    decreases |b|
  {
    if b != [] {
      var k := b[0].0;
      var a' := Put(a, k, b[0].1);
      UpdateNames(a', b[1..]);
      assert Update(a, b) == Update(a', b[1..]);
      assert Names(b)[0] == k && Names(b)[1..] == Names(b[1..]);
      if k in Keys(a) {
        assert Names(a') == Names(a);
        assert Keys(a') == Keys(a);
        assert NewNames(Names(b), Keys(a)) == NewNames(Names(b[1..]), Keys(a));
      } else {
        assert Names(a') == Names(a) + [k];
        assert NewNames(Names(b), Keys(a)) == [k] + NewNames(Names(b[1..]), Keys(a) + {k});
      }
    }
  }

  /** The names bound are the names listed. */
  lemma {:induction false} KeysAreNames(d: seq<(string, string)>)
    ensures forall k :: k in Keys(d) <==> k in Names(d)
  {
    if d != [] {
      KeysAreNames(d[1..]);
      assert Names(d) == [d[0].0] + Names(d[1..]);
    }
  }

  /** A dict listing `a`'s names and then the new names of `xs` binds exactly the names of `a` and `xs`. */
  lemma ExtendedKeys(d: Dict, a: Dict, xs: seq<string>)
    requires Names(d) == Names(a) + NewNames(xs, Keys(a))
    ensures forall x :: x in Keys(d) <==> x in Keys(a) || x in xs
  {
    KeysAreNames(d);
    KeysAreNames(a);
  }

  /** Merging one more dict into such a dict appends the new names of that dict. */
  lemma UpdateExtendsNames(d: Dict, a: Dict, xs: seq<string>, b: Dict)
    requires Names(d) == Names(a) + NewNames(xs, Keys(a))
    ensures Names(Update(d, b)) == Names(a) + NewNames(xs + Names(b), Keys(a))
  {
    var seen, added := NewNames(xs, Keys(a)), NewNames(Names(b), Keys(d));
    assert NewNames(xs + Names(b), Keys(a)) == seen + added by {
      ExtendedKeys(d, a, xs);
      NewNamesAppend(xs, Names(b), Keys(a), Keys(d));
    }
    UpdateNames(d, b);
    AppendAssociative(Names(a), seen, added);
  }

  /** Concatenation is associative. */
  lemma AppendAssociative(x: seq<string>, y: seq<string>, z: seq<string>)
    ensures (x + y) + z == x + (y + z)
  {
  }

  /** A prefix of a dict is a dict over some of its names. */
  lemma {:induction false} PrefixIsDict(d: Dict, n: nat)
    requires n <= |d|
    ensures DistinctKeys(d[..n]) && Keys(d[..n]) <= Keys(d)
  {
    if n > 0 {
      PrefixIsDict(d[1..], n - 1);
      assert d[..n] == [d[0]] + d[1..][..n - 1];
    }
  }

  /** A suffix of a dict is a dict. */
  lemma {:induction false} SuffixIsDict(d: Dict, n: nat)
    requires n <= |d|
    ensures DistinctKeys(d[n..])
    decreases n
  {
    if n > 0 {
      SuffixIsDict(d[1..], n - 1);
      assert d[1..][n - 1..] == d[n..];
    }
  }

  /** A one-entry list is a dict. */
  lemma SingletonIsDict(k: string, v: string)
    ensures DistinctKeys([(k, v)]) && Keys([(k, v)]) == {k}
  {
  }
}
