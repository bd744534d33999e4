/** Insertion-ordered dictionaries with string keys, as a Python `dict` behaves:
    assigning to a present key replaces its value where it stands, assigning to
    an absent key appends it at the end, and iteration follows that order. */
module Dicts {
  import opened Wrappers

  type Dict<V> = seq<(string, V)>

  function Keys<V>(d: Dict<V>): seq<string>
  {
    seq(|d|, i requires 0 <= i < |d| => d[i].0)
  }

  ghost predicate UniqueKeys<V>(d: Dict<V>)
  {
    forall i, j :: 0 <= i < j < |d| ==> d[i].0 != d[j].0
  }

  /** `d.get(k)`: the value of the first entry with key `k`. */
  function Lookup<V>(d: Dict<V>, k: string): (r: Option<V>)
    ensures r.Some? <==> k in Keys(d)
    ensures r.Some? ==> (k, r.value) in d
  {
    if d == [] then None
    else if d[0].0 == k then
      assert Keys(d)[0] == k;
      Some(d[0].1)
    else
      assert Keys(d) == [d[0].0] + Keys(d[1..]);
      Lookup(d[1..], k)
  }

  /** `d[k] = v`. */
  function Put<V>(d: Dict<V>, k: string, v: V): (r: Dict<V>)
    ensures Lookup(r, k) == Some(v)
    ensures forall k' :: k' != k ==> Lookup(r, k') == Lookup(d, k')
    ensures k in Keys(d) ==> Keys(r) == Keys(d)
    ensures k !in Keys(d) ==> r == d + [(k, v)]
  {
    if d == [] then [(k, v)]
    else if d[0].0 == k then
      assert Keys([(k, v)] + d[1..]) == Keys(d);
      [(k, v)] + d[1..]
    else
      var rest := Put(d[1..], k, v);
      LookupCons(d[0], d[1..]);
      LookupCons(d[0], rest);
      assert d == [d[0]] + d[1..];
      [d[0]] + rest
  }

  /** `xs` is `ys` with some elements left out and the others in their order. */
  predicate IsSubsequence<T(==)>(xs: seq<T>, ys: seq<T>)
    decreases |ys|
  {
    if ys == [] then xs == []
    else (xs != [] && xs[0] == ys[0] && IsSubsequence(xs[1..], ys[1..])) || IsSubsequence(xs, ys[1..])
  }

  /** Keys and lookups of a dictionary with one entry in front. */
  lemma LookupCons<V>(e: (string, V), d: Dict<V>)
    ensures Keys([e] + d) == [e.0] + Keys(d)
    ensures forall k :: Lookup([e] + d, k) == if e.0 == k then Some(e.1) else Lookup(d, k)
  {
    assert ([e] + d)[1..] == d;
  }

  lemma KeysAppend<V>(d: Dict<V>, e: Dict<V>)
    ensures Keys(d + e) == Keys(d) + Keys(e)
  {
  }

  /** In a dictionary without repeated keys, the entry at position `i` is the
      one `Lookup` finds. */
  lemma {:induction false} LookupAt<V>(d: Dict<V>, i: nat)
    requires UniqueKeys(d) && i < |d|
    ensures Lookup(d, d[i].0) == Some(d[i].1)
  {
    if i > 0 {
      LookupAt(d[1..], i - 1);
    }
  }

  /** Assigning to a key found at position `i` rewrites that position only. */
  lemma {:induction false} PutAt<V>(d: Dict<V>, i: nat, v: V)
    requires UniqueKeys(d) && i < |d|
    ensures Put(d, d[i].0, v) == d[i := (d[i].0, v)]
  {
    if i > 0 {
      PutAt(d[1..], i - 1, v);
      assert d[1..][i - 1 := (d[i].0, v)] == d[i := (d[i].0, v)][1..];
    }
  }

  /** Appending an entry under a key the dictionary lacks is `Put` on that
      key: the keys stay distinct and only the new key's lookup changes. */
  lemma AppendAbsent<V>(d: Dict<V>, k: string, v: V, k': string)
    requires UniqueKeys(d) && k !in Keys(d)
    ensures UniqueKeys(d + [(k, v)])
    ensures Keys(d + [(k, v)]) == Keys(d) + [k]
    ensures Lookup(d + [(k, v)], k') == if k' == k then Some(v) else Lookup(d, k')
  {
    AppendUnique(d, k, v);
    assert Put(d, k, v) == d + [(k, v)];
  }

  lemma AppendUnique<V>(d: Dict<V>, k: string, v: V)
    requires UniqueKeys(d) && k !in Keys(d)
    ensures UniqueKeys(d + [(k, v)])
    ensures Keys(d + [(k, v)]) == Keys(d) + [k]
  {
    var e := d + [(k, v)];
    forall i, j | 0 <= i < j < |e| ensures e[i].0 != e[j].0 {
      if j == |d| {
        assert Keys(d)[i] == d[i].0;
      }
    }
    KeysAppend(d, [(k, v)]);
  }

  /** Two assignments to a key that was absent leave one entry at the end,
      holding the value written last. */
  lemma PutTwiceAbsent<V>(d: Dict<V>, k: string, a: V, b: V)
    requires UniqueKeys(d) && k !in Keys(d)
    ensures UniqueKeys(d + [(k, a)])
    ensures Put(d + [(k, a)], k, b) == d + [(k, b)]
  {
    var e := d + [(k, a)];
    forall i, j | 0 <= i < j < |e| ensures e[i].0 != e[j].0 {
      if j == |d| {
        assert Keys(d)[i] == d[i].0;
      }
    }
    PutAt(e, |d|, b);
  }

  lemma KeyIndex<V>(d: Dict<V>, k: string) returns (i: nat)
    requires k in Keys(d)
    ensures i < |d| && d[i].0 == k
  {
    i :| 0 <= i < |Keys(d)| && Keys(d)[i] == k;
  }

  /** A key occurs once: no earlier entry carries the key at position `i`. */
  lemma KeyNotBefore<V>(d: Dict<V>, i: nat)
    requires UniqueKeys(d) && i < |d|
    ensures d[i].0 !in Keys(d[..i])
    ensures UniqueKeys(d[..i])
  {
    forall j | 0 <= j < i ensures Keys(d[..i])[j] != d[i].0 {
    }
  }

  /** Dictionaries with the same keys at the same positions that agree on the
      entry for `k` give the same lookup for `k`. */
  lemma LookupAgree<V>(d: Dict<V>, e: Dict<V>, k: string)
    requires UniqueKeys(d) && |d| == |e|
    requires forall p :: 0 <= p < |d| ==> d[p].0 == e[p].0
    requires forall p :: 0 <= p < |d| && d[p].0 == k ==> d[p] == e[p]
    ensures Keys(d) == Keys(e) && UniqueKeys(e)
    ensures Lookup(d, k) == Lookup(e, k)
  {
    assert Keys(d) == Keys(e);
    if k in Keys(d) {
      var p := KeyIndex(d, k);
      LookupAt(d, p);
      LookupAt(e, p);
    }
  }

  /** `a` is `b` with some entries left out and the others in their order. */
  ghost predicate Subsequence<T>(a: seq<T>, b: seq<T>)
    decreases |b|
  {
    if a == [] then true
    else if b == [] then false
    else (a[0] == b[0] && Subsequence(a[1..], b[1..])) || Subsequence(a, b[1..])
  }

  /** `cur` is `orig` with the entries whose keys are in `names` replaced by
      those of `target`, a dictionary with the same keys at the same places. */
  ghost predicate RewrittenUpTo<V>(orig: Dict<V>, target: Dict<V>, names: seq<string>, cur: Dict<V>)
  {
    && |target| == |orig| && |cur| == |orig|
    && (forall p :: 0 <= p < |orig| ==> target[p].0 == orig[p].0)
    && forall p :: 0 <= p < |orig| ==> cur[p] == if orig[p].0 in names then target[p] else orig[p]
  }

  /** Rewriting the entry for one more key `k` with its target value. */
  lemma RewriteStep<V>(orig: Dict<V>, target: Dict<V>, names: seq<string>, cur: Dict<V>, k: string, v: V)
    requires UniqueKeys(orig) && RewrittenUpTo(orig, target, names, cur) && k !in names
    requires forall p :: 0 <= p < |orig| && orig[p].0 == k ==> target[p] == (k, v)
    requires k in Keys(orig)
    ensures RewrittenUpTo(orig, target, names + [k], Put(cur, k, v))
  {
    var p0 := KeyIndex(orig, k);
    assert UniqueKeys(cur) by {
      forall i, j | 0 <= i < j < |cur| ensures cur[i].0 != cur[j].0 {
        assert cur[i].0 == orig[i].0 && cur[j].0 == orig[j].0;
      }
    }
    assert cur[p0].0 == k;
    PutAt(cur, p0, v);
  }

  /** Visiting one more key `k` whose entry already has its target value. */
  lemma SkipStep<V>(orig: Dict<V>, target: Dict<V>, names: seq<string>, cur: Dict<V>, k: string)
    requires RewrittenUpTo(orig, target, names, cur)
    requires forall p :: 0 <= p < |orig| && orig[p].0 == k ==> target[p] == orig[p]
    ensures RewrittenUpTo(orig, target, names + [k], cur)
  {
  }

  /** Once every key that may change has been visited, the rewrite is complete. */
  lemma RewriteDone<V>(orig: Dict<V>, target: Dict<V>, names: seq<string>, cur: Dict<V>)
    requires RewrittenUpTo(orig, target, names, cur)
    requires forall p :: 0 <= p < |orig| && orig[p].0 !in names ==> target[p] == orig[p]
    ensures cur == target
  {
  }

  lemma {:induction false} KeysSubsequence<V>(d: Dict<V>, e: Dict<V>)
    requires Subsequence(d, e)
    ensures Subsequence(Keys(d), Keys(e))
    decreases |e|
  {
    if d != [] && e != [] {
      assert Keys(d)[1..] == Keys(d[1..]) && Keys(e)[1..] == Keys(e[1..]);
      if d[0] == e[0] && Subsequence(d[1..], e[1..]) {
        KeysSubsequence(d[1..], e[1..]);
      } else {
        KeysSubsequence(d, e[1..]);
      }
    }
  }
}
