/** Log entries as the JavaScript objects they are: key/value pairs in insertion
    order, with property read, property assignment, the rest pattern of object
    destructuring and `Object.fromEntries`. */
module Rows {
  import opened Seqs
  import opened Json

  type Entry = (string, Value)
  type Row = seq<Entry>

  function Keys(r: Row): (ks: seq<string>)
    ensures |ks| == |r|
    ensures forall i :: 0 <= i < |r| ==> ks[i] == r[i].0
  {
    seq(|r|, i requires 0 <= i < |r| => r[i].0)
  }

  /** No key occurs twice, as in every JavaScript object. */
  predicate DistinctKeys(r: Row) {
    forall i, j :: 0 <= i < j < |r| ==> r[i].0 != r[j].0
  }

  /** `r[k]`: the value stored under `k`, `undefined` when there is none. */
  function Get(r: Row, k: string): Value
  {
    if r == [] then Undefined
    else if r[0].0 == k then r[0].1
    else Get(r[1..], k)
  }

  /** A key that is not there reads as `undefined`. */
  lemma {:induction false} GetMissing(r: Row, k: string)
    requires k !in Keys(r)
    ensures Get(r, k) == Undefined
  {
    if r != [] {
      assert Keys(r[1..]) == Keys(r)[1..];
      GetMissing(r[1..], k);
    }
  }

  /** `r[k] = v`: an existing key keeps its place and takes the new value, a new key
      goes at the end. */
  function Set(r: Row, k: string, v: Value): Row
  {
    if r == [] then [(k, v)]
    else if r[0].0 == k then [(k, v)] + r[1..]
    else [r[0]] + Set(r[1..], k, v)
  }

  /** After an assignment the key reads as the new value and every other key as
      before. */
  lemma {:induction false} GetSet(r: Row, k: string, v: Value, j: string)
    ensures Get(Set(r, k, v), j) == if j == k then v else Get(r, j)
  {
    if r != [] && r[0].0 != k {
      GetSet(r[1..], k, v, j);
    }
  }

  /** In an object with distinct keys every pair is found by its key. */
  lemma {:induction false} GetAt(r: Row, i: nat)
    requires DistinctKeys(r) && i < |r|
    ensures Get(r, r[i].0) == r[i].1
  {
    if i > 0 {
      GetAt(r[1..], i - 1);
    }
  }

  /** `const { id, ts, ...rest } = r`: `rest` holds the other pairs, in order. */
  function Without(r: Row, drop: set<string>): (s: Row)
    ensures forall i :: 0 <= i < |s| ==> s[i].0 !in drop
  {
    Filter(r, (e: Entry) => e.0 !in drop)
  }

  /** Dropping keys from a row with one more pair in front. */
  lemma WithoutCons(e: Entry, r: Row, drop: set<string>)
    ensures Without([e] + r, drop) == (if e.0 in drop then [] else [e]) + Without(r, drop)
  {
    assert ([e] + r)[1..] == r;
  }

  /** Dropping keys pair by pair. */
  lemma {:induction false} WithoutConcat(a: Row, b: Row, drop: set<string>)
    ensures Without(a + b, drop) == Without(a, drop) + Without(b, drop)
  {
    if a == [] {
      assert a + b == b;
    } else {
      assert a + b == [a[0]] + (a[1..] + b);
      WithoutCons(a[0], a[1..] + b, drop);
      WithoutConcat(a[1..], b, drop);
      assert a == [a[0]] + a[1..];
      WithoutCons(a[0], a[1..], drop);
    }
  }

  /** Dropping keys a row does not have keeps it whole. */
  lemma {:induction false} WithoutNone(r: Row, drop: set<string>)
    requires forall k :: 0 <= k < |r| ==> r[k].0 !in drop
    ensures Without(r, drop) == r
  {
    if r != [] {
      assert r == [r[0]] + r[1..];
      WithoutCons(r[0], r[1..], drop);
      WithoutNone(r[1..], drop);
    }
  }

  /** Dropping the first and last pair of a row, and no other. */
  lemma WithoutEnds(first: Entry, mid: Row, last: Entry, drop: set<string>)
    requires first.0 in drop && last.0 in drop
    requires forall k :: 0 <= k < |mid| ==> mid[k].0 !in drop
    ensures Without([first] + mid + [last], drop) == mid
  {
    WithoutConcat([first] + mid, [last], drop);
    WithoutConcat([first], mid, drop);
    WithoutCons(first, [], drop);
    WithoutCons(last, [], drop);
    WithoutNone(mid, drop);
    assert [first] + [] == [first];
    assert [last] + [] == [last];
  }

  /** Dropping keys hides exactly those keys. */
  lemma {:induction false} GetWithout(r: Row, drop: set<string>, k: string)
    ensures Get(Without(r, drop), k) == if k in drop then Undefined else Get(r, k)
  {
    if r != [] {
      GetWithout(r[1..], drop, k);
      if k in drop {
        assert k !in Keys(Without(r, drop));
      }
    }
  }

  /** Dropping keys keeps the remaining keys distinct. */
  lemma {:induction false} WithoutDistinct(r: Row, drop: set<string>)
    requires DistinctKeys(r)
    ensures DistinctKeys(Without(r, drop))
  {
    if r != [] {
      WithoutDistinct(r[1..], drop);
      var s := Without(r, drop);
      if r[0].0 !in drop {
        assert s[1..] == Without(r[1..], drop);
        forall j | 0 < j < |s|
          ensures s[0].0 != s[j].0
        {
          FilterMembers(r[1..], (e: Entry) => e.0 !in drop, s[j]);
          var m :| 0 <= m < |r[1..]| && r[1..][m] == s[j];
          assert r[m + 1] == s[j];
        }
      }
    }
  }

  /** `Object.fromEntries(pairs)`: the pairs assigned one after another, so a later
      duplicate key overwrites an earlier one in its place. */
  function FromEntries(pairs: seq<Entry>): Row
  {
    if pairs == [] then []
    else Set(FromEntries(pairs[..|pairs| - 1]), pairs[|pairs| - 1].0, pairs[|pairs| - 1].1)
  }

  /** The value of the last pair with key `k`, `undefined` when there is none. */
  function Lookup(pairs: seq<Entry>, k: string): Value {
    if pairs == [] then Undefined
    else if pairs[|pairs| - 1].0 == k then pairs[|pairs| - 1].1
    else Lookup(pairs[..|pairs| - 1], k)
  }

  /** In the object built from pairs, each key reads as its last pair's value. */
  lemma {:induction false} GetFromEntries(pairs: seq<Entry>, k: string)
    ensures Get(FromEntries(pairs), k) == Lookup(pairs, k)
  {
    if pairs != [] {
      var n := |pairs| - 1;
      GetFromEntries(pairs[..n], k);
      GetSet(FromEntries(pairs[..n]), pairs[n].0, pairs[n].1, k);
    }
  }

  /** Pairs with distinct keys make the object that lists exactly them. */
  lemma {:induction false} FromDistinctEntries(pairs: seq<Entry>)
    requires DistinctKeys(pairs)
    ensures FromEntries(pairs) == pairs
  {
    if pairs != [] {
      var n := |pairs| - 1;
      FromDistinctEntries(pairs[..n]);
      assert pairs[n].0 !in Keys(pairs[..n]);
      SetAppends(pairs[..n], pairs[n].0, pairs[n].1);
      assert pairs[..n] + [pairs[n]] == pairs;
    }
  }

  /** Assigning a key that is not there appends it. */
  lemma {:induction false} SetAppends(r: Row, k: string, v: Value)
    requires k !in Keys(r)
    ensures Set(r, k, v) == r + [(k, v)]
  {
    if r != [] {
      assert Keys(r[1..]) == Keys(r)[1..];
      SetAppends(r[1..], k, v);
      assert r == [r[0]] + r[1..];
    }
  }
}
