/**
 * Re-keying a round's results in ascending id order. A round's results are
 * collected in completion order; before they are reported the runner
 * rebuilds the map by iterating its keys in sorted order. An insertion
 * ordered dictionary is modelled as a sequence of (key, value) entries.
 */
module Ordering {

  /** A non-empty set has an element. */
  lemma Inhabited(s: set<int>)
    requires s != {}
    ensures exists x :: x in s
  {
    assert (forall x :: x !in s) ==> s == {};
  }

  /** The smallest element of a non-empty finite set of integers exists. */
  lemma {:induction false} MinKeyExists(s: set<int>)
    requires s != {}
    ensures exists m :: m in s && forall x :: x in s ==> m <= x
    decreases |s|
  {
    Inhabited(s);
    var y :| y in s;
    var rest := s - {y};
    if rest == {} {
      forall x | x in s ensures y <= x {
        assert x !in rest;
      }
    } else {
      MinKeyExists(rest);
      var m :| m in rest && forall x :: x in rest ==> m <= x;
      var least := if y < m then y else m;
      assert least in s;
      forall x | x in s
        ensures least <= x
      {
        if x != y {
          assert x in rest;
        }
      }
    }
  }

  /** The smallest key of a non-empty set. */
  function MinKey(s: set<int>): (m: int)
    requires s != {}
    ensures m in s && forall x :: x in s ==> m <= x
  {
    MinKeyExists(s);
    var m :| m in s && forall x :: x in s ==> m <= x;
    m
  }

  /** The keys of an ordered dictionary, in its order. */
  function Keys<V>(d: seq<(int, V)>): (r: seq<int>)
    ensures |r| == |d|
    ensures forall i :: 0 <= i < |d| ==> r[i] == d[i].0
  {
    seq(|d|, i requires 0 <= i < |d| => d[i].0)
  }

  /** `{k: m[k] for k in sorted(m)}`: the entries of `m`, least key first. */
  function ByAscendingId<V>(m: map<int, V>): seq<(int, V)> {
    EntriesOf(m, m.Keys)
  }

  /** The entries of `m` whose keys are in `ks`, least key first. */
  function EntriesOf<V>(m: map<int, V>, ks: set<int>): seq<(int, V)>
    requires ks <= m.Keys
    decreases ks
  {
    if ks == {} then []
    else
      var k := MinKey(ks);
      [(k, m[k])] + EntriesOf(m, ks - {k})
  }

  /** One entry per key of `ks`. */
  lemma {:induction false} EntriesOfLength<V>(m: map<int, V>, ks: set<int>)
    requires ks <= m.Keys
    ensures |EntriesOf(m, ks)| == |ks|
    decreases ks
  {
    if ks != {} {
      EntriesOfLength(m, ks - {MinKey(ks)});
    }
  }

  /** Every entry listed is a key of `ks` with the value it has in `m`. */
  lemma {:induction false} EntriesOfEntries<V>(m: map<int, V>, ks: set<int>)
    requires ks <= m.Keys
    ensures forall i :: 0 <= i < |EntriesOf(m, ks)| ==>
      EntriesOf(m, ks)[i].0 in ks && EntriesOf(m, ks)[i].1 == m[EntriesOf(m, ks)[i].0]
    decreases ks
  {
    if ks != {} {
      var k := MinKey(ks);
      EntriesOfEntries(m, ks - {k});
      var tail := EntriesOf(m, ks - {k});
      var r := EntriesOf(m, ks);
      forall i | 0 < i < |r|
        ensures r[i].0 in ks && r[i].1 == m[r[i].0]
      {
        assert r[i] == tail[i - 1];
      }
    }
  }

  /** Every key of `ks` is listed, nothing else is, and there are as many
      entries as keys, so each key is listed exactly once. */
  lemma {:induction false} EntriesOfCovers<V>(m: map<int, V>, ks: set<int>)
    requires ks <= m.Keys
    ensures forall k :: k in ks <==> k in Keys(EntriesOf(m, ks))
    ensures |EntriesOf(m, ks)| == |ks|
    decreases ks
  {
    EntriesOfEntries(m, ks);
    EntriesOfLength(m, ks);
    if ks != {} {
      var k := MinKey(ks);
      EntriesOfCovers(m, ks - {k});
      assert Keys(EntriesOf(m, ks)) == [k] + Keys(EntriesOf(m, ks - {k}));
    }
  }

  /** The keys are listed in strictly ascending order. */
  lemma {:induction false} EntriesOfAscending<V>(m: map<int, V>, ks: set<int>)
    requires ks <= m.Keys
    ensures forall i, j :: 0 <= i < j < |EntriesOf(m, ks)| ==> EntriesOf(m, ks)[i].0 < EntriesOf(m, ks)[j].0
    decreases ks
  {
    if ks != {} {
      var k := MinKey(ks);
      EntriesOfAscending(m, ks - {k});
      EntriesOfEntries(m, ks - {k});
      var tail := EntriesOf(m, ks - {k});
      var r := EntriesOf(m, ks);
      forall i | 0 < i < |r|
        ensures r[i] == tail[i - 1] && k < r[i].0
      {
        assert tail[i - 1].0 in ks - {k};
      }
    }
  }

  /** Every entry of the re-keyed dictionary is a key of `m` with the value
      it has in `m`. */
  lemma ByAscendingIdEntries<V>(m: map<int, V>)
    ensures forall i :: 0 <= i < |ByAscendingId(m)| ==>
      ByAscendingId(m)[i].0 in m && ByAscendingId(m)[i].1 == m[ByAscendingId(m)[i].0]
  {
    EntriesOfEntries(m, m.Keys);
  }

  /** Every key of `m` has an entry in the re-keyed dictionary. */
  lemma ByAscendingIdCovers<V>(m: map<int, V>)
    ensures forall k :: k in m <==> k in Keys(ByAscendingId(m))
  {
    EntriesOfCovers(m, m.Keys);
  }

  /** The re-keyed dictionary lists its keys in strictly ascending order. */
  lemma ByAscendingIdAscending<V>(m: map<int, V>)
    ensures forall i, j :: 0 <= i < j < |ByAscendingId(m)| ==> ByAscendingId(m)[i].0 < ByAscendingId(m)[j].0
  {
    EntriesOfAscending(m, m.Keys);
  }

  /** Re-keying is the identity on the pairs: an entry's value is the value
      its key had, and the order is the only thing that changes. */
  lemma ByAscendingIdLookup<V>(m: map<int, V>, k: int)
    requires k in m
    ensures exists i :: 0 <= i < |ByAscendingId(m)| && ByAscendingId(m)[i] == (k, m[k])
  {
    ByAscendingIdEntries(m);
    ByAscendingIdCovers(m);
    var r := ByAscendingId(m);
    assert k in Keys(r);
    var i :| 0 <= i < |r| && Keys(r)[i] == k;
    assert r[i] == (k, m[k]);
  }

  /** Ids 1..n re-keyed come out keyed 1, 2, ..., n in that order. */
  lemma {:induction false} ByAscendingIdOfIds<V>(m: map<int, V>, n: nat)
    requires forall k :: k in m <==> 1 <= k <= n
    ensures |ByAscendingId(m)| == n
    ensures forall i :: 0 <= i < n ==> ByAscendingId(m)[i].0 == i + 1
  {
    ByAscendingIdEntries(m);
    ByAscendingIdAscending(m);
    var r := ByAscendingId(m);
    CardinalityOfRange(m.Keys, n);
    EntriesOfLength(m, m.Keys);
    var ks := Keys(r);
    assert forall j :: 0 <= j < n ==> 1 <= ks[j] <= n;
    assert forall a, b :: 0 <= a < b < n ==> ks[a] < ks[b];
    AscendingRange(ks, n);
  }

  /** A set holding exactly 1..n has n elements. */
  lemma {:induction false} CardinalityOfRange(s: set<int>, n: nat)
    requires forall k :: k in s <==> 1 <= k <= n
    ensures |s| == n
  {
    if n > 0 {
      var t := s - {n};
      CardinalityOfRange(t, n - 1);
    } else {
      assert forall k :: k !in s;
    }
  }

  /** A strictly increasing sequence of n values drawn from 1..n is 1..n. */
  lemma AscendingRange(ks: seq<int>, n: nat)
    requires |ks| == n
    requires forall j :: 0 <= j < n ==> 1 <= ks[j] <= n
    requires forall a, b :: 0 <= a < b < n ==> ks[a] < ks[b]
    ensures forall i :: 0 <= i < n ==> ks[i] == i + 1
  {
    forall i | 0 <= i < n
      ensures ks[i] == i + 1
    {
      AscendingAtLeast(ks, i);
      AscendingAtMost(ks, n, i);
    }
  }

  lemma {:induction false} AscendingAtLeast(ks: seq<int>, i: nat)
    requires i < |ks|
    requires forall j :: 0 <= j < |ks| ==> 1 <= ks[j]
    requires forall a, b :: 0 <= a < b < |ks| ==> ks[a] < ks[b]
    ensures ks[i] >= i + 1
  {
    if i > 0 {
      AscendingAtLeast(ks, i - 1);
    }
  }

  lemma {:induction false} AscendingAtMost(ks: seq<int>, n: nat, i: nat)
    requires |ks| == n && i < n
    requires forall j :: 0 <= j < n ==> ks[j] <= n
    requires forall a, b :: 0 <= a < b < n ==> ks[a] < ks[b]
    ensures ks[i] <= i + 1
    decreases n - i
  {
    if i < n - 1 {
      AscendingAtMost(ks, n, i + 1);
    }
  }
}
