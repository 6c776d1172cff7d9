/** Rust's `BTreeMap<u64, V>` as a sequence of entries in strictly
    ascending key order: insertion replaces the value of an existing key,
    iteration visits keys in order, and the range queries the solutions
    use (`range(..b)`, `range(k + 1..).next()`, `range(..k).rev().next()`)
    are functions over that order. */
module SortedMaps {
  import opened Common

  datatype Entry<V> = Entry(key: nat, value: V)

  ghost predicate Sorted<V>(m: seq<Entry<V>>) {
    forall i, j :: 0 <= i < j < |m| ==> m[i].key < m[j].key
  }

  function Keys<V>(m: seq<Entry<V>>): (ks: set<nat>)
    ensures forall e :: e in m ==> e.key in ks
  {
    if |m| == 0 then {} else {m[0].key} + Keys(m[1..])
  }

  lemma KeysAppend<V>(a: seq<Entry<V>>, b: seq<Entry<V>>)
    ensures Keys(a + b) == Keys(a) + Keys(b)
  {
    if |a| > 0 {
      assert (a + b)[1..] == a[1..] + b;
      KeysAppend(a[1..], b);
    } else {
      assert a + b == b;
    }
  }

  /** `BTreeMap::get`. */
  function Get<V>(m: seq<Entry<V>>, k: nat): (r: Option<V>)
    ensures r.Some? ==> Entry(k, r.value) in m
    ensures r.None? ==> k !in Keys(m)
  {
    if |m| == 0 then None
    else if m[0].key == k then Some(m[0].value)
    else Get(m[1..], k)
  }

  lemma GetSorted<V>(m: seq<Entry<V>>, i: nat)
    requires Sorted(m) && i < |m|
    ensures Get(m, m[i].key) == Some(m[i].value)
  {
    if i > 0 {
      GetSorted(m[1..], i - 1);
    }
  }

  lemma KeysMember<V>(m: seq<Entry<V>>)
    ensures forall k :: k in Keys(m) ==> exists e :: e in m && e.key == k
  {
    if |m| > 0 {
      KeysMember(m[1..]);
      forall k | k in Keys(m)
        ensures exists e :: e in m && e.key == k
      {
        if k != m[0].key {
          assert k in Keys(m[1..]);
          var e :| e in m[1..] && e.key == k;
          assert e in m;
        } else {
          assert m[0] in m;
        }
      }
    }
  }

  /** `BTreeMap::insert`: adds the key, or replaces its value. */
  function Insert<V>(m: seq<Entry<V>>, k: nat, v: V): (r: seq<Entry<V>>)
    requires Sorted(m)
    ensures Sorted(r)
    ensures Keys(r) == Keys(m) + {k}
  {
    if |m| == 0 then [Entry(k, v)]
    else
      SortedTail(m);
      if k < m[0].key then
        SortedCons(Entry(k, v), m);
        [Entry(k, v)] + m
      else if k == m[0].key then
        SortedCons(Entry(k, v), m[1..]);
        [Entry(k, v)] + m[1..]
      else
        var rest := Insert(m[1..], k, v);
        SortedCons(m[0], rest);
        [m[0]] + rest
  }

  /** The tail of a sorted map is sorted, with every key above the head's. */
  lemma SortedTail<V>(m: seq<Entry<V>>)
    requires Sorted(m) && |m| > 0
    ensures Sorted(m[1..])
    ensures forall k :: k in Keys(m[1..]) ==> k > m[0].key
    ensures Keys(m) == {m[0].key} + Keys(m[1..])
  {
    assert forall i :: 0 <= i < |m| - 1 ==> m[1..][i] == m[i + 1];
    KeysAbove(m[1..], m[0].key);
  }

  /** An entry below every key of a sorted map can go in front of it. */
  lemma SortedCons<V>(e: Entry<V>, m: seq<Entry<V>>)
    requires Sorted(m)
    requires forall k :: k in Keys(m) ==> k > e.key
    ensures Sorted([e] + m)
    ensures Keys([e] + m) == {e.key} + Keys(m)
  {
    KeysAbove(m, e.key);
    var r := [e] + m;
    assert r[1..] == m;
    assert forall i :: 1 <= i < |r| ==> r[i] == m[i - 1];
  }

  /** Every key of a map lies above a bound when every entry does, and
      conversely. */
  lemma {:induction false} KeysAbove<V>(m: seq<Entry<V>>, b: nat)
    ensures (forall i :: 0 <= i < |m| ==> m[i].key > b) <==> (forall k :: k in Keys(m) ==> k > b)
  {
    if |m| > 0 {
      KeysAbove(m[1..], b);
      assert forall i :: 1 <= i < |m| ==> m[i] == m[1..][i - 1];
      if forall i :: 0 <= i < |m| ==> m[i].key > b {
        assert forall i :: 0 <= i < |m[1..]| ==> m[1..][i].key > b;
        forall k | k in Keys(m)
          ensures k > b
        {
          if k != m[0].key {
            assert k in Keys(m[1..]);
          }
        }
      } else {
        var i :| 0 <= i < |m| && m[i].key <= b;
        assert m[i] in m && m[i].key in Keys(m);
      }
    }
  }

  /** After insertion the key maps to the new value and every other key
      keeps its value. */
  lemma {:induction false} InsertGet<V>(m: seq<Entry<V>>, k: nat, v: V)
    requires Sorted(m)
    ensures Get(Insert(m, k, v), k) == Some(v)
    ensures forall k' :: k' != k ==> Get(Insert(m, k, v), k') == Get(m, k')
  {
    if |m| > 0 && k > m[0].key {
      InsertGet(m[1..], k, v);
      assert Insert(m, k, v) == [m[0]] + Insert(m[1..], k, v);
    } else if |m| > 0 && k == m[0].key {
      assert Insert(m, k, v)[1..] == m[1..];
    } else if |m| > 0 {
      assert Insert(m, k, v)[1..] == m;
    }
  }

  /** Insertion adds no entry other than the inserted one. */
  lemma {:induction false} InsertEntries<V>(m: seq<Entry<V>>, k: nat, v: V)
    requires Sorted(m)
    ensures forall e :: e in Insert(m, k, v) ==> e in m || e == Entry(k, v)
  {
    if |m| > 0 && k > m[0].key {
      InsertEntries(m[1..], k, v);
      assert Insert(m, k, v) == [m[0]] + Insert(m[1..], k, v);
    }
  }

  /** A map built by inserting the pairs in order; a later pair replaces an
      earlier one with the same key (`iter().fold(BTreeMap::new(), insert)`). */
  function FromEntries<V>(pairs: seq<Entry<V>>): (r: seq<Entry<V>>)
    ensures Sorted(r)
    ensures Keys(r) == Keys(pairs)
  {
    if |pairs| == 0 then []
    else
      var last := pairs[|pairs| - 1];
      var init := pairs[..|pairs| - 1];
      assert pairs == init + [last];
      KeysAppend(init, [last]);
      Insert(FromEntries(init), last.key, last.value)
  }

  /** A built map holds only entries from its pairs. */
  lemma {:induction false} FromEntriesSubset<V>(pairs: seq<Entry<V>>)
    ensures forall e :: e in FromEntries(pairs) ==> e in pairs
  {
    if |pairs| > 0 {
      var init := pairs[..|pairs| - 1];
      FromEntriesSubset(init);
      InsertEntries(FromEntries(init), pairs[|pairs| - 1].key, pairs[|pairs| - 1].value);
      assert pairs == init + [pairs[|pairs| - 1]];
    }
  }

  /** The value of a key in a built map is the value of its last pair. */
  lemma {:induction false} FromEntriesLastWins<V>(pairs: seq<Entry<V>>, i: nat)
    requires i < |pairs|
    requires forall j :: i < j < |pairs| ==> pairs[j].key != pairs[i].key
    ensures Get(FromEntries(pairs), pairs[i].key) == Some(pairs[i].value)
  {
    var init := pairs[..|pairs| - 1];
    var last := pairs[|pairs| - 1];
    assert pairs == init + [last];
    KeysAppend(init, [last]);
    InsertGet(FromEntries(init), last.key, last.value);
    if i < |pairs| - 1 {
      FromEntriesLastWins(init, i);
    }
  }

  /** `BTreeMap::range(..bound)`: the entries whose key is below `bound`. */
  function Below<V>(m: seq<Entry<V>>, bound: nat): (r: seq<Entry<V>>)
    requires Sorted(m)
    ensures |r| <= |m| && r == m[..|r|]
    ensures forall i :: 0 <= i < |r| ==> r[i].key < bound
    ensures forall i :: |r| <= i < |m| ==> m[i].key >= bound
  {
    if |m| == 0 || m[0].key >= bound then []
    else [m[0]] + Below(m[1..], bound)
  }

  /** `range(k + 1..).next()`: the entry with the least key above `k`. */
  function FirstAbove<V>(m: seq<Entry<V>>, k: nat): (r: Option<Entry<V>>)
    requires Sorted(m)
    ensures r.Some? ==> r.value in m && r.value.key > k
    ensures r.Some? ==> forall e :: e in m && k < e.key ==> r.value.key <= e.key
    ensures r.None? ==> forall e :: e in m ==> e.key <= k
  {
    if |m| == 0 then None
    else if m[0].key > k then Some(m[0])
    else FirstAbove(m[1..], k)
  }

  /** `range(..k).rev().next()`: the entry with the greatest key below `k`. */
  function LastBelow<V>(m: seq<Entry<V>>, k: nat): (r: Option<Entry<V>>)
    requires Sorted(m)
    ensures r.Some? ==> r.value in m && r.value.key < k
    ensures r.Some? ==> forall e :: e in m && e.key < k ==> e.key <= r.value.key
    ensures r.None? ==> forall e :: e in m ==> e.key >= k
  {
    if |m| == 0 then None
    else if m[|m| - 1].key < k then Some(m[|m| - 1])
    else LastBelow(m[..|m| - 1], k)
  }
}
