/**
 * A model of Python's `collections.OrderedDict` as far as `GeneSetDB.__init__`
 * uses it: built from a list of `[key, value]` pairs, left to right.  Assigning
 * to a key that is already present replaces its value but keeps its position;
 * a new key goes to the end.
 */
module OrderedDicts {

  datatype OrderedDict<K, V> = OrderedDict(keys: seq<K>, entries: map<K, V>)

  predicate Distinct<T(==)>(s: seq<T>) {
    forall i, j :: 0 <= i < j < |s| ==> s[i] != s[j]
  }

  /** Every key is listed exactly once, and the listed keys are the mapped ones. */
  ghost predicate Valid<K, V>(d: OrderedDict<K, V>) {
    && Distinct(d.keys)
    && (forall k | k in d.entries :: k in d.keys)
    && (forall i | 0 <= i < |d.keys| :: d.keys[i] in d.entries)
  }

  /** The number of keys of a valid ordered dictionary is the size of its map. */
  lemma ValidSize<K, V>(d: OrderedDict<K, V>)
    requires Valid(d)
    ensures |d.keys| == |d.entries|
  {
    DistinctCard(d.keys);
    assert d.entries.Keys == set i | 0 <= i < |d.keys| :: d.keys[i];
  }

  /** A sequence without repetitions has as many elements as its set of elements. */
  lemma {:induction false} DistinctCard<T>(s: seq<T>)
    requires Distinct(s)
    ensures |set i | 0 <= i < |s| :: s[i]| == |s|
    decreases |s|
  {
    if s != [] {
      var init := s[..|s| - 1];
      assert Distinct(init) by {
        forall i, j | 0 <= i < j < |init| ensures init[i] != init[j] {
          assert init[i] == s[i] && init[j] == s[j];
        }
      }
      DistinctCard(init);
      var before := set i | 0 <= i < |init| :: init[i];
      assert (set i | 0 <= i < |s| :: s[i]) == before + {s[|s| - 1]} by {
        forall x | x in before ensures x in set i | 0 <= i < |s| :: s[i] {
          var i :| 0 <= i < |init| && init[i] == x;
          assert s[i] == init[i];
        }
      }
      forall x | x in before ensures x != s[|s| - 1] {
        var i :| 0 <= i < |init| && init[i] == x;
        assert s[i] == init[i];
      }
    }
  }

  /** The keys that occur among the pairs. */
  function KeysOf<K, V>(ps: seq<(K, V)>): set<K> {
    set i | 0 <= i < |ps| :: ps[i].0
  }

  function Empty<K, V>(): (d: OrderedDict<K, V>)
    ensures Valid(d) && d.keys == [] && |d.entries| == 0
  {
    OrderedDict([], map[])
  }

  /**
   * Assigning `v` to key `k` (`d[k] = v`): the value is replaced if `k` is
   * present, and `k` keeps its position; otherwise `k` is added at the end.
   */
  function Put<K, V>(d: OrderedDict<K, V>, k: K, v: V): (r: OrderedDict<K, V>)
    requires Valid(d) && |d.keys| == |d.entries|
    ensures Valid(r) && |r.keys| == |r.entries|
    ensures r.entries == d.entries[k := v]
    ensures k in d.entries ==> r.keys == d.keys
    ensures k !in d.entries ==> r.keys == d.keys + [k]
  {
    if k in d.entries then OrderedDict(d.keys, d.entries[k := v])
    else
      assert k !in d.keys;
      assert |d.entries[k := v]| == |d.entries| + 1;
      OrderedDict(d.keys + [k], d.entries[k := v])
  }

  /** `OrderedDict(ps)`: the pairs are assigned in order. */
  function FromPairs<K, V>(ps: seq<(K, V)>): (d: OrderedDict<K, V>)
    ensures Valid(d) && |d.keys| == |d.entries|
    decreases |ps|
  {
    if ps == [] then Empty()
    else Put(FromPairs(ps[..|ps| - 1]), ps[|ps| - 1].0, ps[|ps| - 1].1)
  }

  /** The dictionary's keys are exactly the keys of the pairs. */
  lemma {:induction false} FromPairsKeys<K, V>(ps: seq<(K, V)>)
    ensures FromPairs(ps).entries.Keys == KeysOf(ps)
    decreases |ps|
  {
    if ps != [] {
      var init := ps[..|ps| - 1];
      FromPairsKeys(init);
      assert KeysOf(ps) == KeysOf(init) + {ps[|ps| - 1].0} by {
        forall k | k in KeysOf(ps) ensures k in KeysOf(init) + {ps[|ps| - 1].0} {
          var i :| 0 <= i < |ps| && ps[i].0 == k;
          if i < |ps| - 1 { assert init[i] == ps[i]; }
        }
        forall k | k in KeysOf(init) ensures k in KeysOf(ps) {
          var i :| 0 <= i < |init| && init[i].0 == k;
          assert ps[i] == init[i];
        }
      }
    }
  }

  /** The number of keys is the number of distinct keys among the pairs. */
  lemma FromPairsSize<K, V>(ps: seq<(K, V)>)
    ensures |FromPairs(ps).keys| == |KeysOf(ps)|
  {
    FromPairsKeys(ps);
    assert |FromPairs(ps).entries| == |FromPairs(ps).entries.Keys|;
  }

  /** Every stored value was paired with its key in the input. */
  lemma {:induction false} FromPairsEntriesFromInput<K, V>(ps: seq<(K, V)>)
    ensures forall k | k in FromPairs(ps).entries :: (k, FromPairs(ps).entries[k]) in ps
    decreases |ps|
  {
    if ps != [] {
      var init, last := ps[..|ps| - 1], ps[|ps| - 1];
      var d0 := FromPairs(init);
      var d := Put(d0, last.0, last.1);
      assert FromPairs(ps) == d;
      FromPairsEntriesFromInput(init);
      forall k | k in d.entries ensures (k, d.entries[k]) in ps {
        if k == last.0 {
          assert ps[|ps| - 1] == (k, d.entries[k]);
        } else {
          assert k in d0.entries && d.entries[k] == d0.entries[k];
          var i :| 0 <= i < |init| && init[i] == (k, d0.entries[k]);
          assert ps[i] == init[i];
        }
      }
    }
  }

  /** A key that does not occur after position `j` keeps the value paired with it at `j`. */
  lemma {:induction false} FromPairsLastWins<K, V>(ps: seq<(K, V)>, j: nat)
    requires j < |ps|
    requires forall k :: j < k < |ps| ==> ps[k].0 != ps[j].0
    ensures ps[j].0 in FromPairs(ps).entries && FromPairs(ps).entries[ps[j].0] == ps[j].1
    decreases |ps|
  {
    if j < |ps| - 1 {
      var init := ps[..|ps| - 1];
      assert init[j] == ps[j];
      forall k | j < k < |init| ensures init[k].0 != init[j].0 {
        assert init[k] == ps[k];
      }
      FromPairsLastWins(init, j);
    }
  }

  /** Building from a prefix of the pairs lists a prefix of the keys. */
  lemma {:induction false} FromPairsPrefix<K, V>(ps: seq<(K, V)>, j: nat)
    requires j <= |ps|
    ensures FromPairs(ps[..j]).keys <= FromPairs(ps).keys
    decreases |ps|
  {
    if j < |ps| {
      var init := ps[..|ps| - 1];
      assert init[..j] == ps[..j];
      FromPairsPrefix(init, j);
    } else {
      assert ps[..j] == ps;
    }
  }

  /**
   * A key first seen at position `j` is listed at the position given by the
   * number of distinct keys before `j`, whatever follows it.
   */
  lemma FromPairsFirstPosition<K, V>(ps: seq<(K, V)>, j: nat)
    requires j < |ps|
    requires forall k :: 0 <= k < j ==> ps[k].0 != ps[j].0
    ensures |KeysOf(ps[..j])| < |FromPairs(ps).keys|
    ensures FromPairs(ps).keys[|KeysOf(ps[..j])|] == ps[j].0
  {
    var before, upTo := ps[..j], ps[..j + 1];
    assert upTo[..j] == before;
    assert upTo[j] == ps[j];
    FromPairsKeys(before);
    FromPairsSize(before);
    forall i | 0 <= i < |before| ensures before[i].0 != ps[j].0 {
      assert before[i] == ps[i];
    }
    assert ps[j].0 !in KeysOf(before);
    assert FromPairs(upTo).keys == FromPairs(before).keys + [ps[j].0];
    FromPairsPrefix(ps, j + 1);
  }

  /** With no repeated key, the keys are listed in input order and each keeps its own value. */
  lemma FromPairsDistinct<K, V>(ps: seq<(K, V)>)
    requires forall i, j :: 0 <= i < j < |ps| ==> ps[i].0 != ps[j].0
    ensures FromPairsKeysInOrder(ps)
    ensures forall i :: 0 <= i < |ps| ==> ps[i].0 in FromPairs(ps).entries && FromPairs(ps).entries[ps[i].0] == ps[i].1
  {
    FromPairsDistinctKeys(ps);
    forall i | 0 <= i < |ps|
      ensures ps[i].0 in FromPairs(ps).entries && FromPairs(ps).entries[ps[i].0] == ps[i].1
    {
      FromPairsLastWins(ps, i);
    }
  }

  ghost predicate FromPairsKeysInOrder<K, V>(ps: seq<(K, V)>) {
    && |FromPairs(ps).keys| == |ps|
    && forall i :: 0 <= i < |ps| ==> FromPairs(ps).keys[i] == ps[i].0
  }

  lemma {:induction false} FromPairsDistinctKeys<K, V>(ps: seq<(K, V)>)
    requires forall i, j :: 0 <= i < j < |ps| ==> ps[i].0 != ps[j].0
    ensures FromPairsKeysInOrder(ps)
    decreases |ps|
  {
    if ps != [] {
      DistinctKeysInit(ps);
      FromPairsDistinctKeys(ps[..|ps| - 1]);
      FromPairsNewKey(ps);
    }
  }

  /** Dropping the last pair keeps the keys distinct, and the last key is new. */
  lemma DistinctKeysInit<K, V>(ps: seq<(K, V)>)
    requires ps != []
    requires forall i, j :: 0 <= i < j < |ps| ==> ps[i].0 != ps[j].0
    ensures var init := ps[..|ps| - 1];
      && (forall i, j :: 0 <= i < j < |init| ==> init[i].0 != init[j].0)
      && (forall i | 0 <= i < |ps| - 1 :: ps[i].0 != ps[|ps| - 1].0)
  {
    var init := ps[..|ps| - 1];
    forall i, j | 0 <= i < j < |init| ensures init[i].0 != init[j].0 {
      assert init[i] == ps[i] && init[j] == ps[j];
    }
  }

  /** A last pair with a new key, after pairs whose keys are listed in order, is listed last. */
  lemma FromPairsNewKey<K, V>(ps: seq<(K, V)>)
    requires ps != [] && FromPairsKeysInOrder(ps[..|ps| - 1])
    requires forall i | 0 <= i < |ps| - 1 :: ps[i].0 != ps[|ps| - 1].0
    ensures FromPairsKeysInOrder(ps)
  {
    var init, last := ps[..|ps| - 1], ps[|ps| - 1];
    var d0 := FromPairs(init);
    assert FromPairs(ps) == Put(d0, last.0, last.1);
    forall i | 0 <= i < |d0.keys| ensures d0.keys[i] != last.0 {
      assert d0.keys[i] == init[i].0 == ps[i].0;
    }
    assert last.0 !in d0.entries;
    var keys := d0.keys + [last.0];
    assert FromPairs(ps).keys == keys;
    forall i | 0 <= i < |ps| ensures keys[i] == ps[i].0 {
      if i < |init| {
        assert keys[i] == d0.keys[i] == init[i].0;
      }
    }
  }
}
