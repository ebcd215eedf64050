/** A table keyed by generated ids `1, 2, ...` below a counter, and its rows in id order: the
    fixed order in which the model lets `findAll` return rows. */
module Tables {

  /** The keys of `m` in `[1, bound)`, ascending. */
  function KeysBelow<V>(m: map<int, V>, bound: int): seq<int>
    decreases bound
  {
    if bound <= 1 then [] else KeysBelow(m, bound - 1) + (if bound - 1 in m then [bound - 1] else [])
  }

  ghost predicate StrictlyIncreasing(ks: seq<int>)
  {
    forall i, j :: 0 <= i < j < |ks| ==> ks[i] < ks[j]
  }

  /** The set of keys of `m` in `[1, bound)`. */
  ghost function KeySetBelow<V>(m: map<int, V>, bound: int): set<int>
  {
    set k | k in m && 1 <= k < bound
  }

  /** `KeysBelow` lists exactly the keys in range, each once, in increasing order. */
  lemma {:induction false} KeysBelowSpec<V>(m: map<int, V>, bound: int)
    ensures forall k :: k in KeysBelow(m, bound) <==> k in m && 1 <= k < bound
    ensures StrictlyIncreasing(KeysBelow(m, bound))
    ensures forall i :: 0 <= i < |KeysBelow(m, bound)| ==> KeysBelow(m, bound)[i] < bound
    decreases bound
  {
    if bound > 1 {
      KeysBelowSpec(m, bound - 1);
    }
  }

  /** `KeysBelow` has as many entries as there are keys in range. */
  lemma {:induction false} KeysBelowCount<V>(m: map<int, V>, bound: int)
    ensures |KeysBelow(m, bound)| == |KeySetBelow(m, bound)|
    decreases bound
  {
    if bound <= 1 {
      assert KeySetBelow(m, bound) == {};
    } else {
      KeysBelowCount(m, bound - 1);
      if bound - 1 in m {
        assert KeySetBelow(m, bound) == KeySetBelow(m, bound - 1) + {bound - 1};
      } else {
        assert KeySetBelow(m, bound) == KeySetBelow(m, bound - 1);
      }
    }
  }

  /** When every key lies in `[1, bound)`, `KeysBelow` lists all of them. */
  lemma AllKeysBelow<V>(m: map<int, V>, bound: int)
    requires forall k :: k in m ==> 1 <= k < bound
    ensures |KeysBelow(m, bound)| == |m|
    ensures forall k :: k in KeysBelow(m, bound) <==> k in m
  {
    KeysBelowSpec(m, bound);
    KeysBelowCount(m, bound);
    assert KeySetBelow(m, bound) == m.Keys;
  }

  /** The values stored under the keys `ks`, in that order. */
  function ValuesAt<V>(m: map<int, V>, ks: seq<int>): (r: seq<V>)
    requires forall i :: 0 <= i < |ks| ==> ks[i] in m
    ensures |r| == |ks| && forall i :: 0 <= i < |ks| ==> r[i] == m[ks[i]]
  {
    seq(|ks|, i requires 0 <= i < |ks| => m[ks[i]])
  }

  /** The rows of `m` with ids in `[1, bound)`, in ascending id order. */
  function Ascending<V>(m: map<int, V>, bound: int): seq<V>
  {
    KeysBelowSpec(m, bound);
    ValuesAt(m, KeysBelow(m, bound))
  }

  /** With all ids below `bound`, the ascending listing has one entry per row, and a value is
      listed exactly when some row holds it. */
  lemma AscendingSpec<V>(m: map<int, V>, bound: int)
    requires forall k :: k in m ==> 1 <= k < bound
    ensures |Ascending(m, bound)| == |m|
    ensures forall v :: v in Ascending(m, bound) <==> exists k :: k in m && m[k] == v
  {
    AllKeysBelow(m, bound);
    var ks := KeysBelow(m, bound);
    assert forall k :: k in ks ==> k in m;
    forall v | v in Ascending(m, bound)
      ensures exists k :: k in m && m[k] == v
    {
      var i :| 0 <= i < |ks| && Ascending(m, bound)[i] == v;
      assert ks[i] in ks;
      assert m[ks[i]] == v;
    }
    forall v | exists k :: k in m && m[k] == v
      ensures v in Ascending(m, bound)
    {
      var k :| k in m && m[k] == v;
      var i :| 0 <= i < |ks| && ks[i] == k;
      assert Ascending(m, bound)[i] == v;
    }
  }
}
