/**
  Python's `dict` from names to integers: its keys in insertion order and
  its values. Assigning to a key that is already present replaces the value
  and keeps the key's position.
*/
module OrderedDict {

  datatype Dict = Dict(keys: seq<string>, values: map<string, int>)

  /** The keys are distinct and are exactly the keys of the value map. */
  ghost predicate Valid(d: Dict) {
    && (forall i, j :: 0 <= i < j < |d.keys| ==> d.keys[i] != d.keys[j])
    && (forall k :: k in d.values <==> k in d.keys)
  }

  const EMPTY: Dict := Dict([], map[])

  /** `d[k] = v`. */
  function Put(d: Dict, k: string, v: int): (r: Dict)
    requires Valid(d)
    ensures Valid(r)
    ensures r.values == d.values[k := v]
    ensures StartsWithKeys(r.keys, d.keys)
  {
    if k in d.values then
      UpdateKeyValid(d, k, v);
      Dict(d.keys, d.values[k := v])
    else
      AppendKeyValid(d, k, v);
      assert (d.keys + [k])[..|d.keys|] == d.keys;
      Dict(d.keys + [k], d.values[k := v])
  }

  /** Assigning a present key leaves the keys as they are. */
  lemma UpdateKeyValid(d: Dict, k: string, v: int)
    requires Valid(d) && k in d.values
    ensures Valid(Dict(d.keys, d.values[k := v]))
  {
    forall k' ensures k' in d.values[k := v] <==> k' in d.keys {
      assert k' in d.values[k := v] <==> k' in d.values;
    }
  }

  /** Assigning a new key appends it to the keys and keeps them distinct. */
  lemma AppendKeyValid(d: Dict, k: string, v: int)
    requires Valid(d) && k !in d.values
    ensures Valid(Dict(d.keys + [k], d.values[k := v]))
  {
    var keys := d.keys + [k];
    assert k !in d.keys;
    forall i, j | 0 <= i < j < |keys| ensures keys[i] != keys[j] {
      assert keys[i] == d.keys[i];
      if j < |d.keys| {
        assert keys[j] == d.keys[j];
      } else {
        assert d.keys[i] in d.keys;
      }
    }
    forall k' ensures k' in d.values[k := v] <==> k' in keys {
      assert k' in keys <==> k' in d.keys || k' == k;
    }
  }

  predicate StartsWithKeys(s: seq<string>, p: seq<string>) {
    |p| <= |s| && s[..|p|] == p
  }

  /** The dict built by assigning each pair in turn, as the loaders' loops do. */
  function FromPairs(pairs: seq<(string, int)>): (d: Dict)
    ensures Valid(d)
  {
    if pairs == [] then EMPTY
    else Put(FromPairs(pairs[..|pairs| - 1]), pairs[|pairs| - 1].0, pairs[|pairs| - 1].1)
  }

  /** One more pair is one more assignment. */
  lemma FromPairsSnoc(pairs: seq<(string, int)>, p: (string, int))
    ensures FromPairs(pairs + [p]) == Put(FromPairs(pairs), p.0, p.1)
  {
    assert (pairs + [p])[..|pairs|] == pairs;
  }

  /** A name is a key exactly when some pair carries it. */
  lemma {:induction false} FromPairsKeys(pairs: seq<(string, int)>, k: string)
    ensures k in FromPairs(pairs).values <==> Carries(pairs, k)
  {
    if pairs != [] {
      var init := pairs[..|pairs| - 1];
      FromPairsKeys(init, k);
      CarriesLast(pairs, k);
    }
  }

  /** Some pair has the name `k`. */
  predicate Carries(pairs: seq<(string, int)>, k: string) {
    exists i :: 0 <= i < |pairs| && pairs[i].0 == k
  }

  lemma CarriesLast(pairs: seq<(string, int)>, k: string)
    requires pairs != []
    ensures Carries(pairs, k) <==> Carries(pairs[..|pairs| - 1], k) || pairs[|pairs| - 1].0 == k
  {
    var init := pairs[..|pairs| - 1];
    if Carries(pairs, k) {
      var i :| 0 <= i < |pairs| && pairs[i].0 == k;
      if i < |init| {
        assert init[i].0 == k;
      }
    }
    if Carries(init, k) {
      var i :| 0 <= i < |init| && init[i].0 == k;
      assert pairs[i].0 == k;
    }
    if pairs[|pairs| - 1].0 == k {
      assert pairs[|pairs| - 1].0 == k;
    }
  }

  /** For a name that occurs more than once, the value of its last pair wins. */
  lemma {:induction false} LastValueWins(pairs: seq<(string, int)>, i: nat)
    requires i < |pairs|
    requires forall j :: i < j < |pairs| ==> pairs[j].0 != pairs[i].0
    ensures pairs[i].0 in FromPairs(pairs).values
    ensures FromPairs(pairs).values[pairs[i].0] == pairs[i].1
  {
    if i < |pairs| - 1 {
      var init := pairs[..|pairs| - 1];
      LastValueWins(init, i);
    }
  }

  /** Keys keep the position of their first assignment: the keys of a prefix come first. */
  lemma {:induction false} FromPairsKeysExtend(pairs: seq<(string, int)>, n: nat)
    requires n <= |pairs|
    ensures StartsWithKeys(FromPairs(pairs).keys, FromPairs(pairs[..n]).keys)
    decreases |pairs|
  {
    if n == |pairs| {
      assert pairs[..n] == pairs;
    } else {
      var init := pairs[..|pairs| - 1];
      assert init[..n] == pairs[..n];
      FromPairsKeysExtend(init, n);
      StartsWithKeysTrans(FromPairs(pairs).keys, FromPairs(init).keys, FromPairs(pairs[..n]).keys);
    }
  }

  lemma StartsWithKeysTrans(a: seq<string>, b: seq<string>, c: seq<string>)
    requires StartsWithKeys(a, b) && StartsWithKeys(b, c)
    ensures StartsWithKeys(a, c)
  {
    assert a[..|c|] == b[..|b|][..|c|];
  }
}
