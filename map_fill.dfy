/**
 * The map a loop of `HashMap::insert` calls leaves behind. The header, query
 * and form-data maps of the decoder are all filled this way, so they share
 * its two properties: a duplicate key keeps the value of its last insertion,
 * and the map never has more keys than there were insertions.
 */
module MapFill {

  /** The keys of a sequence of pairs. */
  function KeysOf<K, V>(pairs: seq<(K, V)>): set<K>
  {
    set i | 0 <= i < |pairs| :: pairs[i].0
  }

  lemma KeysOfSnoc<K, V>(pairs: seq<(K, V)>)
    requires pairs != []
    ensures KeysOf(pairs) == KeysOf(pairs[..|pairs| - 1]) + {pairs[|pairs| - 1].0}
  {
    var init := pairs[..|pairs| - 1];
    forall k | k in KeysOf(pairs)
      ensures k in KeysOf(init) + {pairs[|pairs| - 1].0}
    {
      var i :| 0 <= i < |pairs| && pairs[i].0 == k;
      if i < |init| {
        assert init[i].0 == k;
      }
    }
    forall k | k in KeysOf(init)
      ensures k in KeysOf(pairs)
    {
      var i :| 0 <= i < |init| && init[i].0 == k;
      assert pairs[i].0 == k;
    }
  }

  /** The map after inserting `pairs` in order into an empty map. */
  function Insertions<K, V>(pairs: seq<(K, V)>): (m: map<K, V>)
    ensures m.Keys == KeysOf(pairs)
    ensures |m| <= |pairs|
  {
    if pairs == [] then map[]
    else
      var last := pairs[|pairs| - 1];
      KeysOfSnoc(pairs);
      Insertions(pairs[..|pairs| - 1])[last.0 := last.1]
  }

  /** Inserting one more pair on top of an insertion sequence. */
  lemma InsertionsSnoc<K, V>(pairs: seq<(K, V)>, key: K, value: V)
    ensures Insertions(pairs + [(key, value)]) == Insertions(pairs)[key := value]
  {
    assert (pairs + [(key, value)])[..|pairs|] == pairs;
  }

  /** One more turn of an insertion loop over `pairs`. */
  lemma InsertionsStep<K, V>(pairs: seq<(K, V)>, i: nat)
    requires i < |pairs|
    ensures Insertions(pairs[..i + 1]) == Insertions(pairs[..i])[pairs[i].0 := pairs[i].1]
  {
    assert pairs[..i + 1][..i] == pairs[..i];
  }

  /** The value stored under a key is the one paired with its last occurrence. */
  lemma {:induction false} InsertionsLastWins<K, V>(pairs: seq<(K, V)>, i: nat)
    requires i < |pairs|
    requires forall j :: i < j < |pairs| ==> pairs[j].0 != pairs[i].0
    ensures pairs[i].0 in Insertions(pairs)
    ensures Insertions(pairs)[pairs[i].0] == pairs[i].1
    decreases |pairs|
  {
    var init := pairs[..|pairs| - 1];
    if i < |pairs| - 1 {
      InsertionsLastWins(init, i);
    }
  }

  /** An entry whose key is not inserted again afterwards keeps its value. */
  lemma InsertionsLastWinsAt<K, V>(front: seq<(K, V)>, e: (K, V), back: seq<(K, V)>)
    requires forall k :: 0 <= k < |back| ==> back[k].0 != e.0
    ensures e.0 in Insertions(front + [e] + back)
    ensures Insertions(front + [e] + back)[e.0] == e.1
  {
    var pairs := front + [e] + back;
    var n := |front|;
    assert pairs[n] == e;
    assert forall j :: n < j < |pairs| ==> pairs[j] == back[j - n - 1];
    InsertionsLastWins(pairs, n);
  }

  /** Every entry of the map is one of the inserted pairs. */
  lemma {:induction false} InsertionsFromPairs<K, V>(pairs: seq<(K, V)>, key: K)
    requires key in Insertions(pairs)
    ensures exists i :: 0 <= i < |pairs| && pairs[i] == (key, Insertions(pairs)[key])
    decreases |pairs|
  {
    var init := pairs[..|pairs| - 1];
    var last := pairs[|pairs| - 1];
    if key == last.0 {
      assert pairs[|pairs| - 1] == (key, Insertions(pairs)[key]);
    } else {
      InsertionsFromPairs(init, key);
      var i :| 0 <= i < |init| && init[i] == (key, Insertions(init)[key]);
      assert pairs[i] == (key, Insertions(pairs)[key]);
    }
  }

  /** Every entry of the map is one of the inserted pairs, for all keys at once. */
  lemma InsertionsEntries<K, V>(pairs: seq<(K, V)>)
    ensures forall key :: key in Insertions(pairs) ==> exists i :: 0 <= i < |pairs| && pairs[i] == (key, Insertions(pairs)[key])
  {
    forall key | key in Insertions(pairs)
      ensures exists i :: 0 <= i < |pairs| && pairs[i] == (key, Insertions(pairs)[key])
    {
      InsertionsFromPairs(pairs, key);
    }
  }

  /** `xs.iter().map(f).collect()`: `f` applied to every element, in order. */
  function MapSeq<A, B>(f: A -> B, xs: seq<A>): (ys: seq<B>)
    ensures |ys| == |xs|
    ensures forall i :: 0 <= i < |xs| ==> ys[i] == f(xs[i])
  {
    if xs == [] then []
    else MapSeq(f, xs[..|xs| - 1]) + [f(xs[|xs| - 1])]
  }

  /** Mapping one more element appends its image. */
  lemma MapSeqSnoc<A, B>(f: A -> B, xs: seq<A>, i: nat)
    requires i < |xs|
    ensures MapSeq(f, xs[..i + 1]) == MapSeq(f, xs[..i]) + [f(xs[i])]
  {
    assert xs[..i + 1][..i] == xs[..i];
  }
}
