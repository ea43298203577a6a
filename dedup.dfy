/**
  First-occurrence de-duplication by key, the pattern both commit collectors
  of src/code_recap/generate_blog_post.py follow: walk the candidates in
  order, skip one whose key is already in a `seen` set, otherwise add the key
  and keep the candidate.
*/
module KeyedDedup {

  /** The keys of all elements. */
  function Keys<T, K(==)>(xs: seq<T>, key: T -> K): set<K>
  {
    set i | 0 <= i < |xs| :: key(xs[i])
  }

  /** The candidates kept by the `seen`-set walk. */
  function Dedup<T, K(==)>(xs: seq<T>, key: T -> K): seq<T>
  {
    if |xs| == 0 then []
    else
      var init := xs[..|xs| - 1];
      var last := xs[|xs| - 1];
      if key(last) in Keys(init, key) then Dedup(init, key) else Dedup(init, key) + [last]
  }

  /** The positions in `xs` of the kept candidates. */
  function Kept<T, K(==)>(xs: seq<T>, key: T -> K): seq<nat>
  {
    if |xs| == 0 then []
    else
      var init := xs[..|xs| - 1];
      if key(xs[|xs| - 1]) in Keys(init, key) then Kept(init, key) else Kept(init, key) + [|xs| - 1]
  }

  /** Position `j` holds the first element of `xs` with its key. */
  predicate FirstOfKey<T, K(==)>(xs: seq<T>, key: T -> K, j: nat)
  {
    j < |xs| && forall i :: 0 <= i < j ==> key(xs[i]) != key(xs[j])
  }

  /** One more candidate: kept exactly when its key was not seen, and the seen keys grow by its key. */
  lemma DedupSnoc<T, K>(xs: seq<T>, x: T, key: T -> K)
    ensures Dedup(xs + [x], key) == if key(x) in Keys(xs, key) then Dedup(xs, key) else Dedup(xs, key) + [x]
    ensures Keys(xs + [x], key) == Keys(xs, key) + {key(x)}
  {
    assert (xs + [x])[..|xs|] == xs;
    var ks := Keys(xs + [x], key);
    forall k | k in ks
      ensures k in Keys(xs, key) + {key(x)}
    {
      var i :| 0 <= i < |xs| + 1 && key((xs + [x])[i]) == k;
      if i < |xs| {
        assert (xs + [x])[i] == xs[i];
      }
    }
    forall k | k in Keys(xs, key) + {key(x)}
      ensures k in ks
    {
      if k == key(x) {
        assert key((xs + [x])[|xs|]) == k;
      } else {
        var i :| 0 <= i < |xs| && key(xs[i]) == k;
        assert key((xs + [x])[i]) == k;
      }
    }
  }

  /**
    The kept candidates are the candidates at the kept positions; those
    positions increase, each holds the first candidate with its key, and every
    first candidate of a key is among them.
  */
  lemma DedupIsFirstOccurrences<T, K>(xs: seq<T>, key: T -> K)
    ensures var d := Dedup(xs, key); var ps := Kept(xs, key);
            |ps| == |d|
            && (forall i :: 0 <= i < |ps| ==> ps[i] < |xs| && d[i] == xs[ps[i]] && FirstOfKey(xs, key, ps[i]))
            && (forall i, j :: 0 <= i < j < |ps| ==> ps[i] < ps[j])
            && (forall j :: FirstOfKey(xs, key, j) ==> j in ps)
  {
    KeptPositions(xs, key);
    KeptComplete(xs, key);
  }

  /** The kept positions increase, and each holds its kept candidate, the first with its key. */
  lemma {:induction false} KeptPositions<T, K>(xs: seq<T>, key: T -> K)
    ensures var d := Dedup(xs, key); var ps := Kept(xs, key);
            |ps| == |d|
            && (forall i :: 0 <= i < |ps| ==> ps[i] < |xs| && d[i] == xs[ps[i]] && FirstOfKey(xs, key, ps[i]))
            && (forall i, j :: 0 <= i < j < |ps| ==> ps[i] < ps[j])
    decreases |xs|
  {
    if |xs| > 0 {
      var n := |xs| - 1;
      var init := xs[..n];
      KeptPositions(init, key);
      forall i | 0 <= i < |Kept(init, key)|
        ensures FirstOfKey(xs, key, Kept(init, key)[i])
      {
        var j := Kept(init, key)[i];
        assert FirstOfKey(init, key, j);
        forall i' | 0 <= i' < j ensures key(xs[i']) != key(xs[j]) {
          assert xs[i'] == init[i'] && xs[j] == init[j];
        }
      }
      if key(xs[n]) !in Keys(init, key) {
        forall i' | 0 <= i' < n ensures key(xs[i']) != key(xs[n]) {
          assert xs[i'] == init[i'];
          assert key(init[i']) in Keys(init, key);
        }
      }
    }
  }

  /** Every first candidate of a key is kept. */
  lemma {:induction false} KeptComplete<T, K>(xs: seq<T>, key: T -> K)
    ensures forall j :: FirstOfKey(xs, key, j) ==> j in Kept(xs, key)
    decreases |xs|
  {
    if |xs| > 0 {
      var n := |xs| - 1;
      var init := xs[..n];
      KeptComplete(init, key);
      forall j: nat | FirstOfKey(xs, key, j)
        ensures j in Kept(xs, key)
      {
        if j < n {
          forall i' | 0 <= i' < j ensures key(init[i']) != key(init[j]) {
            assert xs[i'] == init[i'] && xs[j] == init[j];
          }
          assert FirstOfKey(init, key, j);
        } else {
          assert key(xs[n]) !in Keys(init, key) by {
            forall i' | 0 <= i' < n ensures key(init[i']) != key(xs[n]) {
              assert init[i'] == xs[i'];
            }
          }
        }
      }
    }
  }

  /** No two kept candidates share a key, and every key is kept. */
  lemma {:induction false} DedupDistinct<T, K>(xs: seq<T>, key: T -> K)
    ensures var d := Dedup(xs, key);
            (forall i, j :: 0 <= i < j < |d| ==> key(d[i]) != key(d[j]))
            && Keys(d, key) == Keys(xs, key)
    decreases |xs|
  {
    if |xs| > 0 {
      var n := |xs| - 1;
      var init := xs[..n];
      DedupDistinct(init, key);
      DedupSnoc(init, xs[n], key);
      assert init + [xs[n]] == xs;
      var d0 := Dedup(init, key);
      if key(xs[n]) !in Keys(init, key) {
        DedupSnoc(d0, xs[n], key);
        var d := d0 + [xs[n]];
        forall i, j | 0 <= i < j < |d|
          ensures key(d[i]) != key(d[j])
        {
          if j == |d0| {
            assert d[i] == d0[i];
            assert key(d0[i]) in Keys(d0, key);
          } else {
            assert d[i] == d0[i] && d[j] == d0[j];
          }
        }
      }
    }
  }
}
