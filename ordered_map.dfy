/** An insertion-ordered dictionary (Python's `OrderedDict`) held as the
    sequence of its entries in insertion order, with no key twice. */
module OrderedMaps {
  import opened Outcomes

  function Keys<K, V>(m: seq<(K, V)>): (ks: seq<K>)
    ensures |ks| == |m|
    ensures forall i :: 0 <= i < |m| ==> ks[i] == m[i].0
  {
    seq(|m|, i requires 0 <= i < |m| => m[i].0)
  }

  predicate DistinctKeys<K(==), V>(m: seq<(K, V)>)
  {
    forall i, j :: 0 <= i < j < |m| ==> m[i].0 != m[j].0
  }

  /** Where key `k` sits in `m`: the index of its entry, or `|m|` when it
      has none. */
  function Find<K(==), V>(m: seq<(K, V)>, k: K): (j: nat)
    ensures j <= |m|
    ensures j < |m| ==> m[j].0 == k
    ensures forall i :: 0 <= i < j ==> m[i].0 != k
    decreases |m|
  {
    if m == [] then 0
    else if m[0].0 == k then 0
    else
      var j := Find(m[1..], k);
      assert forall i :: 1 <= i <= j ==> m[i] == m[1..][i - 1];
      1 + j
  }

  lemma FindAbsent<K, V>(m: seq<(K, V)>, k: K)
    ensures Find(m, k) == |m| <==> k !in Keys(m)
  {
    if Find(m, k) < |m| {
      assert Keys(m)[Find(m, k)] == k;
    }
  }

  /** `d[k] = v`: a key already present keeps its position and takes the new
      value; a new key goes at the end. */
  function Put<K(==), V>(m: seq<(K, V)>, k: K, v: V): (r: seq<(K, V)>)
    requires DistinctKeys(m)
    ensures DistinctKeys(r)
    ensures k !in Keys(m) ==> r == m + [(k, v)]
    ensures forall j :: 0 <= j < |m| && m[j].0 == k ==> r == m[j := (k, v)]
  {
    var j := Find(m, k);
    FindAbsent(m, k);
    if j < |m| then m[j := (k, v)] else m + [(k, v)]
  }

  /** `d.get(k)` */
  function Get<K(==), V>(m: seq<(K, V)>, k: K): (r: Option<V>)
    ensures r.Some? <==> k in Keys(m)
  {
    var j := Find(m, k);
    FindAbsent(m, k);
    if j < |m| then Some(m[j].1) else None
  }

  /** The first index holding `k`, or `|m|`, is what `Find` returns. */
  lemma FindUnique<K, V>(m: seq<(K, V)>, k: K, j: nat)
    requires j <= |m| && (j < |m| ==> m[j].0 == k)
    requires forall i :: 0 <= i < j ==> m[i].0 != k
    ensures Find(m, k) == j
  {
  }

  /** After `d[k] = v`, `d[k]` is `v` and every other key reads as before. */
  lemma GetPut<K, V>(m: seq<(K, V)>, k: K, v: V, k': K)
    requires DistinctKeys(m)
    ensures Get(Put(m, k, v), k') == if k' == k then Some(v) else Get(m, k')
  {
    var r, j, j' := Put(m, k, v), Find(m, k), Find(m, k');
    FindAbsent(m, k);
    if j < |m| {
      assert r == m[j := (k, v)];
      if k' == k {
        FindUnique(r, k, j);
      } else {
        FindUnique(r, k', j');
      }
    } else {
      assert r == m + [(k, v)];
      if k' == k {
        FindUnique(r, k, |m|);
      } else if j' < |m| {
        FindUnique(r, k', j');
      } else {
        FindUnique(r, k', |r|);
      }
    }
  }

  /** Key order after `d[k] = v`. */
  lemma KeysPut<K, V>(m: seq<(K, V)>, k: K, v: V)
    requires DistinctKeys(m)
    ensures Keys(Put(m, k, v)) == if k in Keys(m) then Keys(m) else Keys(m) + [k]
  {
    FindAbsent(m, k);
  }

  /** The keys of `xs` in order of first occurrence: the key order that a
      dictionary filled by assigning `xs` in turn ends with. */
  function FirstOccurrences<K(==)>(xs: seq<K>): (r: seq<K>)
    ensures forall i :: 0 <= i < |xs| ==> xs[i] in r
    ensures forall i :: 0 <= i < |r| ==> r[i] in xs
  {
    if xs == [] then []
    else
      var r := FirstOccurrences(xs[..|xs| - 1]);
      assert xs == xs[..|xs| - 1] + [xs[|xs| - 1]];
      if xs[|xs| - 1] in r then r else r + [xs[|xs| - 1]]
  }

  /** A sequence with no element twice is its own first occurrences. */
  lemma {:induction false} FirstOccurrencesOfDistinct<K>(xs: seq<K>)
    requires forall i, j :: 0 <= i < j < |xs| ==> xs[i] != xs[j]
    ensures FirstOccurrences(xs) == xs
  {
    if xs != [] {
      var init := xs[..|xs| - 1];
      FirstOccurrencesOfDistinct(init);
      assert xs[|xs| - 1] !in init;
      assert init + [xs[|xs| - 1]] == xs;
    }
  }

  /** One more element: it is added at the end unless it occurred before. */
  lemma FirstOccurrencesSnoc<K>(xs: seq<K>, x: K)
    ensures FirstOccurrences(xs + [x]) ==
              if x in FirstOccurrences(xs) then FirstOccurrences(xs) else FirstOccurrences(xs) + [x]
  {
    assert (xs + [x])[..|xs|] == xs;
  }
}
