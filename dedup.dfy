/**
 * The first-wins deduplicator of the ingestion command
 * (src/chatbot/management/commands/ingest_law_data.py, lines 115-124):
 * one pass over the emitted provisions that keeps a provision when its key
 * `(document, article_number, provision_id)` has not been seen and drops
 * it (with a warning) otherwise.
 */
module Deduplication {
  import opened Provisions

  /** The keys of the provisions of ps. */
  function KeysOf(ps: seq<Provision>): set<Key> {
    set p | p in ps :: KeyOf(p)
  }

  /** No two provisions of ps share a key. */
  predicate KeysDistinct(ps: seq<Provision>) {
    forall a, b :: 0 <= a < b < |ps| ==> KeyOf(ps[a]) != KeyOf(ps[b])
  }

  /** The provisions the pass keeps from ps, in order. */
  function Dedup(ps: seq<Provision>): seq<Provision>
    decreases |ps|
  {
    if ps == [] then []
    else
      var kept := Dedup(ps[..|ps| - 1]);
      var p := ps[|ps| - 1];
      if KeyOf(p) in KeysOf(kept) then kept else kept + [p]
  }

  /** The loop of lines 116-124, with the `seen_keys` set. */
  method Deduplicate(ps: seq<Provision>) returns (unique: seq<Provision>)
    ensures unique == Dedup(ps)
    ensures KeysOf(unique) == KeysOf(ps)
    ensures KeysDistinct(unique)
  {
    var seen: set<Key> := {};
    unique := [];
    for i := 0 to |ps|
      invariant unique == Dedup(ps[..i])
      invariant seen == KeysOf(unique)
    {
      var p := ps[i];
      assert ps[..i + 1][..i] == ps[..i];
      var key := KeyOf(p);
      if key in seen {
        // the source writes a duplicate warning here
        continue;
      }
      seen := seen + {key};
      KeysOfSnoc(unique, p);
      unique := unique + [p];
    }
    assert ps[..|ps|] == ps;
    DedupKeys(ps);
    DedupKeysDistinct(ps);
  }

  lemma KeysOfSnoc(ps: seq<Provision>, p: Provision)
    ensures KeysOf(ps + [p]) == KeysOf(ps) + {KeyOf(p)}
  {
    assert forall q :: q in ps + [p] <==> q in ps || q == p;
  }

  /** Every key of the input survives, and no other key appears. */
  lemma {:induction false} DedupKeys(ps: seq<Provision>)
    ensures KeysOf(Dedup(ps)) == KeysOf(ps)
    decreases |ps|
  {
    if ps != [] {
      var init, p := ps[..|ps| - 1], ps[|ps| - 1];
      DedupKeys(init);
      assert ps == init + [p];
      KeysOfSnoc(init, p);
      KeysOfSnoc(Dedup(init), p);
    }
  }

  /** The kept provisions have pairwise distinct keys. */
  lemma {:induction false} DedupKeysDistinct(ps: seq<Provision>)
    ensures KeysDistinct(Dedup(ps))
    decreases |ps|
  {
    if ps != [] {
      var init, p := ps[..|ps| - 1], ps[|ps| - 1];
      DedupKeysDistinct(init);
      var kept := Dedup(init);
      if KeyOf(p) !in KeysOf(kept) {
        var d := kept + [p];
        assert Dedup(ps) == d;
        forall a, b | 0 <= a < b < |d| ensures KeyOf(d[a]) != KeyOf(d[b]) {
          assert d[a] == kept[a];
          if b == |kept| {
            assert kept[a] in kept;
            assert KeyOf(kept[a]) in KeysOf(kept);
          } else {
            assert d[b] == kept[b];
          }
        }
      }
    }
  }

  /** Index i holds the first provision of ps with its key. */
  predicate IsFirstOfKey(ps: seq<Provision>, i: nat)
    requires i < |ps|
  {
    forall j :: 0 <= j < i ==> KeyOf(ps[j]) != KeyOf(ps[i])
  }

  /** The indices of ps that hold the first provision of their key, in
      increasing order: an independent description of what should survive. */
  function FirstIndices(ps: seq<Provision>): seq<nat>
    decreases |ps|
  {
    if ps == [] then []
    else FirstIndices(ps[..|ps| - 1]) + (if IsFirstOfKey(ps, |ps| - 1) then [|ps| - 1] else [])
  }

  /** The output is the order-preserving subsequence of first occurrences:
      the k-th kept provision is ps[FirstIndices(ps)[k]], those indices
      increase, each holds the first provision of its key, and every first
      occurrence is kept. */
  lemma DedupKeepsFirstOccurrences(ps: seq<Provision>)
    ensures var d, idx := Dedup(ps), FirstIndices(ps);
            |d| == |idx|
            && (forall k :: 0 <= k < |idx| ==> idx[k] < |ps| && d[k] == ps[idx[k]] && IsFirstOfKey(ps, idx[k]))
            && (forall a, b :: 0 <= a < b < |idx| ==> idx[a] < idx[b])
            && (forall i :: 0 <= i < |ps| && IsFirstOfKey(ps, i) ==> i in idx)
  {
    DedupPicksFirstIndices(ps);
    FirstIndicesIncrease(ps);
    FirstIndicesComplete(ps);
  }

  /** Whether index i < n holds the first provision of its key does not
      depend on what comes after index n - 1. */
  lemma FirstOfKeyInPrefix(ps: seq<Provision>, n: nat, i: nat)
    requires i < n <= |ps|
    ensures IsFirstOfKey(ps[..n], i) <==> IsFirstOfKey(ps, i)
  {
    assert forall j :: 0 <= j <= i ==> ps[..n][j] == ps[j];
  }

  /** The indices of first occurrences, one for each kept provision. */
  lemma {:induction false} DedupPicksFirstIndices(ps: seq<Provision>)
    ensures var d, idx := Dedup(ps), FirstIndices(ps);
            |d| == |idx|
            && forall k :: 0 <= k < |idx| ==> idx[k] < |ps| && d[k] == ps[idx[k]] && IsFirstOfKey(ps, idx[k])
    decreases |ps|
  {
    if ps != [] {
      var n := |ps| - 1;
      var init := ps[..n];
      DedupPicksFirstIndices(init);
      LastIsFirstOfKey(ps);
      var d0, idx0 := Dedup(init), FirstIndices(init);
      var d, idx := Dedup(ps), FirstIndices(ps);
      assert idx0 + [] == idx0;
      forall k | 0 <= k < |idx|
        ensures idx[k] < |ps| && d[k] == ps[idx[k]] && IsFirstOfKey(ps, idx[k])
      {
        if k < |idx0| {
          assert idx[k] == idx0[k] && d[k] == d0[k];
          FirstOfKeyInPrefix(ps, n, idx0[k]);
        }
      }
    }
  }

  /** The indices of first occurrences are in bounds and increasing. */
  lemma {:induction false} FirstIndicesIncrease(ps: seq<Provision>)
    ensures forall k :: 0 <= k < |FirstIndices(ps)| ==> FirstIndices(ps)[k] < |ps|
    ensures forall a, b :: 0 <= a < b < |FirstIndices(ps)| ==> FirstIndices(ps)[a] < FirstIndices(ps)[b]
    decreases |ps|
  {
    if ps != [] {
      var n := |ps| - 1;
      FirstIndicesIncrease(ps[..n]);
      var idx0 := FirstIndices(ps[..n]);
      var idx := FirstIndices(ps);
      assert idx == idx0 || idx == idx0 + [n] by {
        assert idx0 + [] == idx0;
      }
      assert forall k :: 0 <= k < |idx0| ==> idx[k] == idx0[k] && idx0[k] < n;
      forall a, b | 0 <= a < b < |idx| ensures idx[a] < idx[b] {
        if b == |idx0| {
          assert idx[b] == n;
        }
      }
    }
  }

  /** Every first occurrence has its index listed. */
  lemma {:induction false} FirstIndicesComplete(ps: seq<Provision>)
    ensures forall i :: 0 <= i < |ps| && IsFirstOfKey(ps, i) ==> i in FirstIndices(ps)
    decreases |ps|
  {
    if ps != [] {
      var n := |ps| - 1;
      var init := ps[..n];
      FirstIndicesComplete(init);
      forall i | 0 <= i < n && IsFirstOfKey(ps, i) ensures i in FirstIndices(ps) {
        FirstOfKeyInPrefix(ps, n, i);
      }
    }
  }

  /** The last provision of ps is the first of its key exactly when its key
      is not among those kept from the provisions before it. */
  lemma LastIsFirstOfKey(ps: seq<Provision>)
    requires ps != []
    ensures var n := |ps| - 1;
            KeyOf(ps[n]) in KeysOf(Dedup(ps[..n])) <==> !IsFirstOfKey(ps, n)
  {
    var n := |ps| - 1;
    var init, p := ps[..n], ps[n];
    DedupKeys(init);
    if KeyOf(p) in KeysOf(init) {
      var q :| q in init && KeyOf(q) == KeyOf(p);
      var j :| 0 <= j < n && init[j] == q;
      assert KeyOf(ps[j]) == KeyOf(ps[n]);
    }
    if !IsFirstOfKey(ps, n) {
      var j :| 0 <= j < n && KeyOf(ps[j]) == KeyOf(ps[n]);
      assert init[j] in init;
    }
  }

  /** The uniqueness constraint of src/chatbot/models.py, line 51: at most one provision
      per (document, article, identifier) reaches storage: in particular at
      most one text-without-clause provision and one copy of each clause or
      point per article. */
  lemma AtMostOnePerKey(ps: seq<Provision>, a: nat, b: nat)
    requires a < |Dedup(ps)| && b < |Dedup(ps)|
    requires KeyOf(Dedup(ps)[a]) == KeyOf(Dedup(ps)[b])
    ensures a == b
  {
    DedupKeysDistinct(ps);
  }

  /** The first provision with a given key is the one that survives. */
  lemma FirstWins(ps: seq<Provision>, i: nat)
    requires i < |ps| && IsFirstOfKey(ps, i)
    ensures ps[i] in Dedup(ps)
  {
    DedupKeepsFirstOccurrences(ps);
    var idx := FirstIndices(ps);
    var k :| 0 <= k < |idx| && idx[k] == i;
    assert Dedup(ps)[k] == ps[i];
  }
}
