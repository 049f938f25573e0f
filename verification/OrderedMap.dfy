/** Insertion-ordered maps with unique keys: what the hash table stands for. */
module OrderedMap {
  import opened Wrappers

  /** The position of key `k`, or the length if there is none. */
  function Index<K(==), V>(es: seq<(K, V)>, k: K): (i: nat)
    ensures i <= |es|
    ensures i < |es| ==> es[i].0 == k
    ensures forall j :: 0 <= j < i ==> es[j].0 != k
  {
    if es == [] then 0 else if es[0].0 == k then 0 else 1 + Index(es[1..], k)
  }

  ghost predicate Unique<K, V>(es: seq<(K, V)>)
  {
    forall i, j :: 0 <= i < |es| && 0 <= j < |es| && es[i].0 == es[j].0 ==> i == j
  }

  function Look<K(==), V>(es: seq<(K, V)>, k: K): Option<V>
  {
    var i := Index(es, k);
    if i < |es| then Some(es[i].1) else None
  }

  /** A known key keeps its place, a new one goes to the end. */
  function Put<K(==), V>(es: seq<(K, V)>, k: K, v: V): seq<(K, V)>
  {
    var i := Index(es, k);
    if i < |es| then es[i := (k, v)] else es + [(k, v)]
  }

  function Cut<K(==), V>(es: seq<(K, V)>, k: K): seq<(K, V)>
  {
    var i := Index(es, k);
    if i < |es| then es[..i] + es[i + 1..] else es
  }

  lemma IndexIs<K, V>(es: seq<(K, V)>, k: K, i: nat)
    requires Unique(es) && i < |es| && es[i].0 == k
    ensures Index(es, k) == i
  {
  }

  lemma NoIndex<K, V>(es: seq<(K, V)>, k: K)
    requires forall i :: 0 <= i < |es| ==> es[i].0 != k
    ensures Index(es, k) == |es|
  {
  }

  lemma PutUnique<K, V>(es: seq<(K, V)>, k: K, v: V)
    requires Unique(es)
    ensures Unique(Put(es, k, v))
  {
  }

  lemma CutUnique<K, V>(es: seq<(K, V)>, k: K)
    requires Unique(es)
    ensures Unique(Cut(es, k))
  {
    hide Index;
    var i := Index(es, k);
    if i < |es| {
      var d := es[..i] + es[i + 1..];
      assert forall j :: 0 <= j < |d| ==> d[j] == es[if j < i then j else j + 1];
    }
  }

  /** `es'` is `es` with `v` under key `k`: an entry with that key keeps its position and every other entry too; without
      one the pair comes last. */
  ghost predicate Updated<K, V>(es: seq<(K, V)>, es': seq<(K, V)>, k: K, v: V)
  {
    && (forall j :: 0 <= j < |es| && es[j].0 == k ==> |es'| == |es| && es'[j] == (k, v))
    && (forall j :: 0 <= j < |es| && es[j].0 != k ==> j < |es'| && es'[j] == es[j])
    && ((forall j :: 0 <= j < |es| ==> es[j].0 != k) ==> es' == es + [(k, v)])
  }

  lemma PutUpdates<K, V>(es: seq<(K, V)>, k: K, v: V)
    requires Unique(es)
    ensures Updated(es, Put(es, k, v), k, v)
  {
    hide Index;
  }

  /** The entries with another key, in their order. */
  ghost function Others<K, V>(es: seq<(K, V)>, k: K): seq<(K, V)>
  {
    if es == [] then [] else (if es[0].0 == k then [] else [es[0]]) + Others(es[1..], k)
  }

  lemma {:induction false} OthersAll<K, V>(es: seq<(K, V)>, k: K)
    requires forall j :: 0 <= j < |es| ==> es[j].0 != k
    ensures Others(es, k) == es
  {
    if es != [] {
      OthersAll(es[1..], k);
    }
  }

  /** Removing a key keeps the others in their order. */
  lemma {:induction false} CutOthers<K, V>(es: seq<(K, V)>, k: K)
    requires Unique(es)
    ensures Cut(es, k) == Others(es, k)
    decreases |es|
  {
    if es != [] {
      var t := es[1..];
      if es[0].0 == k {
        assert forall j :: 0 <= j < |t| ==> t[j] == es[j + 1];
        OthersAll(t, k);
        assert es[..0] + es[1..] == t;
      } else {
        CutOthers(t, k);
        var i := Index(t, k);
        if i < |t| {
          assert es[..i + 1] + es[i + 2..] == [es[0]] + (t[..i] + t[i + 1..]);
        }
      }
    }
  }

  /** Looking up what was put, and everything else as before. */
  lemma LookPut<K, V>(es: seq<(K, V)>, k: K, v: V, k': K)
    requires Unique(es)
    ensures Look(Put(es, k, v), k') == if k' == k then Some(v) else Look(es, k')
  {
    hide Unique;
    PutUnique(es, k, v);
    var d := Put(es, k, v);
    var i, i' := Index(es, k), Index(es, k');
    if k' == k {
      IndexIs(d, k, i);
    } else if i' < |es| {
      IndexIs(d, k', i');
    } else {
      NoIndex(d, k');
    }
  }

  /** A key that was removed is gone, and everything else is as before. */
  lemma LookCut<K, V>(es: seq<(K, V)>, k: K, k': K)
    requires Unique(es)
    ensures Look(Cut(es, k), k') == if k' == k then None else Look(es, k')
  {
    hide Index;
    CutUnique(es, k);
    var d := Cut(es, k);
    var i, i' := Index(es, k), Index(es, k');
    if i < |es| {
      assert forall j :: 0 <= j < |d| ==> d[j] == es[if j < i then j else j + 1];
      if k' == k {
        assert forall j :: 0 <= j < |d| ==> d[j].0 != k;
        NoIndex(d, k');
      } else if i' < |es| {
        var j := if i' < i then i' else i' - 1;
        assert d[j] == es[i'];
        IndexIs(d, k', j);
      } else {
        NoIndex(d, k');
      }
    }
  }
}
