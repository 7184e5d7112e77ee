/**
 * The data handling of the search page, src/assets/js/search.js: only the
 * segments with a payload are imported back into the index, and the hit
 * lists FlexSearch returns per indexed field are merged into one list of
 * documents, each document once, at the place where it was first seen.
 *
 * FlexSearch itself is not modelled: a segment's payload is of an arbitrary
 * type `P`, and the search result is given as one hit list per field, each
 * hit an id with the stored document of type `D`.
 */
module SearchMerge {
  import opened Wrappers
  import opened Sequences
  import opened SearchIndex

  // ---------------------------------------------------------------------------
  // Importing the segments
  // ---------------------------------------------------------------------------

  /** One call of `index.import(key, payload)`. */
  datatype Import<P> = Import(key: string, payload: P)

  function ImportKey<P>(i: Import<P>): string { i.key }

  /** The imports made for the object's keys, listed in `keyOrder`. */
  function Imports<P>(keyOrder: seq<string>, keys: map<string, Option<P>>): seq<Import<P>>
    requires forall i :: 0 <= i < |keyOrder| ==> keyOrder[i] in keys
  {
    if |keyOrder| == 0 then []
    else
      var init, key := keyOrder[..|keyOrder| - 1], keyOrder[|keyOrder| - 1];
      Imports(init, keys) + (if keys[key].Some? then [Import(key, keys[key].value)] else [])
  }

  /**
   * The loop over `Object.keys(data.keys)`: a key whose payload is not null
   * is imported with that payload; a null one is passed over.
   */
  method ImportSegments<P>(keyOrder: seq<string>, keys: map<string, Option<P>>) returns (imported: seq<Import<P>>)
    requires forall i :: 0 <= i < |keyOrder| ==> keyOrder[i] in keys
    ensures imported == Imports(keyOrder, keys)
  {
    imported := [];
    for i := 0 to |keyOrder|
      invariant imported == Imports(keyOrder[..i], keys)
    {
      assert keyOrder[..i + 1][..i] == keyOrder[..i];
      var key := keyOrder[i];
      if keys[key] != None {
        imported := imported + [Import(key, keys[key].value)];
      }
    }
    assert keyOrder[..|keyOrder|] == keyOrder;
  }

  /** Exactly the listed keys with a payload are imported. */
  lemma {:induction false} ImportsKeys<P>(keyOrder: seq<string>, keys: map<string, Option<P>>)
    requires forall i :: 0 <= i < |keyOrder| ==> keyOrder[i] in keys
    ensures forall k :: k in KeysOf(Imports(keyOrder, keys), ImportKey) <==> k in keyOrder && keys[k].Some?
  {
    if |keyOrder| > 0 {
      var init, key := keyOrder[..|keyOrder| - 1], keyOrder[|keyOrder| - 1];
      ImportsKeys(init, keys);
      assert keyOrder == init + [key];
      var before := Imports(init, keys);
      if keys[key].Some? {
        assert Imports(keyOrder, keys) == before + [Import(key, keys[key].value)];
        KeysOfSnoc(before, Import(key, keys[key].value), ImportKey);
      } else {
        assert Imports(keyOrder, keys) == before;
      }
    }
  }

  /** Every key is imported with its own payload. */
  lemma {:induction false} ImportsPayloads<P>(keyOrder: seq<string>, keys: map<string, Option<P>>)
    requires forall i :: 0 <= i < |keyOrder| ==> keyOrder[i] in keys
    ensures forall i :: 0 <= i < |Imports(keyOrder, keys)| ==>
      Imports(keyOrder, keys)[i].key in keys && keys[Imports(keyOrder, keys)[i].key] == Some(Imports(keyOrder, keys)[i].payload)
  {
    if |keyOrder| > 0 {
      ImportsPayloads(keyOrder[..|keyOrder| - 1], keys);
    }
  }

  /** A key listed once is imported at most once. */
  lemma {:induction false} ImportsDistinct<P>(keyOrder: seq<string>, keys: map<string, Option<P>>)
    requires forall i :: 0 <= i < |keyOrder| ==> keyOrder[i] in keys
    requires Distinct(keyOrder)
    ensures Distinct(KeysOf(Imports(keyOrder, keys), ImportKey))
  {
    if |keyOrder| > 0 {
      var init, key := keyOrder[..|keyOrder| - 1], keyOrder[|keyOrder| - 1];
      assert Distinct(init);
      ImportsDistinct(init, keys);
      if keys[key].Some? {
        ImportsKeys(init, keys);
        assert key !in init;
        KeysOfSnoc(Imports(init, keys), Import(key, keys[key].value), ImportKey);
      }
    }
  }

  /**
   * Exported by the build and imported by the page, a segment key comes
   * back exactly when its last reported payload was not null.
   */
  lemma SegmentsRoundTrip<P>(reported: seq<Segment<P>>)
    ensures forall i :: 0 <= i < |ExportOrder(reported)| ==> ExportOrder(reported)[i] in ExportMap(reported)
    ensures forall k :: k in KeysOf(Imports(ExportOrder(reported), ExportMap(reported)), ImportKey) <==>
      k in ExportMap(reported) && ExportMap(reported)[k].Some?
    ensures Distinct(KeysOf(Imports(ExportOrder(reported), ExportMap(reported)), ImportKey))
  {
    ExportOrderKeys(reported);
    ImportsKeys(ExportOrder(reported), ExportMap(reported));
    ImportsDistinct(ExportOrder(reported), ExportMap(reported));
  }

  // ---------------------------------------------------------------------------
  // Merging the per-field results
  // ---------------------------------------------------------------------------

  /** An enriched search hit: the document's id and its stored fields. */
  datatype Hit<D> = Hit(id: int, doc: D)

  function HitId<D>(h: Hit<D>): int { h.id }

  /** The hits of all fields in scanning order: field by field, hit by hit. */
  function Concat<T>(ss: seq<seq<T>>): (r: seq<T>)
  {
    if |ss| == 0 then [] else Concat(ss[..|ss| - 1]) + ss[|ss| - 1]
  }

  function DocsOf<D>(hits: seq<Hit<D>>): (r: seq<D>)
    ensures |r| == |hits| && forall i :: 0 <= i < |hits| ==> r[i] == hits[i].doc
  {
    seq(|hits|, i requires 0 <= i < |hits| => hits[i].doc)
  }

  /** The hits the merge keeps: the first hit of every id in scanning order. */
  function MergedHits<D>(results: seq<seq<Hit<D>>>): seq<Hit<D>>
  {
    FirstByKey(Concat(results), HitId)
  }

  /** The merged `docs` list. */
  function Merged<D>(results: seq<seq<Hit<D>>>): seq<D>
  {
    DocsOf(MergedHits(results))
  }

  lemma ConcatSnoc<T>(ss: seq<seq<T>>, f: nat)
    requires f < |ss|
    ensures Concat(ss[..f + 1]) == Concat(ss[..f]) + ss[f]
  {
    assert ss[..f + 1][..f] == ss[..f];
  }

  /** Where the hits of field `f` start in the scanning order. */
  function Offset<T>(ss: seq<seq<T>>, f: nat): nat
    requires f <= |ss|
  {
    |Concat(ss[..f])|
  }

  /** Hit `r` of field `f` is at position `Offset(f) + r` of the scanning order. */
  lemma {:induction false} ConcatAt<T>(ss: seq<seq<T>>, f: nat, r: nat)
    requires f < |ss| && r < |ss[f]|
    ensures Offset(ss, f) + r < |Concat(ss)|
    ensures Concat(ss)[Offset(ss, f) + r] == ss[f][r]
  {
    var n := |ss| - 1;
    ConcatSnoc(ss, n);
    assert ss[..n + 1] == ss;
    if f < n {
      var init := ss[..n];
      ConcatAt(init, f, r);
      assert init[..f] == ss[..f];
      assert init[f] == ss[f];
    }
  }

  /** Fields come in order: every hit of an earlier field is scanned before any hit of a later one. */
  lemma {:induction false} OffsetMonotone<T>(ss: seq<seq<T>>, f: nat, r: nat, g: nat)
    requires f < g <= |ss| && r < |ss[f]|
    ensures Offset(ss, f) + r < Offset(ss, g)
  {
    ConcatSnoc(ss, g - 1);
    if f < g - 1 {
      OffsetMonotone(ss, f, r, g - 1);
    }
  }

  lemma ScanStep<D>(results: seq<seq<Hit<D>>>, f: nat, r: nat)
    requires f < |results| && r < |results[f]|
    ensures Concat(results[..f]) + results[f][..r + 1] == (Concat(results[..f]) + results[f][..r]) + [results[f][r]]
  {
    assert results[f][..r + 1] == results[f][..r] + [results[f][r]];
  }

  lemma FirstByKeySnoc<T, K>(s: seq<T>, x: T, key: T -> K)
    ensures FirstByKey(s + [x], key) ==
      if key(x) in KeysOf(s, key) then FirstByKey(s, key) else FirstByKey(s, key) + [x]
  {
    assert (s + [x])[..|s|] == s;
  }

  /** What one hit does to the merge: kept, with its id marked seen, exactly when its id is new. */
  lemma MergeStep<D>(scanned: seq<Hit<D>>, item: Hit<D>, seen: set<int>, hits: seq<Hit<D>>)
    requires forall id :: id in seen <==> id in KeysOf(scanned, HitId)
    requires hits == FirstByKey(scanned, HitId)
    ensures FirstByKey(scanned + [item], HitId) == if item.id in seen then hits else hits + [item]
    ensures forall id :: id in seen + {item.id} <==> id in KeysOf(scanned + [item], HitId)
  {
    FirstByKeySnoc(scanned, item, HitId);
    KeysOfSnoc(scanned, item, HitId);
  }

  lemma DocsOfSnoc<D>(hits: seq<Hit<D>>, item: Hit<D>)
    ensures DocsOf(hits + [item]) == DocsOf(hits) + [item.doc]
  {
  }

  /**
   * The merge loop: fields in order, hits in order; a hit whose id is not
   * yet in `seen` marks it and appends its document to `docs`.
   */
  method MergeResults<D>(results: seq<seq<Hit<D>>>) returns (docs: seq<D>)
    ensures docs == Merged(results)
  {
    var seen: set<int> := {};
    docs := [];
    ghost var hits: seq<Hit<D>> := [];
    for f := 0 to |results|
      invariant hits == FirstByKey(Concat(results[..f]), HitId)
      invariant docs == DocsOf(hits)
      invariant forall id :: id in seen <==> id in KeysOf(Concat(results[..f]), HitId)
    {
      var fieldResults := results[f];
      ghost var scanned := Concat(results[..f]);
      assert scanned + fieldResults[..0] == scanned;
      for r := 0 to |fieldResults|
        invariant hits == FirstByKey(scanned + fieldResults[..r], HitId)
        invariant docs == DocsOf(hits)
        invariant forall id :: id in seen <==> id in KeysOf(scanned + fieldResults[..r], HitId)
      {
        var item := fieldResults[r];
        ScanStep(results, f, r);
        MergeStep(scanned + fieldResults[..r], item, seen, hits);
        if item.id !in seen {
          DocsOfSnoc(hits, item);
          seen := seen + {item.id};
          docs := docs + [item.doc];
          hits := hits + [item];
        }
      }
      ConcatSnoc(results, f);
      assert fieldResults[..|fieldResults|] == fieldResults;
    }
    assert results[..|results|] == results;
  }

  /** No two merged hits share an id. */
  lemma MergeDistinct<D>(results: seq<seq<Hit<D>>>)
    ensures Distinct(KeysOf(MergedHits(results), HitId))
  {
    FirstByKeyDistinct(Concat(results), HitId);
  }

  /** Every hit of every field has its id among the merged hits: no document is lost. */
  lemma MergeComplete<D>(results: seq<seq<Hit<D>>>, f: nat, r: nat)
    requires f < |results| && r < |results[f]|
    ensures results[f][r].id in KeysOf(MergedHits(results), HitId)
  {
    ConcatAt(results, f, r);
    FirstByKeyKeys(Concat(results), HitId);
  }

  /** Hit `r` of field `f` carries an id that no earlier hit carries, in an earlier field or earlier in its own. */
  predicate FirstSeen<D>(results: seq<seq<Hit<D>>>, f: nat, r: nat)
    requires f < |results| && r < |results[f]|
  {
    forall g, t :: 0 <= g < |results| && 0 <= t < |results[g]| && (g < f || (g == f && t < r)) ==>
      results[g][t].id != results[f][r].id
  }

  /** Which field and which hit of it a position of the scanning order is. */
  lemma {:induction false} ConcatPosition<T>(ss: seq<seq<T>>, q: nat) returns (g: nat, t: nat)
    requires q < |Concat(ss)|
    ensures g < |ss| && t < |ss[g]| && Offset(ss, g) + t == q
  {
    var n := |ss| - 1;
    ConcatSnoc(ss, n);
    assert ss[..n + 1] == ss;
    if q < |Concat(ss[..n])| {
      g, t := ConcatPosition(ss[..n], q);
      assert ss[..n][..g] == ss[..g];
    } else {
      g, t := n, q - |Concat(ss[..n])|;
    }
  }

  /** A hit seen first in field-then-hit order holds the first occurrence of its id in the scanning order. */
  lemma FirstSeenAt<D>(results: seq<seq<Hit<D>>>, f: nat, r: nat)
    requires f < |results| && r < |results[f]| && FirstSeen(results, f, r)
    ensures Offset(results, f) + r < |Concat(results)|
    ensures Concat(results)[Offset(results, f) + r] == results[f][r]
    ensures FirstAt(Concat(results), HitId, Offset(results, f) + r)
  {
    var s := Concat(results);
    var p := Offset(results, f) + r;
    ConcatAt(results, f, r);
    forall q | 0 <= q < p ensures s[q].id != s[p].id {
      var g, t := ConcatPosition(results, q);
      ConcatAt(results, g, t);
      if f < g {
        OffsetMonotone(results, f, r, g);
      }
      if g == f {
        assert t < r;
      }
    }
  }

  /** Only first sightings are kept: every merged hit is some field's hit that no earlier hit shares an id with. */
  lemma MergeSound<D>(results: seq<seq<Hit<D>>>, a: nat) returns (f: nat, r: nat)
    requires a < |MergedHits(results)|
    ensures f < |results| && r < |results[f]| && FirstSeen(results, f, r)
    ensures MergedHits(results)[a] == results[f][r]
  {
    var s := Concat(results);
    var p := FirstByKeySound(s, HitId, a);
    f, r := ConcatPosition(results, p);
    ConcatAt(results, f, r);
    forall g, t | 0 <= g < |results| && 0 <= t < |results[g]| && (g < f || (g == f && t < r))
      ensures results[g][t].id != results[f][r].id
    {
      ConcatAt(results, g, t);
      if g < f {
        OffsetMonotone(results, g, t, f);
      }
      assert s[Offset(results, g) + t] == results[g][t];
    }
  }

  /**
   * First seen wins: a hit whose id no earlier hit (earlier field, or earlier
   * in the same field) carries is the one that is kept.
   */
  lemma MergeKeepsFirst<D>(results: seq<seq<Hit<D>>>, f: nat, r: nat)
    requires f < |results| && r < |results[f]| && FirstSeen(results, f, r)
    ensures results[f][r] in MergedHits(results)
  {
    FirstSeenAt(results, f, r);
    FirstAtKept(Concat(results), HitId, Offset(results, f) + r);
  }

  /**
   * The merged hits are in scanning order: a document first hit in an
   * earlier field stays ahead of every document first hit in a later one.
   */
  lemma MergeOrder<D>(results: seq<seq<Hit<D>>>, f: nat, r: nat, g: nat, t: nat)
    requires f < g < |results| && r < |results[f]| && t < |results[g]|
    requires FirstSeen(results, f, r) && FirstSeen(results, g, t)
    ensures exists a, b :: 0 <= a < b < |MergedHits(results)| &&
              MergedHits(results)[a] == results[f][r] && MergedHits(results)[b] == results[g][t]
  {
    FirstSeenAt(results, f, r);
    FirstSeenAt(results, g, t);
    OffsetMonotone(results, f, r, g);
    var s, p, q := Concat(results), Offset(results, f) + r, Offset(results, g) + t;
    FirstAtOrdered(s, HitId, p, q);
    var a, b :| 0 <= a < b < |FirstByKey(s, HitId)| && FirstByKey(s, HitId)[a] == s[p] && FirstByKey(s, HitId)[b] == s[q];
    assert MergedHits(results)[a] == results[f][r] && MergedHits(results)[b] == results[g][t];
  }
}
