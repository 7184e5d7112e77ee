/**
 * The results page of src/assets/js/search.js: the status line, and the grid
 * that `renderBatch` fills 24 cards at a time while an IntersectionObserver
 * watches a sentinel element placed after the last card.
 *
 * The grid is modelled as its sequence of children, each a card for one
 * document or the sentinel; card markup, escaping and thumbnails are not
 * modelled. The observer is the flag `observing`; the browser calls back
 * only while it observes.
 */
module ResultsView {
  import opened Wrappers
  import opened Sequences
  import opened SearchMerge

  const BatchSize: nat := 24

  // ---------------------------------------------------------------------------
  // Batch arithmetic
  // ---------------------------------------------------------------------------

  /** `Math.min(offset + BATCH_SIZE, docs.length)`: where a pass starting at `offset` ends. */
  function NextOffset(offset: nat, n: nat): (end: nat)
    ensures end <= n && end <= offset + BatchSize
    ensures end == n || end == offset + BatchSize
    ensures offset <= n ==> offset <= end
    ensures offset < n ==> offset < end
  {
    if offset + BatchSize < n then offset + BatchSize else n
  }

  /** The offset after `k` passes over `n` documents. */
  function OffsetAfter(k: nat, n: nat): nat
  {
    if k * BatchSize < n then k * BatchSize else n
  }

  /** The number of passes that show all `n` documents: `ceil(n / 24)`. */
  function Passes(n: nat): nat
  {
    (n + BatchSize - 1) / BatchSize
  }

  /** The number of documents pass `k` renders. */
  function Batch(k: nat, n: nat): nat
  {
    OffsetAfter(k + 1, n) - OffsetAfter(k, n)
  }

  /** One more pass moves the offset from `OffsetAfter(k)` to `OffsetAfter(k + 1)`. */
  lemma NextOffsetAfter(k: nat, n: nat)
    ensures OffsetAfter(k, n) <= OffsetAfter(k + 1, n) <= n
    ensures NextOffset(OffsetAfter(k, n), n) == OffsetAfter(k + 1, n)
  {
  }

  /** Items remain after `k` passes exactly when fewer than `ceil(n / 24)` passes were made. */
  lemma RemainingPasses(k: nat, n: nat)
    ensures OffsetAfter(k, n) < n <==> k < Passes(n)
  {
    var p := Passes(n);
    assert p * BatchSize < n + BatchSize && n <= p * BatchSize by {
      assert (n + BatchSize - 1) % BatchSize + p * BatchSize == n + BatchSize - 1;
    }
    if k < p {
      assert k * BatchSize <= (p - 1) * BatchSize;
    } else {
      assert k * BatchSize >= p * BatchSize;
    }
  }

  /**
   * The passes partition the documents: every pass but the last renders
   * 24, the last renders the remaining 1 to 24, and none follows it.
   */
  lemma BatchSizes(k: nat, n: nat)
    ensures k + 1 < Passes(n) ==> Batch(k, n) == BatchSize
    ensures k + 1 == Passes(n) ==> Batch(k, n) == n - k * BatchSize && 1 <= Batch(k, n) <= BatchSize
    ensures Passes(n) <= k ==> Batch(k, n) == 0
  {
    RemainingPasses(k, n);
    RemainingPasses(k + 1, n);
  }

  /** The batches of the first `m` passes add up to the offset after them. */
  lemma {:induction false} BatchesTotal(m: nat, n: nat)
    ensures SumBatches(m, n) == OffsetAfter(m, n)
  {
    if m > 0 {
      BatchesTotal(m - 1, n);
      NextOffsetAfter(m - 1, n);
    }
  }

  function SumBatches(m: nat, n: nat): nat
  {
    if m == 0 then 0 else SumBatches(m - 1, n) + Batch(m - 1, n)
  }

  /** Fifty results render in three passes, as 24, 24 and 2. */
  lemma FiftyResults()
    ensures Passes(50) == 3
    ensures Batch(0, 50) == 24 && Batch(1, 50) == 24 && Batch(2, 50) == 2
    ensures SumBatches(Passes(50), 50) == 50
  {
    BatchesTotal(3, 50);
  }

  // ---------------------------------------------------------------------------
  // The grid
  // ---------------------------------------------------------------------------

  /** A child of the results grid. */
  datatype Cell<D> = Card(doc: D) | Sentinel

  /** The documents of the grid's cards, in order. */
  function Cards<D>(grid: seq<Cell<D>>): seq<D>
  {
    if |grid| == 0 then []
    else
      var last := grid[|grid| - 1];
      Cards(grid[..|grid| - 1]) + (if last.Card? then [last.doc] else [])
  }

  function SentinelCount<D>(grid: seq<Cell<D>>): nat
  {
    if |grid| == 0 then 0
    else SentinelCount(grid[..|grid| - 1]) + (if grid[|grid| - 1].Sentinel? then 1 else 0)
  }

  /** The grid without the sentinel. */
  function Detach<D>(grid: seq<Cell<D>>): (r: seq<Cell<D>>)
    ensures Cards(r) == Cards(grid) && SentinelCount(r) == 0
  {
    if |grid| == 0 then []
    else
      var init, last := grid[..|grid| - 1], grid[|grid| - 1];
      var r := Detach(init);
      if last.Card? then
        assert (r + [last])[..|r|] == r;
        r + [last]
      else
        r
  }

  /** The cards of a batch of documents. */
  function CardsOf<D>(docs: seq<D>): (r: seq<Cell<D>>)
    ensures |r| == |docs| && forall i :: 0 <= i < |docs| ==> r[i] == Card(docs[i])
  {
    seq(|docs|, i requires 0 <= i < |docs| => Card(docs[i]))
  }

  lemma {:induction false} CardsAppend<D>(a: seq<Cell<D>>, b: seq<Cell<D>>)
    ensures Cards(a + b) == Cards(a) + Cards(b)
    ensures SentinelCount(a + b) == SentinelCount(a) + SentinelCount(b)
  {
    if |b| > 0 {
      var init, last := b[..|b| - 1], b[|b| - 1];
      CardsAppend(a, init);
      assert (a + b)[..|a + b| - 1] == a + init;
      assert (a + b)[|a + b| - 1] == last;
      var extra: seq<D> := if last.Card? then [last.doc] else [];
      assert Cards(a + b) == Cards(a + init) + extra;
      assert Cards(b) == Cards(init) + extra;
    } else {
      assert a + b == a;
    }
  }

  lemma {:induction false} CardsOfCards<D>(docs: seq<D>)
    ensures Cards(CardsOf(docs)) == docs && SentinelCount(CardsOf(docs)) == 0
  {
    if |docs| > 0 {
      var init := docs[..|docs| - 1];
      CardsOfCards(init);
      assert CardsOf(docs)[..|docs| - 1] == CardsOf(init);
    }
  }

  /** The grid after one pass: the batch's cards, then the sentinel moved to the end if items remain. */
  function Placed<D>(grid: seq<Cell<D>>, remaining: bool): seq<Cell<D>>
  {
    if remaining then Detach(grid) + [Sentinel] else grid
  }

  /**
   * What one pass does to the grid: the cards become those before it plus
   * the batch, the sentinel stays attached at most once, and the last
   * child is the sentinel exactly when documents remain.
   */
  lemma PassShape<D>(grid: seq<Cell<D>>, batch: seq<D>, remaining: bool)
    requires SentinelCount(grid) <= 1
    ensures Cards(Placed(grid + CardsOf(batch), remaining)) == Cards(grid) + batch
    ensures SentinelCount(Placed(grid + CardsOf(batch), remaining)) <= 1
    ensures remaining ==> Placed(grid + CardsOf(batch), remaining)[|Placed(grid + CardsOf(batch), remaining)| - 1].Sentinel?
    ensures !remaining && |batch| > 0 ==> Placed(grid + CardsOf(batch), remaining)[|Placed(grid + CardsOf(batch), remaining)| - 1].Card?
    ensures !remaining && |batch| == 0 ==> Placed(grid + CardsOf(batch), remaining) == grid
  {
    var html := CardsOf(batch);
    CardsAppend(grid, html);
    CardsOfCards(batch);
    if remaining {
      var tail: seq<Cell<D>> := [Sentinel];
      assert tail[..0] == [];
      CardsAppend(Detach(grid + html), tail);
    } else if |batch| == 0 {
      assert html == [];
      assert grid + html == grid;
    }
  }

  /**
   * The state of the results after `passes` passes: the grid's cards are
   * the first `offset` documents in order, the sentinel is attached at most
   * once, the last child is the sentinel exactly while documents remain,
   * and the observer is connected only while documents remain.
   */
  ghost predicate Shown<D>(docs: seq<D>, passes: nat, offset: nat, grid: seq<Cell<D>>, observing: bool)
  {
    && offset == OffsetAfter(passes, |docs|)
    && Cards(grid) == docs[..offset]
    && SentinelCount(grid) <= 1
    && (offset == 0 ==> grid == [])
    && (|grid| > 0 ==> (grid[|grid| - 1].Sentinel? <==> offset < |docs|))
    && (observing ==> offset < |docs|)
  }

  /** One pass keeps the state consistent. */
  lemma PassShown<D>(docs: seq<D>, passes: nat, offset: nat, grid: seq<Cell<D>>, observing: bool)
    requires Shown(docs, passes, offset, grid, observing)
    ensures
      var end := NextOffset(offset, |docs|);
      offset <= end <= |docs| &&
      Shown(docs, passes + 1, end, Placed(grid + CardsOf(docs[offset..end]), end < |docs|), observing && end < |docs|)
  {
    var end := NextOffset(offset, |docs|);
    NextOffsetAfter(passes, |docs|);
    PassShape(grid, docs[offset..end], end < |docs|);
    assert docs[..offset] + docs[offset..end] == docs[..end];
  }

  lemma FirstPass<D>(docs: seq<D>, offset: nat)
    requires offset <= |docs|
    ensures [] + CardsOf(docs[0..offset]) == CardsOf(docs[..offset])
  {
    assert docs[0..offset] == docs[..offset];
  }

  /** The results of one search, shown batch by batch. */
  class ResultsView<D> {
    /** The merged result list; it does not change once shown. */
    const docs: seq<D>
    /** How many documents have been rendered. */
    var offset: nat
    /** The children of the results grid. */
    var grid: seq<Cell<D>>
    /** Whether the observer watches the sentinel. */
    var observing: bool
    /** How many times `renderBatch` has run. */
    ghost var passes: nat

    /** The state `Shown` describes. */
    ghost predicate Valid()
      reads this
    {
      Shown(docs, passes, offset, grid, observing)
    }

    constructor(docs: seq<D>)
      ensures Valid()
      ensures this.docs == docs && offset == 0 && grid == [] && !observing && passes == 0
    {
      this.docs := docs;
      offset := 0;
      grid := [];
      observing := false;
      passes := 0;
    }

    /**
     * `renderBatch`: appends the cards of the documents from `offset` to
     * `min(offset + 24, n)`, advances `offset` to that end, then attaches the
     * sentinel after them if documents remain and disconnects the observer
     * otherwise.
     */
    method RenderBatch()
      requires Valid()
      modifies this
      ensures Valid() && passes == old(passes) + 1
      ensures offset == NextOffset(old(offset), |docs|)
      ensures old(offset) <= offset <= |docs|
      ensures grid == Placed(old(grid) + CardsOf(docs[old(offset)..offset]), offset < |docs|)
      ensures observing == (old(observing) && offset < |docs|)
    {
      var end := NextOffset(offset, |docs|);
      var html: seq<Cell<D>> := [];
      for d := offset to end
        invariant html == CardsOf(docs[offset..d])
      {
        html := html + [Card(docs[d])];
      }
      PassShown(docs, passes, offset, grid, observing);
      grid := grid + html;
      offset := end;
      passes := passes + 1;
      if offset < |docs| {
        grid := Detach(grid) + [Sentinel];
      } else {
        observing := false;
      }
    }

    /** The first pass, then `observer.observe(sentinel)` if documents remain. */
    method Start()
      requires Valid() && passes == 0
      modifies this
      ensures Valid() && passes == 1
      ensures offset == NextOffset(0, |docs|)
      ensures grid == Placed(CardsOf(docs[..offset]), offset < |docs|)
      ensures observing <==> offset < |docs|
    {
      assert offset == 0 && grid == [];
      RenderBatch();
      FirstPass(docs, offset);
      if offset < |docs| {
        observing := true;
      }
    }

    /**
     * The observer's callback: while it observes, an intersecting sentinel
     * renders the next batch; otherwise nothing changes.
     */
    method OnIntersect(isIntersecting: bool)
      requires Valid()
      modifies this
      ensures Valid()
      ensures old(observing) && isIntersecting ==>
        passes == old(passes) + 1 && offset == NextOffset(old(offset), |docs|) &&
        grid == Placed(old(grid) + CardsOf(docs[old(offset)..offset]), offset < |docs|) &&
        observing == (offset < |docs|)
      ensures !(old(observing) && isIntersecting) ==> unchanged(this)
    {
      if observing && isIntersecting {
        RenderBatch();
      }
    }
  }

  /**
   * While the observer is connected, the passes made are fewer than
   * `ceil(n / 24)`; once it is disconnected after a pass, all documents
   * are shown.
   */
  lemma ObservingPasses<D>(view: ResultsView<D>)
    requires view.Valid()
    ensures view.observing ==> view.passes < Passes(|view.docs|)
    ensures view.passes >= Passes(|view.docs|) ==> !view.observing && view.offset == |view.docs| && Cards(view.grid) == view.docs
  {
    RemainingPasses(view.passes, |view.docs|);
    assert view.docs[..|view.docs|] == view.docs;
  }

  // ---------------------------------------------------------------------------
  // The search page
  // ---------------------------------------------------------------------------

  /** The status line. */
  datatype Status = Idle | NoResults(query: string) | Found(count: nat, query: string)

  /** What the status line says for a query and its merged results. */
  function StatusFor<D>(query: string, docs: seq<D>): (s: Status)
    ensures s.NoResults? <==> |docs| == 0
    ensures s.Found? ==> s.count == |docs| > 0
    ensures !s.Idle? && s.query == query
  {
    if |docs| == 0 then NoResults(query) else Found(|docs|, query)
  }

  /**
   * The page's handler once the index file is loaded: import the non-null
   * segments, search, merge the per-field results, then either report no
   * results or report the count and render the first batch. A missing or
   * empty query does nothing. `search` stands for FlexSearch's search over
   * the imported segments.
   */
  method ShowResults<P, D>(
    query: string,
    keyOrder: seq<string>,
    keys: map<string, Option<P>>,
    search: (seq<Import<P>>, string) -> seq<seq<Hit<D>>>)
    returns (status: Status, view: ResultsView?<D>)
    requires forall i :: 0 <= i < |keyOrder| ==> keyOrder[i] in keys
    ensures |query| == 0 ==> status == Idle && view == null
    ensures |query| > 0 ==>
      var docs := Merged(search(Imports(keyOrder, keys), query));
      status == StatusFor(query, docs) && (view == null <==> |docs| == 0)
    ensures view != null ==>
      fresh(view) && view.Valid() && view.passes == 1
      && view.docs == Merged(search(Imports(keyOrder, keys), query))
      && view.offset == NextOffset(0, |view.docs|)
      && (view.observing <==> view.offset < |view.docs|)
  {
    if |query| == 0 {
      return Idle, null;
    }
    var imported := ImportSegments(keyOrder, keys);
    var results := search(imported, query);
    var docs := MergeResults(results);
    if |docs| == 0 {
      return NoResults(query), null;
    }
    status := Found(|docs|, query);
    view := new ResultsView(docs);
    view.Start();
  }
}
