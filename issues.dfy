/**
 * Steps 1 to 3 of `buildMetadata` in build/generate-metadata.js: the page
 * descriptors of the accepted file names are grouped into issues by issue
 * id, the pages of every issue are sorted by page number, and the issues are
 * sorted by date and then by id.
 *
 * The `Map` of the source keeps its entries in insertion order; here that
 * order is the sequence `order` kept beside a Dafny `map`.
 */
module Issues {
  import opened Wrappers
  import opened Strings
  import opened Sequences
  import opened Filename

  /** One page entry of an issue, with the paths of its two images. */
  datatype Page = Page(pageNumber: nat, filename: string, thumbnail: string, jpg: string)

  datatype Issue = Issue(
    id: string,
    newspaper: string,
    date: string,
    dateDisplay: string,
    pages: seq<Page>,
    pageCount: nat)  // 0 until step 2 sets it

  function IssueIdOf(d: Descriptor): string { d.issueId }
  function IdOf(issue: Issue): string { issue.id }
  function PageKey(p: Page): int { p.pageNumber }
  function PageCountOf(issue: Issue): nat { issue.pageCount }
  function OneDescriptor(d: Descriptor): nat { 1 }

  function PageOf(d: Descriptor): Page
  {
    Page(d.pageNumber, d.filename,
      "data/THUMBs/" + d.issueId + "/" + d.filename + ".jpg",
      "data/JPEGs/" + d.issueId + "/" + d.filename + ".jpg")
  }

  function PagesOf(ds: seq<Descriptor>): (ps: seq<Page>)
    ensures |ps| == |ds| && forall i :: 0 <= i < |ds| ==> ps[i] == PageOf(ds[i])
  {
    if |ds| == 0 then [] else PagesOf(ds[..|ds| - 1]) + [PageOf(ds[|ds| - 1])]
  }

  // ---------------------------------------------------------------------------
  // Step 1: grouping by issue id
  // ---------------------------------------------------------------------------

  /** The number of names that do not parse. */
  function Rejected(names: seq<string>): nat
  {
    if |names| == 0 then 0
    else Rejected(names[..|names| - 1]) + (if Parse(names[|names| - 1]).None? then 1 else 0)
  }

  /** The descriptors of the names that parse, in the order of the names. */
  function Descriptors(names: seq<string>): (ds: seq<Descriptor>)
    ensures |ds| + Rejected(names) == |names|
    ensures forall i :: 0 <= i < |ds| ==> WellFormed(ds[i])
  {
    if |names| == 0 then []
    else
      var last := names[|names| - 1];
      match Parse(last)
      case None => Descriptors(names[..|names| - 1])
      case Some(d) =>
        ParseWellFormed(last);
        Descriptors(names[..|names| - 1]) + [d]
  }

  lemma DescriptorsStep(names: seq<string>, k: nat)
    requires k < |names|
    ensures Descriptors(names[..k + 1]) ==
      if Parse(names[k]).Some? then Descriptors(names[..k]) + [Parse(names[k]).value] else Descriptors(names[..k])
    ensures Rejected(names[..k + 1]) == Rejected(names[..k]) + if Parse(names[k]).Some? then 0 else 1
  {
    assert names[..k + 1][..k] == names[..k];
  }

  /** The issue ids in the order their first page is met. */
  function IssueOrder(ds: seq<Descriptor>): seq<string>
  {
    KeysOf(FirstByKey(ds, IssueIdOf), IssueIdOf)
  }

  /**
   * An issue as step 1 leaves it: the header fields come from its first
   * page, and its pages are listed in the order they are met.
   */
  function GroupedIssue(ds: seq<Descriptor>, id: string): Issue
    requires id in KeysOf(ds, IssueIdOf)
  {
    var first := ds[FirstIndex(ds, IssueIdOf, id)];
    Issue(id, first.newspaper, first.date, first.dateDisplay, PagesOf(Select(ds, IssueIdOf, id)), 0)
  }

  lemma IssueOrderSnoc(ds: seq<Descriptor>, d: Descriptor)
    ensures IssueOrder(ds + [d]) ==
      if d.issueId in KeysOf(ds, IssueIdOf) then IssueOrder(ds) else IssueOrder(ds) + [d.issueId]
  {
    assert (ds + [d])[..|ds|] == ds;
    KeysOfSnoc(FirstByKey(ds, IssueIdOf), d, IssueIdOf);
  }

  lemma GroupedIssueSnocOther(ds: seq<Descriptor>, d: Descriptor, id: string)
    requires id in KeysOf(ds + [d], IssueIdOf) && id != d.issueId
    ensures id in KeysOf(ds, IssueIdOf) && GroupedIssue(ds + [d], id) == GroupedIssue(ds, id)
  {
    KeysOfSnoc(ds, d, IssueIdOf);
    FirstIndexSnoc(ds, d, IssueIdOf, id);
    SelectSnoc(ds, d, IssueIdOf, id);
    var i := FirstIndex(ds, IssueIdOf, id);
    assert (ds + [d])[i] == ds[i];
  }

  lemma GroupedIssueSnocOld(ds: seq<Descriptor>, d: Descriptor)
    requires d.issueId in KeysOf(ds, IssueIdOf)
    ensures d.issueId in KeysOf(ds + [d], IssueIdOf)
    ensures GroupedIssue(ds + [d], d.issueId) ==
      GroupedIssue(ds, d.issueId).(pages := GroupedIssue(ds, d.issueId).pages + [PageOf(d)])
  {
    var id := d.issueId;
    KeysOfSnoc(ds, d, IssueIdOf);
    FirstIndexSnoc(ds, d, IssueIdOf, id);
    SelectSnoc(ds, d, IssueIdOf, id);
    var sel := Select(ds, IssueIdOf, id);
    assert PagesOf(sel + [d]) == PagesOf(sel) + [PageOf(d)];
    var i := FirstIndex(ds, IssueIdOf, id);
    assert (ds + [d])[i] == ds[i];
  }

  lemma GroupedIssueSnocNew(ds: seq<Descriptor>, d: Descriptor)
    requires d.issueId !in KeysOf(ds, IssueIdOf)
    ensures d.issueId in KeysOf(ds + [d], IssueIdOf)
    ensures GroupedIssue(ds + [d], d.issueId) == Issue(d.issueId, d.newspaper, d.date, d.dateDisplay, [PageOf(d)], 0)
  {
    var id := d.issueId;
    KeysOfSnoc(ds, d, IssueIdOf);
    FirstIndexSnoc(ds, d, IssueIdOf, id);
    SelectSnoc(ds, d, IssueIdOf, id);
    SelectNotIn(ds, IssueIdOf, id);
    assert Select(ds + [d], IssueIdOf, id) == [d];
  }

  /** `order` and `issueMap` hold the grouping of the descriptors `ds`. */
  ghost predicate GroupedBy(ds: seq<Descriptor>, order: seq<string>, issueMap: map<string, Issue>)
  {
    && order == IssueOrder(ds)
    && (forall id :: id in issueMap <==> id in KeysOf(ds, IssueIdOf))
    && (forall id :: id in issueMap ==> issueMap[id] == GroupedIssue(ds, id))
  }

  /** The issue a page is added to: the existing one, or a new one with that page's header. */
  function IssueFor(issueMap: map<string, Issue>, d: Descriptor): Issue
  {
    if d.issueId in issueMap then issueMap[d.issueId]
    else Issue(d.issueId, d.newspaper, d.date, d.dateDisplay, [], 0)
  }

  /** One page added to the grouping: the body of the loop of step 1. */
  function AddPage(issueMap: map<string, Issue>, d: Descriptor): map<string, Issue>
  {
    issueMap[d.issueId := IssueFor(issueMap, d).(pages := IssueFor(issueMap, d).pages + [PageOf(d)])]
  }

  lemma AddPageKeys(ds: seq<Descriptor>, d: Descriptor, issueMap: map<string, Issue>)
    requires forall id :: id in issueMap <==> id in KeysOf(ds, IssueIdOf)
    ensures forall id :: id in AddPage(issueMap, d) <==> id in KeysOf(ds + [d], IssueIdOf)
  {
    KeysOfSnoc(ds, d, IssueIdOf);
  }

  lemma AddPageValues(ds: seq<Descriptor>, d: Descriptor, issueMap: map<string, Issue>)
    requires forall id :: id in issueMap <==> id in KeysOf(ds, IssueIdOf)
    requires forall id :: id in issueMap ==> issueMap[id] == GroupedIssue(ds, id)
    ensures forall id :: id in AddPage(issueMap, d) ==>
      id in KeysOf(ds + [d], IssueIdOf) && AddPage(issueMap, d)[id] == GroupedIssue(ds + [d], id)
  {
    var m := AddPage(issueMap, d);
    forall id | id in m ensures id in KeysOf(ds + [d], IssueIdOf) && m[id] == GroupedIssue(ds + [d], id) {
      KeysOfSnoc(ds, d, IssueIdOf);
      if id != d.issueId {
        assert m[id] == issueMap[id];
        GroupedIssueSnocOther(ds, d, id);
      } else if d.issueId in issueMap {
        GroupedIssueSnocOld(ds, d);
      } else {
        GroupedIssueSnocNew(ds, d);
        assert [] + [PageOf(d)] == [PageOf(d)];
      }
    }
  }

  /** One more page keeps the grouping. */
  lemma GroupedBySnoc(ds: seq<Descriptor>, d: Descriptor, issueMap: map<string, Issue>)
    requires GroupedBy(ds, IssueOrder(ds), issueMap)
    ensures GroupedBy(ds + [d], IssueOrder(ds + [d]), AddPage(issueMap, d))
  {
    AddPageKeys(ds, d, issueMap);
    AddPageValues(ds, d, issueMap);
  }

  /** The map that the loop of step 1 builds from the descriptors `ds`. */
  function GroupMap(ds: seq<Descriptor>): map<string, Issue>
  {
    if |ds| == 0 then map[] else AddPage(GroupMap(ds[..|ds| - 1]), ds[|ds| - 1])
  }

  /**
   * The loop of step 1 builds the grouping: one issue per issue id met, in
   * the order the ids are first met, with the header of its first page and
   * all its pages in the order they are met.
   */
  lemma {:induction false} GroupMapIsGrouping(ds: seq<Descriptor>)
    ensures GroupedBy(ds, IssueOrder(ds), GroupMap(ds))
  {
    if |ds| > 0 {
      var init, last := ds[..|ds| - 1], ds[|ds| - 1];
      assert ds == init + [last];
      GroupMapIsGrouping(init);
      GroupedBySnoc(init, last, GroupMap(init));
    }
  }

  lemma GroupMapSnoc(ds: seq<Descriptor>, d: Descriptor)
    ensures GroupMap(ds + [d]) == AddPage(GroupMap(ds), d)
  {
    assert (ds + [d])[..|ds|] == ds;
  }

  lemma GroupMapKey(ds: seq<Descriptor>, id: string)
    ensures id in GroupMap(ds) <==> id in KeysOf(ds, IssueIdOf)
  {
    GroupMapIsGrouping(ds);
  }

  /** The body of the loop of step 1 for a name that parses. */
  method AddPageTo(issueMap: map<string, Issue>, order: seq<string>, d: Descriptor)
    returns (issueMap': map<string, Issue>, order': seq<string>)
    ensures issueMap' == AddPage(issueMap, d)
    ensures order' == if d.issueId in issueMap then order else order + [d.issueId]
  {
    issueMap', order' := issueMap, order;
    if d.issueId !in issueMap' {
      issueMap' := issueMap'[d.issueId := Issue(d.issueId, d.newspaper, d.date, d.dateDisplay, [], 0)];
      order' := order' + [d.issueId];
    }
    var issue := issueMap'[d.issueId];
    assert issue == IssueFor(issueMap, d);
    issueMap' := issueMap'[d.issueId := issue.(pages := issue.pages + [PageOf(d)])];
    assert issueMap' == AddPage(issueMap, d) by {
      assert issueMap'.Keys == AddPage(issueMap, d).Keys;
    }
  }

  /**
   * The loop of step 1: every name that parses adds a page to the issue of
   * its id, creating the issue from that page's header the first time the
   * id is met; every other name is counted as an error.
   */
  method GroupIssues(names: seq<string>) returns (order: seq<string>, issueMap: map<string, Issue>, errorCount: nat)
    ensures errorCount == Rejected(names)
    ensures GroupedBy(Descriptors(names), order, issueMap)
  {
    ghost var ds: seq<Descriptor> := [];
    order, issueMap, errorCount := [], map[], 0;
    for k := 0 to |names|
      invariant ds == Descriptors(names[..k])
      invariant errorCount == Rejected(names[..k])
      invariant order == IssueOrder(ds)
      invariant issueMap == GroupMap(ds)
    {
      DescriptorsStep(names, k);
      var parsed := Parse(names[k]);
      if parsed.None? {
        errorCount := errorCount + 1;
      } else {
        var d := parsed.value;
        IssueOrderSnoc(ds, d);
        GroupMapKey(ds, d.issueId);
        GroupMapSnoc(ds, d);
        issueMap, order := AddPageTo(issueMap, order, d);
        ds := ds + [d];
      }
    }
    assert names[..|names|] == names;
    GroupMapIsGrouping(ds);
  }

  // ---------------------------------------------------------------------------
  // Step 2: sorting the pages of every issue
  // ---------------------------------------------------------------------------

  /** An issue after step 2: pages sorted by page number, page count set. */
  function Finished(issue: Issue): Issue
  {
    issue.(pages := StableSort(issue.pages, PageKey), pageCount := |issue.pages|)
  }

  /** The loop of step 2, over the issues in map order. */
  method FinishIssues(order: seq<string>, issueMap: map<string, Issue>) returns (finished: map<string, Issue>)
    requires Distinct(order)
    requires forall id :: id in issueMap <==> id in order
    ensures finished.Keys == issueMap.Keys
    ensures forall id :: id in finished ==> finished[id] == Finished(issueMap[id])
  {
    finished := issueMap;
    for k := 0 to |order|
      invariant finished.Keys == issueMap.Keys
      invariant forall id :: id in finished ==>
        finished[id] == if id in order[..k] then Finished(issueMap[id]) else issueMap[id]
    {
      assert order[..k + 1] == order[..k] + [order[k]];
      var issue := finished[order[k]];
      finished := finished[order[k] := issue.(pages := StableSort(issue.pages, PageKey), pageCount := |issue.pages|)];
    }
    assert order[..|order|] == order;
  }

  /**
   * What step 2 promises of an issue: its pages ascend by page number, they
   * are the same pages, pages with equal numbers keep the order in which
   * they were met, and the page count is the number of pages.
   */
  lemma FinishedIssueFacts(issue: Issue)
    ensures SortedByKey(Finished(issue).pages, PageKey)
    ensures multiset(Finished(issue).pages) == multiset(issue.pages)
    ensures forall n :: WithKey(Finished(issue).pages, PageKey, n) == WithKey(issue.pages, PageKey, n)
    ensures Finished(issue).pageCount == |Finished(issue).pages|
  {
    StableSortSorted(issue.pages, PageKey);
    forall n ensures WithKey(Finished(issue).pages, PageKey, n) == WithKey(issue.pages, PageKey, n) {
      StableSortStable(issue.pages, PageKey, n);
    }
    assert |multiset(Finished(issue).pages)| == |multiset(issue.pages)|;
  }

  /** `Array.from(issueMap.values())` once step 2 is done. */
  function FinishedIssues(ds: seq<Descriptor>): (r: seq<Issue>)
    ensures |r| == |IssueOrder(ds)|
    ensures forall i :: 0 <= i < |r| ==>
      r[i].id in KeysOf(ds, IssueIdOf) && r[i] == Finished(GroupedIssue(ds, r[i].id))
  {
    var order := IssueOrder(ds);
    IssueOrderKeys(ds);
    seq(|order|, i requires 0 <= i < |order| => Finished(GroupedIssue(ds, order[i])))
  }

  // ---------------------------------------------------------------------------
  // Step 3: chronological order
  // ---------------------------------------------------------------------------

  /**
   * The comparator of step 3: earlier date first, then the smaller issue id.
   * The id tie-break uses code-point order where the script calls
   * `localeCompare`; the two can order same-date ids differently when a slug
   * has upper case or non-ASCII letters.
   */
  predicate IssueBefore(a: Issue, b: Issue)
  {
    if a.date != b.date then LexLess(a.date, b.date) else LexLess(a.id, b.id)
  }

  predicate Chronological(s: seq<Issue>)
  {
    forall i, j :: 0 <= i < j < |s| ==> IssueBefore(s[i], s[j])
  }

  function InsertIssue(sorted: seq<Issue>, x: Issue): (r: seq<Issue>)
    ensures multiset(r) == multiset(sorted) + multiset{x}
  {
    if |sorted| == 0 || !IssueBefore(x, sorted[|sorted| - 1]) then sorted + [x]
    else
      var init, last := sorted[..|sorted| - 1], sorted[|sorted| - 1];
      assert sorted == init + [last];
      InsertIssue(init, x) + [last]
  }

  /** The sort of step 3, as an insertion sort with the same comparator. */
  function SortIssues(s: seq<Issue>): (r: seq<Issue>)
    ensures multiset(r) == multiset(s)
  {
    if |s| == 0 then []
    else
      assert s == s[..|s| - 1] + [s[|s| - 1]];
      InsertIssue(SortIssues(s[..|s| - 1]), s[|s| - 1])
  }

  lemma IssueBeforeTotal(a: Issue, b: Issue)
    requires a.id != b.id
    ensures IssueBefore(a, b) || IssueBefore(b, a)
  {
    LexLessTotal(a.date, b.date);
    LexLessTotal(a.id, b.id);
  }

  lemma IssueBeforeTransitive(a: Issue, b: Issue, c: Issue)
    requires IssueBefore(a, b) && IssueBefore(b, c)
    ensures IssueBefore(a, c)
  {
    if a.date == b.date && b.date == c.date {
      LexLessTransitive(a.id, b.id, c.id);
    } else if a.date == b.date || b.date == c.date {
    } else {
      LexLessTransitive(a.date, b.date, c.date);
      if a.date == c.date { LexLessAsymmetric(a.date, b.date); }
    }
  }

  lemma IssueBeforeAsymmetric(a: Issue, b: Issue)
    ensures !(IssueBefore(a, b) && IssueBefore(b, a))
  {
    if a.date != b.date && LexLess(a.date, b.date) {
      LexLessAsymmetric(a.date, b.date);
    }
    if a.date == b.date && LexLess(a.id, b.id) {
      LexLessAsymmetric(a.id, b.id);
    }
  }

  lemma {:induction false} InsertIssueChronological(sorted: seq<Issue>, x: Issue)
    requires Chronological(sorted)
    requires forall i :: 0 <= i < |sorted| ==> sorted[i].id != x.id
    ensures Chronological(InsertIssue(sorted, x))
  {
    if |sorted| > 0 {
      var init, last := sorted[..|sorted| - 1], sorted[|sorted| - 1];
      if !IssueBefore(x, last) {
        IssueBeforeTotal(x, last);
        forall i | 0 <= i < |sorted| ensures IssueBefore(sorted[i], x) {
          if i < |sorted| - 1 { IssueBeforeTransitive(sorted[i], last, x); }
        }
      } else {
        InsertIssueChronological(init, x);
        var r := InsertIssue(init, x);
        forall i | 0 <= i < |r| ensures IssueBefore(r[i], last) {
          assert r[i] in multiset(r);
          if r[i] != x {
            assert r[i] in multiset(init);
            var j :| 0 <= j < |init| && init[j] == r[i];
          }
        }
      }
    }
  }

  /** With distinct issue ids, step 3 yields a strictly chronological list. */
  lemma {:induction false} SortIssuesChronological(s: seq<Issue>)
    requires Distinct(KeysOf(s, IdOf))
    ensures Chronological(SortIssues(s))
  {
    if |s| > 0 {
      var init, x := s[..|s| - 1], s[|s| - 1];
      assert Distinct(KeysOf(init, IdOf)) by {
        forall i, j | 0 <= i < j < |init| ensures init[i].id != init[j].id {
          assert KeysOf(s, IdOf)[i] != KeysOf(s, IdOf)[j];
        }
      }
      SortIssuesChronological(init);
      var r := SortIssues(init);
      forall i | 0 <= i < |r| ensures r[i].id != x.id {
        assert r[i] in multiset(init);
        var j :| 0 <= j < |init| && init[j] == r[i];
        assert KeysOf(s, IdOf)[j] != KeysOf(s, IdOf)[|s| - 1];
      }
      InsertIssueChronological(r, x);
    }
  }

  lemma ChronologicalInit(a: seq<Issue>)
    requires Chronological(a) && |a| > 0
    ensures Chronological(a[..|a| - 1])
  {
  }

  lemma ChronologicalLast(a: seq<Issue>, b: seq<Issue>)
    requires Chronological(a) && Chronological(b)
    requires multiset(a) == multiset(b) && |a| > 0 && |b| > 0
    ensures a[|a| - 1] == b[|b| - 1]
  {
    var x, y := a[|a| - 1], b[|b| - 1];
    if x != y {
      assert y in multiset(a);
      var j :| 0 <= j < |a| && a[j] == y;
      assert x in multiset(b);
      var i :| 0 <= i < |b| && b[i] == x;
      IssueBeforeAsymmetric(x, y);
      assert false;
    }
  }

  /**
   * There is only one strictly chronological arrangement of a collection of
   * issues, so any correct sort, the engine's own included, gives the same
   * list as `SortIssues`.
   */
  lemma {:induction false} ChronologicalUnique(a: seq<Issue>, b: seq<Issue>)
    requires Chronological(a) && Chronological(b)
    requires multiset(a) == multiset(b)
    ensures a == b
  {
    assert |b| == |multiset(b)| == |multiset(a)| == |a|;
    if |a| > 0 {
      ChronologicalLast(a, b);
      var x := a[|a| - 1];
      MultisetInit(a);
      MultisetInit(b);
      ChronologicalInit(a);
      ChronologicalInit(b);
      ChronologicalUnique(a[..|a| - 1], b[..|b| - 1]);
      LastSplit(a);
      LastSplit(b);
    }
  }

  lemma IssueOrderKeys(ds: seq<Descriptor>)
    ensures forall i :: 0 <= i < |IssueOrder(ds)| ==> IssueOrder(ds)[i] in KeysOf(ds, IssueIdOf)
  {
    FirstByKeyKeysSound(ds, IssueIdOf);
  }

  /** The issue list of steps 1 to 3. */
  function SortedIssues(ds: seq<Descriptor>): seq<Issue>
  {
    SortIssues(FinishedIssues(ds))
  }

  lemma FinishedIssuesIds(ds: seq<Descriptor>)
    ensures KeysOf(FinishedIssues(ds), IdOf) == IssueOrder(ds)
    ensures Distinct(IssueOrder(ds))
  {
    FirstByKeyDistinct(ds, IssueIdOf);
  }

  /** The sorted issue list is strictly chronological. */
  lemma SortedIssuesChronological(ds: seq<Descriptor>)
    ensures Chronological(SortedIssues(ds))
  {
    FinishedIssuesIds(ds);
    SortIssuesChronological(FinishedIssues(ds));
  }

  /** The sorted issue list has exactly one issue per issue id of the accepted pages. */
  lemma SortedIssuesIds(ds: seq<Descriptor>)
    ensures multiset(KeysOf(SortedIssues(ds), IdOf)) == multiset(IssueOrder(ds))
    ensures Distinct(KeysOf(SortedIssues(ds), IdOf))
    ensures forall i :: 0 <= i < |ds| ==> ds[i].issueId in KeysOf(SortedIssues(ds), IdOf)
  {
    var f, r := FinishedIssues(ds), SortedIssues(ds);
    FinishedIssuesIds(ds);
    MultisetKeys(r, f, IdOf);
    DistinctPermutation(KeysOf(r, IdOf), IssueOrder(ds));
    FirstByKeyKeys(ds, IssueIdOf);
    forall i | 0 <= i < |ds| ensures ds[i].issueId in KeysOf(r, IdOf) {
      assert ds[i].issueId in multiset(IssueOrder(ds));
    }
  }

  /** Each issue of the sorted list is the finished group of its id. */
  lemma SortedIssuesMembers(ds: seq<Descriptor>)
    ensures forall i :: 0 <= i < |SortedIssues(ds)| ==>
      SortedIssues(ds)[i].id in KeysOf(ds, IssueIdOf) &&
      SortedIssues(ds)[i] == Finished(GroupedIssue(ds, SortedIssues(ds)[i].id))
  {
    var f, r := FinishedIssues(ds), SortedIssues(ds);
    forall i | 0 <= i < |r|
      ensures r[i].id in KeysOf(ds, IssueIdOf) && r[i] == Finished(GroupedIssue(ds, r[i].id))
    {
      assert r[i] in multiset(f);
      var j :| 0 <= j < |f| && f[j] == r[i];
    }
  }

  /** The page counts of the issues add up to the number of accepted pages. */
  lemma SortedIssuesTotal(ds: seq<Descriptor>)
    ensures Total(SortedIssues(ds), PageCountOf) == |ds|
  {
    var f := FinishedIssues(ds);
    TotalPermutation(SortedIssues(ds), f, PageCountOf);
    var order := IssueOrder(ds);
    FirstByKeyKeys(ds, IssueIdOf);
    FinishedIssuesIds(ds);
    forall i | 0 <= i < |f|
      ensures PageCountOf(f[i]) == Total(Select(ds, IssueIdOf, order[i]), OneDescriptor)
    {
      TotalOfOnes(Select(ds, IssueIdOf, order[i]), OneDescriptor);
    }
    TotalOverAsTotal(order, ds, IssueIdOf, OneDescriptor, f, PageCountOf);
    forall i | 0 <= i < |ds| ensures IssueIdOf(ds[i]) in order {
      assert IssueIdOf(ds[i]) in KeysOf(FirstByKey(ds, IssueIdOf), IssueIdOf);
    }
    PartitionTotal(order, ds, IssueIdOf, OneDescriptor);
    TotalOfOnes(ds, OneDescriptor);
  }

  /** All pages of one issue share the header the issue was created with. */
  lemma IssueHeaderAgrees(ds: seq<Descriptor>, id: string)
    requires forall i :: 0 <= i < |ds| ==> WellFormed(ds[i])
    requires id in KeysOf(ds, IssueIdOf)
    ensures forall i :: 0 <= i < |ds| && ds[i].issueId == id ==>
      HeaderOfDescriptor(ds[i]) == IssueHeader(GroupedIssue(ds, id).newspaper, GroupedIssue(ds, id).date, GroupedIssue(ds, id).dateDisplay)
  {
    var first := ds[FirstIndex(ds, IssueIdOf, id)];
    forall i | 0 <= i < |ds| && ds[i].issueId == id
      ensures HeaderOfDescriptor(ds[i]) == HeaderOfDescriptor(first)
    {
      SameIssueSameHeader(ds[i], first);
    }
  }

  /** Any selection from a chronological list is chronological. */
  lemma {:induction false} SelectChronological<K>(s: seq<Issue>, key: Issue -> K, k: K)
    requires Chronological(s)
    ensures Chronological(Select(s, key, k))
  {
    if |s| > 0 {
      var init, last := s[..|s| - 1], s[|s| - 1];
      LastSplit(s);
      ChronologicalInit(s);
      SelectChronological(init, key, k);
      SelectSnoc(init, last, key, k);
      var r := Select(init, key, k);
      forall i | 0 <= i < |r| ensures IssueBefore(r[i], last) {
        var m :| 0 <= m < |init| && init[m] == r[i];
        assert s[m] == r[i];
      }
    }
  }

  /** In a chronological list the dates never decrease. */
  lemma DateOrder(sorted: seq<Issue>, i: nat, j: nat)
    requires Chronological(sorted) && i <= j < |sorted|
    ensures LexLe(sorted[i].date, sorted[j].date)
  {
    if i < j {
      assert IssueBefore(sorted[i], sorted[j]);
    }
  }
}
