/**
 * `buildMetadata` of build/generate-metadata.js as a whole, steps 1 to 7 run
 * one after the other on the discovered file names, and the check in `main`
 * that ends the build with exit code 1 when no page was found.
 */
module Metadata {
  import opened Wrappers
  import opened Sequences
  import opened Filename
  import opened Issues
  import opened PageLinks
  import opened Years
  import opened Publications

  /** The metadata object, without its `generated` time stamp. */
  datatype IssuesMetadata = IssuesMetadata(
    version: string,
    totalIssues: nat,
    totalPages: nat,
    dateRange: string,
    publications: seq<Publication>,
    years: map<string, YearBucket>,
    allPages: seq<PageRecord>)

  const Version: string := "1.0"

  /** The sorted issue list is what steps 4 to 6 need: every issue has pages, counted, and an ISO date. */
  lemma SortedIssuesShape(ds: seq<Descriptor>)
    requires forall i :: 0 <= i < |ds| ==> WellFormed(ds[i])
    ensures HasPages(SortedIssues(ds))
    ensures IsoDates(SortedIssues(ds))
    ensures forall i :: 0 <= i < |SortedIssues(ds)| ==> SortedIssues(ds)[i].pageCount == |SortedIssues(ds)[i].pages|
  {
    var sorted := SortedIssues(ds);
    SortedIssuesMembers(ds);
    forall i | 0 <= i < |sorted|
      ensures |sorted[i].pages| > 0 && IsIsoDate(sorted[i].date) && sorted[i].pageCount == |sorted[i].pages|
    {
      var id := sorted[i].id;
      GroupedIssueShape(ds, id);
      WellFormedFacts(ds[FirstIndex(ds, IssueIdOf, id)]);
    }
  }

  lemma GroupedIssueShape(ds: seq<Descriptor>, id: string)
    requires id in KeysOf(ds, IssueIdOf)
    ensures |Finished(GroupedIssue(ds, id)).pages| > 0
    ensures Finished(GroupedIssue(ds, id)).date == ds[FirstIndex(ds, IssueIdOf, id)].date
    ensures Finished(GroupedIssue(ds, id)).pageCount == |Finished(GroupedIssue(ds, id)).pages|
  {
    SelectMember(ds, IssueIdOf, id);
    var pages := GroupedIssue(ds, id).pages;
    assert |StableSort(pages, PageKey)| == |multiset(StableSort(pages, PageKey))| == |multiset(pages)| == |pages|;
  }

  /** The grouped map, finished and read in id order, is the list `FinishedIssues` describes. */
  lemma FinishedValues(ds: seq<Descriptor>, order: seq<string>, issueMap: map<string, Issue>, finished: map<string, Issue>)
    requires GroupedBy(ds, order, issueMap)
    requires finished.Keys == issueMap.Keys
    requires forall id :: id in finished ==> finished[id] == Finished(issueMap[id])
    ensures forall i :: 0 <= i < |order| ==> order[i] in finished
    ensures MapValues(finished, order) == FinishedIssues(ds)
  {
    IssueOrderKeys(ds);
    var f := FinishedIssues(ds);
    FinishedIssuesIds(ds);
    forall i | 0 <= i < |order| ensures order[i] in finished && finished[order[i]] == f[i] {
      assert KeysOf(f, IdOf)[i] == order[i];
    }
  }

  /** The map of step 1 has exactly the ids of `order`, each once, as step 2 needs. */
  lemma GroupedKeys(ds: seq<Descriptor>, order: seq<string>, issueMap: map<string, Issue>)
    requires GroupedBy(ds, order, issueMap)
    ensures Distinct(order)
    ensures forall id :: id in issueMap <==> id in order
  {
    FinishedIssuesIds(ds);
    FirstByKeyKeys(ds, IssueIdOf);
    forall id | id in KeysOf(ds, IssueIdOf) ensures id in order {
      var i :| 0 <= i < |ds| && KeysOf(ds, IssueIdOf)[i] == id;
    }
  }

  /** The metadata of the pages of `allPages`: one record per page, total issues and pages counted. */
  lemma PageTotals(ds: seq<Descriptor>)
    requires forall i :: 0 <= i < |ds| ==> WellFormed(ds[i])
    ensures HasPages(SortedIssues(ds))
    ensures |FlattenUpTo(SortedIssues(ds), |SortedIssues(ds)|)| == |ds|
  {
    var sorted := SortedIssues(ds);
    SortedIssuesShape(ds);
    FlattenLength(sorted, |sorted|);
    OffsetTotal(sorted, |sorted|);
    assert sorted[..|sorted|] == sorted;
    SortedIssuesTotal(ds);
  }

  /**
   * `buildMetadata` on the sorted list of discovered file names. Pages are
   * counted from `allPages`, issues from the sorted issue list; the date
   * range runs from the year of the first issue to the year of the last.
   */
  method BuildMetadata(names: seq<string>) returns (metadata: IssuesMetadata, errorCount: nat)
    ensures errorCount == Rejected(names)
    ensures metadata.version == Version
    ensures metadata.totalIssues == |IssueOrder(Descriptors(names))|
    ensures metadata.totalPages == |Descriptors(names)| == |names| - errorCount
    ensures HasPages(SortedIssues(Descriptors(names)))
    ensures metadata.allPages == FlattenUpTo(SortedIssues(Descriptors(names)), |SortedIssues(Descriptors(names))|)
    ensures forall y :: y in metadata.years <==> y in KeysOf(SortedIssues(Descriptors(names)), YearOf)
    ensures forall y :: y in metadata.years ==> metadata.years[y] == Bucket(SortedIssues(Descriptors(names)), y)
    ensures IsoDates(SortedIssues(Descriptors(names)))
    ensures metadata.publications == PublicationList(SortedIssues(Descriptors(names)))
    ensures metadata.dateRange == FirstToLast(SortedIssues(Descriptors(names)))
  {
    ghost var ds := Descriptors(names);
    // 1. group the pages by issue
    var order, issueMap;
    order, issueMap, errorCount := GroupIssues(names);
    // 2. sort the pages of every issue
    GroupedKeys(ds, order, issueMap);
    var finished := FinishIssues(order, issueMap);
    FinishedValues(ds, order, issueMap, finished);
    // 3. sort the issues by date, then id
    var sortedIssues := SortIssues(MapValues(finished, order));
    assert sortedIssues == SortedIssues(ds);
    SortedIssuesShape(ds);
    SortedIssuesChronological(ds);
    // 4. the flat page list
    var allPages := BuildAllPages(sortedIssues);
    PageTotals(ds);
    // 5. the year buckets
    var years, yearKeys := BuildYears(sortedIssues);
    // 6. the publications
    var publications := BuildPublications(sortedIssues);
    // 7. the date range
    DateRangeOfChronological(sortedIssues);
    var dateRange := DateRange(yearKeys);
    assert |sortedIssues| == |IssueOrder(ds)| by {
      assert |sortedIssues| == |multiset(sortedIssues)| == |multiset(FinishedIssues(ds))| == |FinishedIssues(ds)|;
    }
    metadata := IssuesMetadata(Version, |sortedIssues|, |allPages|, dateRange, publications, years, allPages);
  }

  /** How `main` ends: its exit code, and the metadata it writes, if any. */
  datatype Outcome = Outcome(exitCode: int, written: Option<IssuesMetadata>)

  /**
   * `main`: a build that finds no page, because every discovered name was
   * rejected, exits with code 1 and writes nothing; otherwise it writes the
   * metadata and exits normally.
   */
  method RunMetadataBuild(names: seq<string>) returns (outcome: Outcome)
    ensures outcome.exitCode == 0 || outcome.exitCode == 1
    ensures outcome.exitCode == 1 <==> Rejected(names) == |names|
    ensures outcome.written.None? <==> outcome.exitCode == 1
    ensures outcome.written.Some? ==> outcome.written.value.totalPages > 0
  {
    var metadata, _ := BuildMetadata(names);
    if metadata.totalPages == 0 {
      return Outcome(1, None);
    }
    return Outcome(0, Some(metadata));
  }

  /**
   * The totals agree: the year buckets' page totals add up to `totalPages`,
   * and the publications' issue counts add up to `totalIssues`.
   */
  lemma MetadataTotals(names: seq<string>)
    ensures
      var ds := Descriptors(names);
      var sorted := SortedIssues(ds);
      TotalOver(YearKeys(sorted), sorted, YearOf, PageCountOf) == |ds|
      && IsoDates(sorted) && Total(PublicationList(sorted), CountOf) == |IssueOrder(ds)|
  {
    var ds := Descriptors(names);
    var sorted := SortedIssues(ds);
    YearTotals(sorted);
    SortedIssuesTotal(ds);
    SortedIssuesShape(ds);
    PublicationCounts(sorted);
    assert |sorted| == |multiset(sorted)| == |multiset(FinishedIssues(ds))|;
  }
}
