/**
 * Step 4 of `buildMetadata` in build/generate-metadata.js: the flat list of
 * every page of every issue, in issue order and then page order, each
 * record carrying links to its neighbouring pages within the issue and to
 * the first page of the neighbouring issues.
 */
module PageLinks {
  import opened Wrappers
  import opened Sequences
  import opened Issues

  /** One entry of `allPages`; `None` stands for the `null` of the source. */
  datatype PageRecord = PageRecord(
    filename: string,
    newspaper: string,
    date: string,
    dateDisplay: string,
    pageNumber: nat,
    issueId: string,
    thumbnail: string,
    jpg: string,
    prevPage: Option<string>,
    prevPageNumber: Option<nat>,
    nextPage: Option<string>,
    nextPageNumber: Option<nat>,
    prevIssue: Option<string>,
    prevIssueDateDisplay: Option<string>,
    nextIssue: Option<string>,
    nextIssueDateDisplay: Option<string>)

  /**
   * Every issue has a page: the source reads `pages[0]` of the issues next
   * to each issue, and grouping never creates an issue without a page.
   */
  predicate HasPages(issues: seq<Issue>)
  {
    forall i :: 0 <= i < |issues| ==> |issues[i].pages| > 0
  }

  /** The record of page `j` of issue `i`. */
  function Record(issues: seq<Issue>, i: nat, j: nat): PageRecord
    requires HasPages(issues) && i < |issues| && j < |issues[i].pages|
  {
    var issue := issues[i];
    var pages := issue.pages;
    PageRecord(
      pages[j].filename, issue.newspaper, issue.date, issue.dateDisplay,
      pages[j].pageNumber, issue.id, pages[j].thumbnail, pages[j].jpg,
      if j > 0 then Some(pages[j - 1].filename) else None,
      if j > 0 then Some(pages[j - 1].pageNumber) else None,
      if j < |pages| - 1 then Some(pages[j + 1].filename) else None,
      if j < |pages| - 1 then Some(pages[j + 1].pageNumber) else None,
      if i > 0 then Some(issues[i - 1].pages[0].filename) else None,
      if i > 0 then Some(issues[i - 1].dateDisplay) else None,
      if i < |issues| - 1 then Some(issues[i + 1].pages[0].filename) else None,
      if i < |issues| - 1 then Some(issues[i + 1].dateDisplay) else None)
  }

  /** The records of the pages of issue `i`, in page order. */
  function IssueRecords(issues: seq<Issue>, i: nat): (rs: seq<PageRecord>)
    requires HasPages(issues) && i < |issues|
    ensures |rs| == |issues[i].pages|
  {
    seq(|issues[i].pages|, j requires 0 <= j < |issues[i].pages| => Record(issues, i, j))
  }

  /** The records of the pages of the first `n` issues. */
  function FlattenUpTo(issues: seq<Issue>, n: nat): seq<PageRecord>
    requires HasPages(issues) && n <= |issues|
  {
    if n == 0 then [] else FlattenUpTo(issues, n - 1) + IssueRecords(issues, n - 1)
  }

  /** The position of the first record of issue `n`: the pages of the issues before it. */
  function Offset(issues: seq<Issue>, n: nat): nat
    requires n <= |issues|
  {
    if n == 0 then 0 else Offset(issues, n - 1) + |issues[n - 1].pages|
  }

  /** The nested loops of step 4. */
  method BuildAllPages(issues: seq<Issue>) returns (allPages: seq<PageRecord>)
    requires HasPages(issues)
    ensures allPages == FlattenUpTo(issues, |issues|)
  {
    allPages := [];
    var i := 0;
    while i < |issues|
      invariant i <= |issues|
      invariant allPages == FlattenUpTo(issues, i)
    {
      var issue := issues[i];
      var prevIssue := if i > 0 then Some(issues[i - 1]) else None;
      var nextIssue := if i < |issues| - 1 then Some(issues[i + 1]) else None;
      var j := 0;
      while j < |issue.pages|
        invariant j <= |issue.pages|
        invariant allPages == FlattenUpTo(issues, i) + IssueRecords(issues, i)[..j]
      {
        var page := issue.pages[j];
        var record := PageRecord(
          page.filename, issue.newspaper, issue.date, issue.dateDisplay,
          page.pageNumber, issue.id, page.thumbnail, page.jpg,
          if j > 0 then Some(issue.pages[j - 1].filename) else None,
          if j > 0 then Some(issue.pages[j - 1].pageNumber) else None,
          if j < |issue.pages| - 1 then Some(issue.pages[j + 1].filename) else None,
          if j < |issue.pages| - 1 then Some(issue.pages[j + 1].pageNumber) else None,
          if prevIssue.Some? then Some(prevIssue.value.pages[0].filename) else None,
          if prevIssue.Some? then Some(prevIssue.value.dateDisplay) else None,
          if nextIssue.Some? then Some(nextIssue.value.pages[0].filename) else None,
          if nextIssue.Some? then Some(nextIssue.value.dateDisplay) else None);
        assert record == Record(issues, i, j);
        TakeSnoc(IssueRecords(issues, i), j);
        allPages := allPages + [record];
        j := j + 1;
      }
      assert IssueRecords(issues, i)[..j] == IssueRecords(issues, i);
      i := i + 1;
    }
  }

  // ---------------------------------------------------------------------------
  // What the flat list promises
  // ---------------------------------------------------------------------------

  lemma {:induction false} FlattenLength(issues: seq<Issue>, n: nat)
    requires HasPages(issues) && n <= |issues|
    ensures |FlattenUpTo(issues, n)| == Offset(issues, n)
  {
    if n > 0 {
      FlattenLength(issues, n - 1);
    }
  }

  /** The records of fewer issues are a prefix of the records of more. */
  lemma {:induction false} FlattenPrefix(issues: seq<Issue>, n: nat, m: nat)
    requires HasPages(issues) && n <= m <= |issues|
    ensures |FlattenUpTo(issues, n)| <= |FlattenUpTo(issues, m)|
    ensures forall k :: 0 <= k < |FlattenUpTo(issues, n)| ==> FlattenUpTo(issues, m)[k] == FlattenUpTo(issues, n)[k]
  {
    if n < m {
      FlattenPrefix(issues, n, m - 1);
    }
  }

  /** Page `j` of issue `i` sits at position `Offset(i) + j` of the flat list. */
  lemma FlattenAt(issues: seq<Issue>, i: nat, j: nat)
    requires HasPages(issues) && i < |issues| && j < |issues[i].pages|
    ensures Offset(issues, i) + j < |FlattenUpTo(issues, |issues|)|
    ensures FlattenUpTo(issues, |issues|)[Offset(issues, i) + j] == Record(issues, i, j)
  {
    FlattenLength(issues, i);
    FlattenPrefix(issues, i + 1, |issues|);
  }

  lemma {:induction false} OffsetMonotone(issues: seq<Issue>, n: nat, m: nat)
    requires n <= m <= |issues|
    ensures Offset(issues, n) <= Offset(issues, m)
  {
    if n < m {
      OffsetMonotone(issues, n, m - 1);
    }
  }

  /** Every position of the flat list belongs to one page of one issue. */
  lemma {:induction false} Locate(issues: seq<Issue>, n: nat, k: nat) returns (i: nat, j: nat)
    requires n <= |issues| && k < Offset(issues, n)
    ensures i < n && j < |issues[i].pages| && k == Offset(issues, i) + j
  {
    if k >= Offset(issues, n - 1) {
      i, j := n - 1, k - Offset(issues, n - 1);
    } else {
      i, j := Locate(issues, n - 1, k);
    }
  }

  /** The number of page records is the sum of the page counts. */
  lemma {:induction false} OffsetTotal(issues: seq<Issue>, n: nat)
    requires n <= |issues|
    requires forall i :: 0 <= i < |issues| ==> issues[i].pageCount == |issues[i].pages|
    ensures Offset(issues, n) == Total(issues[..n], PageCountOf)
  {
    if n > 0 {
      OffsetTotal(issues, n - 1);
      assert issues[..n][..n - 1] == issues[..n - 1];
    }
  }

  /**
   * Record `k` of `all` points back to the record before it, and on to the
   * record after it, exactly when that neighbour belongs to the same issue.
   */
  predicate LinkedToNeighbours(all: seq<PageRecord>, k: nat)
    requires k < |all|
  {
    var samePrev := k > 0 && all[k - 1].issueId == all[k].issueId;
    var sameNext := k + 1 < |all| && all[k + 1].issueId == all[k].issueId;
    && all[k].prevPage == (if samePrev then Some(all[k - 1].filename) else None)
    && all[k].prevPageNumber == (if samePrev then Some(all[k - 1].pageNumber) else None)
    && all[k].nextPage == (if sameNext then Some(all[k + 1].filename) else None)
    && all[k].nextPageNumber == (if sameNext then Some(all[k + 1].pageNumber) else None)
  }

  /**
   * The page links of the flat list: every record is linked to its
   * neighbours within its issue, and the first and last page of an issue
   * have no link outwards.
   */
  lemma PageNeighbours(issues: seq<Issue>)
    requires HasPages(issues)
    requires Distinct(KeysOf(issues, IdOf))
    ensures forall k :: 0 <= k < |FlattenUpTo(issues, |issues|)| ==> LinkedToNeighbours(FlattenUpTo(issues, |issues|), k)
  {
    var all := FlattenUpTo(issues, |issues|);
    FlattenLength(issues, |issues|);
    forall k | 0 <= k < |all| ensures LinkedToNeighbours(all, k) {
      var i, j := Locate(issues, |issues|, k);
      FlattenAt(issues, i, j);
      PreviousRecord(issues, i, j);
      NextRecord(issues, i, j);
    }
  }

  lemma PreviousRecord(issues: seq<Issue>, i: nat, j: nat)
    requires HasPages(issues) && i < |issues| && j < |issues[i].pages|
    requires Distinct(KeysOf(issues, IdOf))
    ensures var all, k := FlattenUpTo(issues, |issues|), Offset(issues, i) + j;
      k < |all| &&
      (k > 0 ==> (all[k - 1].issueId == issues[i].id <==> j > 0)) &&
      (j > 0 ==> all[k - 1] == Record(issues, i, j - 1))
  {
    var k := Offset(issues, i) + j;
    FlattenAt(issues, i, j);
    if j > 0 {
      FlattenAt(issues, i, j - 1);
    } else if i > 0 {
      var last := |issues[i - 1].pages| - 1;
      FlattenAt(issues, i - 1, last);
      assert KeysOf(issues, IdOf)[i - 1] != KeysOf(issues, IdOf)[i];
    }
  }

  lemma NextRecord(issues: seq<Issue>, i: nat, j: nat)
    requires HasPages(issues) && i < |issues| && j < |issues[i].pages|
    requires Distinct(KeysOf(issues, IdOf))
    ensures var all, k := FlattenUpTo(issues, |issues|), Offset(issues, i) + j;
      (k + 1 < |all| && all[k + 1].issueId == issues[i].id <==> j < |issues[i].pages| - 1) &&
      (j < |issues[i].pages| - 1 ==> all[k + 1] == Record(issues, i, j + 1))
  {
    var all, k := FlattenUpTo(issues, |issues|), Offset(issues, i) + j;
    FlattenLength(issues, |issues|);
    if j < |issues[i].pages| - 1 {
      FlattenAt(issues, i, j + 1);
    } else if i < |issues| - 1 {
      FlattenAt(issues, i + 1, 0);
      assert KeysOf(issues, IdOf)[i] != KeysOf(issues, IdOf)[i + 1];
    } else {
      OffsetMonotone(issues, i + 1, |issues|);
    }
  }

  /**
   * The issue links: every page of issue `i` points to the first record of
   * issue `i - 1` and of issue `i + 1`, and the first and last issues have no
   * link outwards.
   */
  lemma IssueNeighbours(issues: seq<Issue>, i: nat, j: nat)
    requires HasPages(issues) && i < |issues| && j < |issues[i].pages|
    ensures var all, k := FlattenUpTo(issues, |issues|), Offset(issues, i) + j;
      && k < |all|
      && all[k].issueId == issues[i].id
      && (i == 0 ==> all[k].prevIssue == None && all[k].prevIssueDateDisplay == None)
      && (i > 0 ==>
            && Offset(issues, i - 1) < |all|
            && all[Offset(issues, i - 1)].issueId == issues[i - 1].id
            && all[k].prevIssue == Some(all[Offset(issues, i - 1)].filename)
            && all[k].prevIssueDateDisplay == Some(all[Offset(issues, i - 1)].dateDisplay))
      && (i == |issues| - 1 ==> all[k].nextIssue == None && all[k].nextIssueDateDisplay == None)
      && (i < |issues| - 1 ==>
            && Offset(issues, i + 1) < |all|
            && all[Offset(issues, i + 1)].issueId == issues[i + 1].id
            && all[k].nextIssue == Some(all[Offset(issues, i + 1)].filename)
            && all[k].nextIssueDateDisplay == Some(all[Offset(issues, i + 1)].dateDisplay))
  {
    FlattenAt(issues, i, j);
    if i > 0 {
      FlattenAt(issues, i - 1, 0);
    }
    if i < |issues| - 1 {
      FlattenAt(issues, i + 1, 0);
    }
  }
}
