/**
 * Step 5 of `buildMetadata` in build/generate-metadata.js, the issues
 * grouped by the year of their date with a page total per year, and the
 * `dateRange` of step 7, the first and last of the sorted year keys.
 */
module Years {
  import opened Strings
  import opened Sequences
  import opened Issues

  /** An issue as listed under its year. */
  datatype IssueSummary = IssueSummary(
    id: string,
    newspaper: string,
    date: string,
    dateDisplay: string,
    pageCount: nat,
    pages: seq<Page>)

  datatype YearBucket = YearBucket(totalPages: nat, issues: seq<IssueSummary>)

  /** `issue.date.slice(0, 4)` */
  function YearOf(issue: Issue): string { Prefix(issue.date, 4) }

  function Summary(issue: Issue): IssueSummary
  {
    IssueSummary(issue.id, issue.newspaper, issue.date, issue.dateDisplay, issue.pageCount, issue.pages)
  }

  function Summaries(s: seq<Issue>): (r: seq<IssueSummary>)
    ensures |r| == |s| && forall i :: 0 <= i < |s| ==> r[i] == Summary(s[i])
  {
    if |s| == 0 then [] else Summaries(s[..|s| - 1]) + [Summary(s[|s| - 1])]
  }

  /** What the bucket of year `y` holds: that year's issues in list order, and their page total. */
  function Bucket(sorted: seq<Issue>, y: string): YearBucket
  {
    var ofYear := Select(sorted, YearOf, y);
    YearBucket(Total(ofYear, PageCountOf), Summaries(ofYear))
  }

  /** The keys of `years`, in the order they are created. */
  function YearKeys(sorted: seq<Issue>): seq<string>
  {
    KeysOf(FirstByKey(sorted, YearOf), YearOf)
  }

  /** One issue added to its year: the body of the loop of step 5. */
  function AddToYear(years: map<string, YearBucket>, issue: Issue): map<string, YearBucket>
  {
    var y := YearOf(issue);
    var bucket := if y in years then years[y] else YearBucket(0, []);
    years[y := YearBucket(bucket.totalPages + issue.pageCount, bucket.issues + [Summary(issue)])]
  }

  /** The object the loop of step 5 builds from the issues `s`. */
  function YearMap(s: seq<Issue>): map<string, YearBucket>
  {
    if |s| == 0 then map[] else AddToYear(YearMap(s[..|s| - 1]), s[|s| - 1])
  }

  lemma YearMapSnoc(s: seq<Issue>, issue: Issue)
    ensures YearMap(s + [issue]) == AddToYear(YearMap(s), issue)
  {
    assert (s + [issue])[..|s|] == s;
  }

  lemma BucketSnoc(s: seq<Issue>, issue: Issue, y: string)
    ensures Bucket(s + [issue], y) ==
      if YearOf(issue) == y
      then YearBucket(Bucket(s, y).totalPages + issue.pageCount, Bucket(s, y).issues + [Summary(issue)])
      else Bucket(s, y)
  {
    SelectSnoc(s, issue, YearOf, y);
    var ofYear := Select(s, YearOf, y);
    if YearOf(issue) == y {
      TotalSnoc(ofYear, issue, PageCountOf);
      assert Summaries(ofYear + [issue]) == Summaries(ofYear) + [Summary(issue)] by {
        assert (ofYear + [issue])[..|ofYear|] == ofYear;
      }
    } else {
      assert Select(s + [issue], YearOf, y) == ofYear;
    }
  }

  /**
   * The loop of step 5 builds one bucket per year that occurs, holding
   * exactly that year's issues in list order and their page total.
   */
  lemma {:induction false} YearMapIsBuckets(s: seq<Issue>)
    ensures forall y :: y in YearMap(s) <==> y in KeysOf(s, YearOf)
    ensures forall y :: y in YearMap(s) ==> YearMap(s)[y] == Bucket(s, y)
  {
    if |s| > 0 {
      var init, last := s[..|s| - 1], s[|s| - 1];
      LastSplit(s);
      YearMapIsBuckets(init);
      YearMapSnoc(init, last);
      KeysOfSnoc(init, last, YearOf);
      var m := YearMap(s);
      forall y | y in m ensures m[y] == Bucket(s, y) {
        BucketSnoc(init, last, y);
        if YearOf(last) == y && y !in KeysOf(init, YearOf) {
          SelectNotIn(init, YearOf, y);
        }
      }
    }
  }

  lemma YearMapKey(s: seq<Issue>, y: string)
    ensures y in YearMap(s) <==> y in KeysOf(s, YearOf)
  {
    YearMapIsBuckets(s);
  }

  /** The body of the loop of step 5: the bucket of the issue's year is created when missing, then extended. */
  method AddToYearIn(years: map<string, YearBucket>, yearKeys: seq<string>, issue: Issue)
    returns (years': map<string, YearBucket>, yearKeys': seq<string>)
    ensures years' == AddToYear(years, issue)
    ensures yearKeys' == if YearOf(issue) in years then yearKeys else yearKeys + [YearOf(issue)]
  {
    years', yearKeys' := years, yearKeys;
    var year := YearOf(issue);
    if year !in years' {
      years' := years'[year := YearBucket(0, [])];
      yearKeys' := yearKeys' + [year];
    }
    var bucket := years'[year];
    years' := years'[year := YearBucket(bucket.totalPages + issue.pageCount, bucket.issues + [Summary(issue)])];
    assert years' == AddToYear(years, issue) by {
      assert years'.Keys == AddToYear(years, issue).Keys;
    }
  }

  /** The loop of step 5. */
  method BuildYears(sorted: seq<Issue>) returns (years: map<string, YearBucket>, yearKeys: seq<string>)
    ensures yearKeys == YearKeys(sorted)
    ensures forall y :: y in years <==> y in KeysOf(sorted, YearOf)
    ensures forall y :: y in years ==> years[y] == Bucket(sorted, y)
  {
    years, yearKeys := map[], [];
    for k := 0 to |sorted|
      invariant years == YearMap(sorted[..k])
      invariant yearKeys == YearKeys(sorted[..k])
    {
      var issue := sorted[k];
      TakeSnoc(sorted, k);
      YearMapSnoc(sorted[..k], issue);
      YearKeysSnoc(sorted[..k], issue);
      YearMapKey(sorted[..k], YearOf(issue));
      years, yearKeys := AddToYearIn(years, yearKeys, issue);
    }
    assert sorted[..|sorted|] == sorted;
    YearMapIsBuckets(sorted);
  }

  lemma YearKeysSnoc(s: seq<Issue>, issue: Issue)
    ensures YearKeys(s + [issue]) ==
      if YearOf(issue) in KeysOf(s, YearOf) then YearKeys(s) else YearKeys(s) + [YearOf(issue)]
  {
    assert (s + [issue])[..|s|] == s;
    KeysOfSnoc(FirstByKey(s, YearOf), issue, YearOf);
  }

  // ---------------------------------------------------------------------------
  // What the year buckets promise
  // ---------------------------------------------------------------------------

  /** Each year is listed once, and every issue's year is listed. */
  lemma YearKeysComplete(sorted: seq<Issue>)
    ensures Distinct(YearKeys(sorted))
    ensures forall i :: 0 <= i < |sorted| ==> YearOf(sorted[i]) in YearKeys(sorted)
    ensures forall i :: 0 <= i < |YearKeys(sorted)| ==> YearKeys(sorted)[i] in KeysOf(sorted, YearOf)
  {
    FirstByKeyDistinct(sorted, YearOf);
    FirstByKeyKeys(sorted, YearOf);
  }

  /** The page totals of the years add up to the page total of all issues. */
  lemma YearTotals(sorted: seq<Issue>)
    ensures TotalOver(YearKeys(sorted), sorted, YearOf, PageCountOf) == Total(sorted, PageCountOf)
  {
    YearKeysComplete(sorted);
    PartitionTotal(YearKeys(sorted), sorted, YearOf, PageCountOf);
  }

  /** The issues of a year keep the chronological order of the whole list. */
  lemma BucketChronological(sorted: seq<Issue>, y: string)
    requires Chronological(sorted)
    ensures Chronological(Select(sorted, YearOf, y))
  {
    SelectChronological(sorted, YearOf, y);
  }

  // ---------------------------------------------------------------------------
  // Step 7: the date range
  // ---------------------------------------------------------------------------

  /**
   * `dateRange`: empty without years, otherwise the first and last key of
   * `Object.keys(years).sort()`, which are the least and the greatest key.
   */
  function DateRange(yearKeys: seq<string>): string
  {
    if |yearKeys| == 0 then "" else LexMin(yearKeys) + " - " + LexMax(yearKeys)
  }

  /** The year of the first issue to the year of the last, or nothing without issues. */
  function FirstToLast(sorted: seq<Issue>): string
  {
    if |sorted| == 0 then "" else YearOf(sorted[0]) + " - " + YearOf(sorted[|sorted| - 1])
  }

  /** The first and last element of any sorted arrangement of the keys are their least and greatest. */
  lemma SortedEnds(keys: seq<string>, sortedKeys: seq<string>)
    requires multiset(sortedKeys) == multiset(keys) && |keys| > 0
    requires forall i, j :: 0 <= i < j < |sortedKeys| ==> LexLe(sortedKeys[i], sortedKeys[j])
    ensures |sortedKeys| == |keys|
    ensures sortedKeys[0] == LexMin(keys) && sortedKeys[|sortedKeys| - 1] == LexMax(keys)
  {
    assert |sortedKeys| == |multiset(sortedKeys)| == |multiset(keys)| == |keys|;
    forall i | 0 <= i < |keys| ensures LexLe(sortedKeys[0], keys[i]) && LexLe(keys[i], sortedKeys[|sortedKeys| - 1]) {
      assert keys[i] in multiset(sortedKeys);
      var m :| 0 <= m < |sortedKeys| && sortedKeys[m] == keys[i];
    }
    assert sortedKeys[0] in multiset(keys);
    assert sortedKeys[|sortedKeys| - 1] in multiset(keys);
    LexMinUnique(keys, sortedKeys[0]);
    LexMaxUnique(keys, sortedKeys[|sortedKeys| - 1]);
  }

  /**
   * For a chronological issue list the date range runs from the year of the
   * first issue to the year of the last.
   */
  lemma DateRangeOfChronological(sorted: seq<Issue>)
    requires Chronological(sorted)
    ensures DateRange(YearKeys(sorted)) == FirstToLast(sorted)
  {
    var keys := YearKeys(sorted);
    YearKeysComplete(sorted);
    if |sorted| > 0 {
      var first, last := sorted[0], sorted[|sorted| - 1];
      forall i | 0 <= i < |keys| ensures LexLe(YearOf(first), keys[i]) && LexLe(keys[i], YearOf(last)) {
        var m :| 0 <= m < |sorted| && KeysOf(sorted, YearOf)[m] == keys[i];
        YearBetween(sorted, m);
      }
      LexMinUnique(keys, YearOf(first));
      LexMaxUnique(keys, YearOf(last));
    }
  }

  lemma YearBetween(sorted: seq<Issue>, m: nat)
    requires Chronological(sorted) && m < |sorted|
    ensures LexLe(YearOf(sorted[0]), YearOf(sorted[m]))
    ensures LexLe(YearOf(sorted[m]), YearOf(sorted[|sorted| - 1]))
  {
    DateOrder(sorted, 0, m);
    DateOrder(sorted, m, |sorted| - 1);
    PrefixMonotone(sorted[0].date, sorted[m].date, 4);
    PrefixMonotone(sorted[m].date, sorted[|sorted| - 1].date, 4);
  }
}
