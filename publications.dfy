/**
 * Step 6 of `buildMetadata` in build/generate-metadata.js: one aggregate per
 * publication title (the display name, so distinct slugs with one display
 * name merge), counting its issues and keeping its earliest and latest
 * date, printed by `formatDateShort`, and the list of aggregates ordered by
 * issue count, most first.
 */
module Publications {
  import opened Strings
  import opened Sequences
  import opened Filename
  import opened Issues

  datatype Publication = Publication(
    title: string,
    issueCount: nat,
    minDate: string,
    maxDate: string,
    minDateDisplay: string,
    maxDateDisplay: string)

  const MonthsShort: seq<string> := [
    "Jan", "Feb", "Mar", "Apr", "May", "Jun",
    "Jul", "Aug", "Sep", "Oct", "Nov", "Dec"]

  /** `${MONTHS_SHORT[m - 1]}`: a missing table entry prints as `undefined`. */
  function MonthShortText(month: nat): string
  {
    if 1 <= month <= 12 then MonthsShort[month - 1] else "undefined"
  }

  // ---------------------------------------------------------------------------
  // formatDateShort
  // ---------------------------------------------------------------------------

  lemma SplitIsoDate(date: string)
    requires IsIsoDate(date)
    ensures Split(date, '-') == [date[..4], date[5..7], date[8..]]
  {
    var y, m, d := date[..4], date[5..7], date[8..];
    assert '-' !in y && '-' !in m && '-' !in d by {
      assert !IsDigit('-');
    }
    assert date == y + ['-'] + (m + ['-'] + d);
    assert m + ['-'] + d == m + ['-'] + d;
    SplitAfter(y, m + ['-'] + d, '-');
    SplitAfter(m, d, '-');
    SplitNone(d, '-');
  }

  /**
   * `formatDateShort`: split the date at `-`, print the year, the short
   * month name and the day as a number padded back to two digits.
   */
  function FormatDateShort(date: string): string
    requires IsIsoDate(date)
  {
    SplitIsoDate(date);
    var parts := Split(date, '-');
    var y, m, d := parts[0], parts[1], parts[2];
    y + " " + MonthShortText(DigitsValue(m)) + " " + PadStart(NatToString(DigitsValue(d)), 2, '0')
  }

  /**
   * The short date is the year and the day exactly as they are written in
   * the date, around the short name of its month: the round trip of the day
   * through `parseInt` and `padStart(2, '0')` gives back its two digits.
   */
  lemma FormatDateShortShape(date: string)
    requires IsIsoDate(date)
    ensures FormatDateShort(date) == date[..4] + " " + MonthShortText(DigitsValue(date[5..7])) + " " + date[8..]
  {
    SplitIsoDate(date);
    var d := date[8..];
    PaddedNatToString(DigitsValue(d), 2);
    FixedDigitsOfValue(d);
  }

  // ---------------------------------------------------------------------------
  // What each aggregate holds
  // ---------------------------------------------------------------------------

  function TitleOf(issue: Issue): string { issue.newspaper }
  function DateOf(issue: Issue): string { issue.date }
  function IssueOne(issue: Issue): nat { 1 }
  function CountOf(p: Publication): nat { p.issueCount }

  /** The comparator `b.issueCount - a.issueCount` sorts by this key, ascending. */
  function CountKey(p: Publication): int { -(p.issueCount as int) }

  /** The titles, in the order `pubMap` first meets them. */
  function Titles(sorted: seq<Issue>): seq<string>
  {
    KeysOf(FirstByKey(sorted, TitleOf), TitleOf)
  }

  /**
   * What the aggregate of title `t` holds once the loop of step 6 is done: the
   * number of its issues and the least and greatest of their dates (JavaScript
   * `<` and `>` on strings compare code units, as `LexLess` does).
   */
  function Stats(sorted: seq<Issue>, t: string): Publication
    requires t in KeysOf(sorted, TitleOf)
  {
    var mine := Select(sorted, TitleOf, t);
    SelectMember(sorted, TitleOf, t);
    var dates := KeysOf(mine, DateOf);
    Publication(t, |mine|, LexMin(dates), LexMax(dates), "", "")
  }

  /** An aggregate whose date bounds are ISO dates, so that `formatDateShort` applies. */
  predicate Printable(p: Publication)
  {
    IsIsoDate(p.minDate) && IsIsoDate(p.maxDate)
  }

  /** The second loop of step 6 fills in the printed dates. */
  function Displayed(p: Publication): Publication
    requires Printable(p)
  {
    p.(minDateDisplay := FormatDateShort(p.minDate), maxDateDisplay := FormatDateShort(p.maxDate))
  }

  predicate IsoDates(sorted: seq<Issue>)
  {
    forall i :: 0 <= i < |sorted| ==> IsIsoDate(sorted[i].date)
  }

  /** The least and greatest dates of a title are dates of its issues, so they are ISO dates. */
  lemma StatsDates(sorted: seq<Issue>, t: string)
    requires t in KeysOf(sorted, TitleOf)
    ensures Stats(sorted, t).minDate in KeysOf(Select(sorted, TitleOf, t), DateOf)
    ensures Stats(sorted, t).maxDate in KeysOf(Select(sorted, TitleOf, t), DateOf)
    ensures IsoDates(sorted) ==> Printable(Stats(sorted, t))
  {
    var mine := Select(sorted, TitleOf, t);
    var dates := KeysOf(mine, DateOf);
    SelectMember(sorted, TitleOf, t);
    LexBoundsMember(dates);
    if IsoDates(sorted) {
      var a :| 0 <= a < |dates| && dates[a] == Stats(sorted, t).minDate;
      var b :| 0 <= b < |dates| && dates[b] == Stats(sorted, t).maxDate;
      var i :| 0 <= i < |sorted| && sorted[i] == mine[a];
      var j :| 0 <= j < |sorted| && sorted[j] == mine[b];
    }
  }

  function Aggregate(sorted: seq<Issue>, t: string): Publication
    requires IsoDates(sorted) && t in KeysOf(sorted, TitleOf)
  {
    StatsDates(sorted, t);
    Displayed(Stats(sorted, t))
  }

  lemma TitlesOccur(sorted: seq<Issue>)
    ensures Distinct(Titles(sorted))
    ensures forall i :: 0 <= i < |sorted| ==> sorted[i].newspaper in Titles(sorted)
    ensures forall i :: 0 <= i < |Titles(sorted)| ==> Titles(sorted)[i] in KeysOf(sorted, TitleOf)
  {
    FirstByKeyDistinct(sorted, TitleOf);
    FirstByKeyKeys(sorted, TitleOf);
  }

  /** `Array.from(pubMap.values())`: the aggregates in the order their titles were first met. */
  function Listed(sorted: seq<Issue>): (r: seq<Publication>)
    requires IsoDates(sorted)
    ensures |r| == |Titles(sorted)|
    ensures forall i :: 0 <= i < |r| ==> Titles(sorted)[i] in KeysOf(sorted, TitleOf) && r[i] == Aggregate(sorted, Titles(sorted)[i])
  {
    var titles := Titles(sorted);
    TitlesOccur(sorted);
    seq(|titles|, i requires 0 <= i < |titles| => Aggregate(sorted, titles[i]))
  }

  /** `publications`: the aggregates sorted stably by issue count, most first. */
  function PublicationList(sorted: seq<Issue>): seq<Publication>
    requires IsoDates(sorted)
  {
    StableSort(Listed(sorted), CountKey)
  }

  // ---------------------------------------------------------------------------
  // The loop of step 6
  // ---------------------------------------------------------------------------

  /** One issue counted into the aggregate of its title: the body of the first loop of step 6. */
  function AddToPub(pubMap: map<string, Publication>, issue: Issue): map<string, Publication>
  {
    var t := issue.newspaper;
    var pub := if t in pubMap then pubMap[t] else Publication(t, 0, issue.date, issue.date, "", "");
    pubMap[t := pub.(
      issueCount := pub.issueCount + 1,
      minDate := if LexLess(issue.date, pub.minDate) then issue.date else pub.minDate,
      maxDate := if LexLess(pub.maxDate, issue.date) then issue.date else pub.maxDate)]
  }

  /** The map the first loop of step 6 builds from the issues `s`. */
  function PubMap(s: seq<Issue>): map<string, Publication>
  {
    if |s| == 0 then map[] else AddToPub(PubMap(s[..|s| - 1]), s[|s| - 1])
  }

  lemma PubMapSnoc(s: seq<Issue>, issue: Issue)
    ensures PubMap(s + [issue]) == AddToPub(PubMap(s), issue)
  {
    assert (s + [issue])[..|s|] == s;
  }

  lemma TitlesSnoc(s: seq<Issue>, issue: Issue)
    ensures Titles(s + [issue]) ==
      if issue.newspaper in KeysOf(s, TitleOf) then Titles(s) else Titles(s) + [issue.newspaper]
  {
    assert (s + [issue])[..|s|] == s;
    KeysOfSnoc(FirstByKey(s, TitleOf), issue, TitleOf);
  }

  /** The aggregate of a title already met takes the new issue into its count, minimum and maximum. */
  lemma StatsSnocOld(s: seq<Issue>, issue: Issue)
    requires issue.newspaper in KeysOf(s, TitleOf)
    ensures issue.newspaper in KeysOf(s + [issue], TitleOf)
    ensures
      var old_ := Stats(s, issue.newspaper);
      Stats(s + [issue], issue.newspaper) == old_.(
        issueCount := old_.issueCount + 1,
        minDate := if LexLess(issue.date, old_.minDate) then issue.date else old_.minDate,
        maxDate := if LexLess(old_.maxDate, issue.date) then issue.date else old_.maxDate)
  {
    var t := issue.newspaper;
    KeysOfSnoc(s, issue, TitleOf);
    SelectSnoc(s, issue, TitleOf, t);
    var mine := Select(s, TitleOf, t);
    SelectMember(s, TitleOf, t);
    KeysOfSnoc(mine, issue, DateOf);
    LexMinSnoc(KeysOf(mine, DateOf), issue.date);
    LexMaxSnoc(KeysOf(mine, DateOf), issue.date);
  }

  /** A title met for the first time starts with the issue's own date as minimum and maximum. */
  lemma StatsSnocNew(s: seq<Issue>, issue: Issue)
    requires issue.newspaper !in KeysOf(s, TitleOf)
    ensures issue.newspaper in KeysOf(s + [issue], TitleOf)
    ensures Stats(s + [issue], issue.newspaper) == Publication(issue.newspaper, 1, issue.date, issue.date, "", "")
  {
    var t := issue.newspaper;
    KeysOfSnoc(s, issue, TitleOf);
    var mine := Select(s + [issue], TitleOf, t);
    assert mine == [issue] by {
      SelectSnoc(s, issue, TitleOf, t);
      SelectNotIn(s, TitleOf, t);
    }
    var dates := KeysOf(mine, DateOf);
    assert dates == [issue.date] by {
      assert |dates| == 1 && dates[0] == issue.date;
    }
  }

  lemma StatsSnocOther(s: seq<Issue>, issue: Issue, t: string)
    requires t in KeysOf(s + [issue], TitleOf) && t != issue.newspaper
    ensures t in KeysOf(s, TitleOf) && Stats(s + [issue], t) == Stats(s, t)
  {
    KeysOfSnoc(s, issue, TitleOf);
    SelectSnoc(s, issue, TitleOf, t);
    assert Select(s + [issue], TitleOf, t) == Select(s, TitleOf, t);
  }

  /** The first loop of step 6 leaves one aggregate per title, holding exactly `Stats`. */
  lemma {:induction false} PubMapIsStats(s: seq<Issue>)
    ensures forall t :: t in PubMap(s) <==> t in KeysOf(s, TitleOf)
    ensures forall t :: t in PubMap(s) ==> PubMap(s)[t] == Stats(s, t)
  {
    if |s| > 0 {
      var init, last := s[..|s| - 1], s[|s| - 1];
      assert s == init + [last];
      PubMapIsStats(init);
      PubMapSnoc(init, last);
      KeysOfSnoc(init, last, TitleOf);
      var m := PubMap(s);
      forall t | t in m ensures m[t] == Stats(s, t) {
        if t != last.newspaper {
          StatsSnocOther(init, last, t);
        } else if t in KeysOf(init, TitleOf) {
          StatsSnocOld(init, last);
        } else {
          StatsSnocNew(init, last);
        }
      }
    }
  }

  lemma PubMapKey(s: seq<Issue>, t: string)
    ensures t in PubMap(s) <==> t in KeysOf(s, TitleOf)
  {
    PubMapIsStats(s);
  }

  /** The body of the first loop of step 6, on the map and on the order its keys were created in. */
  method AddToPubIn(pubMap: map<string, Publication>, pubOrder: seq<string>, issue: Issue)
    returns (pubMap': map<string, Publication>, pubOrder': seq<string>)
    ensures pubMap' == AddToPub(pubMap, issue)
    ensures pubOrder' == if issue.newspaper in pubMap then pubOrder else pubOrder + [issue.newspaper]
  {
    pubMap', pubOrder' := pubMap, pubOrder;
    var t := issue.newspaper;
    if t !in pubMap' {
      pubMap' := pubMap'[t := Publication(t, 0, issue.date, issue.date, "", "")];
      pubOrder' := pubOrder' + [t];
    }
    var pub := pubMap'[t];
    pub := pub.(issueCount := pub.issueCount + 1);
    if LexLess(issue.date, pub.minDate) {
      pub := pub.(minDate := issue.date);
    }
    if LexLess(pub.maxDate, issue.date) {
      pub := pub.(maxDate := issue.date);
    }
    pubMap' := pubMap'[t := pub];
    assert pubMap' == AddToPub(pubMap, issue) by {
      assert pubMap'.Keys == AddToPub(pubMap, issue).Keys;
    }
  }

  /** The first loop of step 6: count the issues of each title and track its date bounds. */
  method CountPublications(sorted: seq<Issue>) returns (pubMap: map<string, Publication>, pubOrder: seq<string>)
    ensures pubOrder == Titles(sorted)
    ensures forall t :: t in pubMap <==> t in KeysOf(sorted, TitleOf)
    ensures forall t :: t in pubMap ==> pubMap[t] == Stats(sorted, t)
  {
    pubMap, pubOrder := map[], [];
    for k := 0 to |sorted|
      invariant pubMap == PubMap(sorted[..k])
      invariant pubOrder == Titles(sorted[..k])
    {
      var issue := sorted[k];
      TakeSnoc(sorted, k);
      PubMapSnoc(sorted[..k], issue);
      TitlesSnoc(sorted[..k], issue);
      PubMapKey(sorted[..k], issue.newspaper);
      pubMap, pubOrder := AddToPubIn(pubMap, pubOrder, issue);
    }
    assert sorted[..|sorted|] == sorted;
    PubMapIsStats(sorted);
  }

  /** The second loop of step 6: print the date bounds of every aggregate. */
  method PrintDates(pubMap: map<string, Publication>, pubOrder: seq<string>)
    returns (printed: map<string, Publication>)
    requires Distinct(pubOrder)
    requires forall i :: 0 <= i < |pubOrder| ==> pubOrder[i] in pubMap
    requires forall t :: t in pubMap ==> Printable(pubMap[t])
    ensures printed.Keys == pubMap.Keys
    ensures forall i :: 0 <= i < |pubOrder| ==> printed[pubOrder[i]] == Displayed(pubMap[pubOrder[i]])
  {
    printed := pubMap;
    for k := 0 to |pubOrder|
      invariant printed.Keys == pubMap.Keys
      invariant forall i :: k <= i < |pubOrder| ==> printed[pubOrder[i]] == pubMap[pubOrder[i]]
      invariant forall i :: 0 <= i < k ==> printed[pubOrder[i]] == Displayed(pubMap[pubOrder[i]])
    {
      var t := pubOrder[k];
      var pub := printed[t];
      assert pub == pubMap[t] && Printable(pub);
      pub := pub.(minDateDisplay := FormatDateShort(pub.minDate), maxDateDisplay := FormatDateShort(pub.maxDate));
      assert pub == Displayed(pubMap[t]);
      var before := printed;
      printed := printed[t := pub];
      forall i | 0 <= i < |pubOrder| && i != k ensures printed[pubOrder[i]] == before[pubOrder[i]] {
        assert pubOrder[i] != t;
      }
    }
  }

  /** The aggregates the first loop leaves can be printed. */
  lemma StatsPrintable(sorted: seq<Issue>, pubMap: map<string, Publication>)
    requires IsoDates(sorted)
    requires forall t :: t in pubMap ==> t in KeysOf(sorted, TitleOf) && pubMap[t] == Stats(sorted, t)
    ensures forall t :: t in pubMap ==> Printable(pubMap[t])
  {
    forall t | t in pubMap ensures Printable(pubMap[t]) {
      StatsDates(sorted, t);
    }
  }

  /** The printed map, read in title order, is the list of aggregates. */
  lemma PrintedListed(sorted: seq<Issue>, pubMap: map<string, Publication>, pubOrder: seq<string>, printed: map<string, Publication>)
    requires IsoDates(sorted) && pubOrder == Titles(sorted)
    requires forall t :: t in pubMap ==> t in KeysOf(sorted, TitleOf) && pubMap[t] == Stats(sorted, t) && Printable(pubMap[t])
    requires forall i :: 0 <= i < |pubOrder| ==>
      pubOrder[i] in pubMap && pubOrder[i] in printed && printed[pubOrder[i]] == Displayed(pubMap[pubOrder[i]])
    ensures MapValues(printed, pubOrder) == Listed(sorted)
  {
    var l, v := Listed(sorted), MapValues(printed, pubOrder);
    assert |v| == |l|;
    forall i | 0 <= i < |v| ensures v[i] == l[i] {
      var t := pubOrder[i];
      ValueListed(sorted, pubMap[t], printed[t], i);
    }
  }

  lemma ValueListed(sorted: seq<Issue>, pub: Publication, printed: Publication, i: nat)
    requires IsoDates(sorted) && i < |Titles(sorted)|
    requires Titles(sorted)[i] in KeysOf(sorted, TitleOf)
    requires pub == Stats(sorted, Titles(sorted)[i])
    requires Printable(pub) && printed == Displayed(pub)
    ensures printed == Listed(sorted)[i]
  {
  }

  /**
   * Step 6 as a whole: count, then print the date bounds of every aggregate,
   * then list the aggregates in title order and sort them by issue count.
   */
  method BuildPublications(sorted: seq<Issue>) returns (publications: seq<Publication>)
    requires IsoDates(sorted)
    ensures publications == PublicationList(sorted)
  {
    var pubMap, pubOrder := CountPublications(sorted);
    TitlesOccur(sorted);
    StatsPrintable(sorted, pubMap);
    var printed := PrintDates(pubMap, pubOrder);
    PrintedListed(sorted, pubMap, pubOrder, printed);
    publications := StableSort(MapValues(printed, pubOrder), CountKey);
  }

  // ---------------------------------------------------------------------------
  // What the publication list promises
  // ---------------------------------------------------------------------------

  lemma ListedMember(sorted: seq<Issue>, p: Publication)
    requires IsoDates(sorted) && p in PublicationList(sorted)
    ensures p.title in KeysOf(sorted, TitleOf) && p == Aggregate(sorted, p.title)
  {
    TitlesOccur(sorted);
    assert p in multiset(Listed(sorted));
    var i :| 0 <= i < |Listed(sorted)| && Listed(sorted)[i] == p;
  }

  /** Every title appears exactly once in the list, and only titles of issues appear. */
  lemma PublicationTitles(sorted: seq<Issue>)
    requires IsoDates(sorted)
    ensures Distinct(KeysOf(PublicationList(sorted), (p: Publication) => p.title))
    ensures forall i :: 0 <= i < |sorted| ==> sorted[i].newspaper in KeysOf(PublicationList(sorted), (p: Publication) => p.title)
    ensures forall p :: p in PublicationList(sorted) ==> p.title in KeysOf(sorted, TitleOf)
  {
    var title := (p: Publication) => p.title;
    var listed, pubs := Listed(sorted), PublicationList(sorted);
    TitlesOccur(sorted);
    assert KeysOf(listed, title) == Titles(sorted);
    MultisetKeys(pubs, listed, title);
    DistinctPermutation(KeysOf(pubs, title), Titles(sorted));
    forall i | 0 <= i < |sorted| ensures sorted[i].newspaper in KeysOf(pubs, title) {
      assert sorted[i].newspaper in multiset(KeysOf(listed, title));
    }
    forall p | p in pubs ensures p.title in KeysOf(sorted, TitleOf) {
      ListedMember(sorted, p);
    }
  }

  /** The issue counts add up to the number of issues. */
  lemma PublicationCounts(sorted: seq<Issue>)
    requires IsoDates(sorted)
    ensures Total(PublicationList(sorted), CountOf) == |sorted|
  {
    var listed, titles := Listed(sorted), Titles(sorted);
    TitlesOccur(sorted);
    TotalPermutation(PublicationList(sorted), listed, CountOf);
    forall i | 0 <= i < |listed|
      ensures CountOf(listed[i]) == Total(Select(sorted, TitleOf, titles[i]), IssueOne)
    {
      TotalOfOnes(Select(sorted, TitleOf, titles[i]), IssueOne);
    }
    TotalOverAsTotal(titles, sorted, TitleOf, IssueOne, listed, CountOf);
    PartitionTotal(titles, sorted, TitleOf, IssueOne);
    TotalOfOnes(sorted, IssueOne);
  }

  /**
   * The list never increases in issue count, and aggregates with equal
   * counts keep the order in which their titles were first met.
   */
  lemma PublicationOrder(sorted: seq<Issue>)
    requires IsoDates(sorted)
    ensures forall i, j :: 0 <= i < j < |PublicationList(sorted)| ==>
      PublicationList(sorted)[i].issueCount >= PublicationList(sorted)[j].issueCount
    ensures forall n :: WithKey(PublicationList(sorted), CountKey, n) == WithKey(Listed(sorted), CountKey, n)
  {
    StableSortSorted(Listed(sorted), CountKey);
    forall n ensures WithKey(PublicationList(sorted), CountKey, n) == WithKey(Listed(sorted), CountKey, n) {
      StableSortStable(Listed(sorted), CountKey, n);
    }
  }

  /**
   * Each aggregate counts the issues of its title; its `minDate` and `maxDate`
   * are dates of those issues, at or below and at or above every one of them,
   * and are printed by `formatDateShort`.
   */
  lemma PublicationBounds(sorted: seq<Issue>, p: Publication)
    requires IsoDates(sorted) && p in PublicationList(sorted)
    ensures p.issueCount == |Select(sorted, TitleOf, p.title)|
    ensures p.minDate in KeysOf(Select(sorted, TitleOf, p.title), DateOf)
    ensures p.maxDate in KeysOf(Select(sorted, TitleOf, p.title), DateOf)
    ensures forall i :: 0 <= i < |sorted| && sorted[i].newspaper == p.title ==>
      LexLe(p.minDate, sorted[i].date) && LexLe(sorted[i].date, p.maxDate)
    ensures p.minDateDisplay == FormatDateShort(p.minDate) && p.maxDateDisplay == FormatDateShort(p.maxDate)
  {
    ListedMember(sorted, p);
    StatsDates(sorted, p.title);
    forall i | 0 <= i < |sorted| && sorted[i].newspaper == p.title
      ensures LexLe(p.minDate, sorted[i].date) && LexLe(sorted[i].date, p.maxDate)
    {
      StatsBound(sorted, i);
    }
  }

  lemma StatsBound(sorted: seq<Issue>, i: nat)
    requires i < |sorted|
    ensures sorted[i].newspaper in KeysOf(sorted, TitleOf)
    ensures LexLe(Stats(sorted, sorted[i].newspaper).minDate, sorted[i].date)
    ensures LexLe(sorted[i].date, Stats(sorted, sorted[i].newspaper).maxDate)
  {
    var t := sorted[i].newspaper;
    assert KeysOf(sorted, TitleOf)[i] == t;
    var mine := Select(sorted, TitleOf, t);
    SelectComplete(sorted, TitleOf, i);
    var j :| 0 <= j < |mine| && mine[j] == sorted[i];
    assert KeysOf(mine, DateOf)[j] == sorted[i].date;
  }

  /**
   * For a chronological issue list the bounds of a title are the dates of
   * its first and its last issue.
   */
  lemma PublicationBoundsChronological(sorted: seq<Issue>, p: Publication)
    requires IsoDates(sorted) && Chronological(sorted) && p in PublicationList(sorted)
    ensures |Select(sorted, TitleOf, p.title)| > 0
    ensures p.minDate == Select(sorted, TitleOf, p.title)[0].date
    ensures p.maxDate == Select(sorted, TitleOf, p.title)[|Select(sorted, TitleOf, p.title)| - 1].date
  {
    ListedMember(sorted, p);
    var mine := Select(sorted, TitleOf, p.title);
    SelectMember(sorted, TitleOf, p.title);
    SelectChronological(sorted, TitleOf, p.title);
    var dates := KeysOf(mine, DateOf);
    forall i | 0 <= i < |dates| ensures LexLe(dates[0], dates[i]) && LexLe(dates[i], dates[|dates| - 1]) {
      DateOrder(mine, 0, i);
      DateOrder(mine, i, |mine| - 1);
    }
    LexMinUnique(dates, dates[0]);
    LexMaxUnique(dates, dates[|dates| - 1]);
  }

  /** The slugs `a-b` and `A-b` name different issues but have one display name, "A B". */
  lemma DistinctSlugsOneName()
    ensures DisplayName("a-b") == DisplayName("A-b") == "A B"
  {
    DisplayNameShape("a-b");
    DisplayNameShape("A-b");
  }

  /**
   * Aggregates are keyed by display name, not by slug: two issues whose slugs
   * have the same display name fall under one entry of the list, and its
   * count counts both.
   */
  lemma DisplayNamesMerge(sorted: seq<Issue>, i: nat, j: nat, slugI: string, slugJ: string)
    requires IsoDates(sorted) && i < j < |sorted|
    requires sorted[i].newspaper == DisplayName(slugI) && sorted[j].newspaper == DisplayName(slugJ)
    requires DisplayName(slugI) == DisplayName(slugJ)
    ensures var pubs := PublicationList(sorted);
      exists k :: 0 <= k < |pubs| && pubs[k].title == DisplayName(slugI) && pubs[k].issueCount >= 2
    ensures var pubs := PublicationList(sorted);
      forall k, m :: (0 <= k < |pubs| && 0 <= m < |pubs| && pubs[k].title == DisplayName(slugI)
        && pubs[m].title == DisplayName(slugJ)) ==> k == m
  {
    var k := TitleEntry(sorted, i);
    SelectTwo(sorted, TitleOf, i, j);
    TitleEntryUnique(sorted, DisplayName(slugI));
  }

  /** The entry of the list that aggregates the title of issue `i`. */
  lemma TitleEntry(sorted: seq<Issue>, i: nat) returns (k: nat)
    requires IsoDates(sorted) && i < |sorted|
    ensures k < |PublicationList(sorted)| && PublicationList(sorted)[k].title == sorted[i].newspaper
    ensures PublicationList(sorted)[k].issueCount == |Select(sorted, TitleOf, sorted[i].newspaper)|
  {
    PublicationTitles(sorted);
    k := KeyIndex(PublicationList(sorted), (p: Publication) => p.title, sorted[i].newspaper);
    ListedMember(sorted, PublicationList(sorted)[k]);
  }

  /** No title has two entries in the list. */
  lemma TitleEntryUnique(sorted: seq<Issue>, t: string)
    requires IsoDates(sorted)
    ensures var pubs := PublicationList(sorted);
      forall k, m :: (0 <= k < |pubs| && 0 <= m < |pubs| && pubs[k].title == t && pubs[m].title == t) ==> k == m
  {
    var pubs, title := PublicationList(sorted), (p: Publication) => p.title;
    PublicationTitles(sorted);
    forall k, m | 0 <= k < |pubs| && 0 <= m < |pubs| && pubs[k].title == t && pubs[m].title == t
      ensures k == m
    {
      DistinctAt(KeysOf(pubs, title), k, m);
    }
  }
}
