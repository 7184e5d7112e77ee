/**
 * `parseFilename` of build/generate-metadata.js and build/generate-search-index.js
 * (the two copies are identical): a page's text file name
 * `<slug>-<YYYYMMDD>[<letter>]-<NNN>.txt` becomes a page descriptor, any other
 * name becomes `null`.
 */
module Filename {
  import opened Wrappers
  import opened Strings

  datatype Descriptor = Descriptor(
    filename: string,     // the name without its `.txt` extension
    newspaper: string,    // display name of the publication
    date: string,         // YYYY-MM-DD
    dateDisplay: string,  // "January 5, 1923"
    pageNumber: nat,
    issueId: string)      // slug-YYYYMMDD[letter]

  /** The header fields every page of one issue shares. */
  datatype IssueHeader = IssueHeader(newspaper: string, date: string, dateDisplay: string)

  const Months: seq<string> := [
    "January", "February", "March", "April", "May", "June",
    "July", "August", "September", "October", "November", "December"]

  // ---------------------------------------------------------------------------
  // The grammar of a page file name
  // ---------------------------------------------------------------------------

  /** A match of `/\.txt$/i`. */
  predicate IsTxtExtension(e: string)
  {
    |e| == 4 && e[0] == '.' && (e[1] == 't' || e[1] == 'T')
    && (e[2] == 'x' || e[2] == 'X') && (e[3] == 't' || e[3] == 'T')
  }

  /** `filename.replace(/\.txt$/i, '')`: drops one trailing `.txt`, in any case. */
  function StripTxt(name: string): (base: string)
    ensures base == name || (|name| == |base| + 4 && base == name[..|base|] && IsTxtExtension(name[|base|..]))
    ensures |name| >= 4 && IsTxtExtension(name[|name| - 4..]) ==> |base| == |name| - 4
  {
    if |name| >= 4 && IsTxtExtension(name[|name| - 4..]) then name[..|name| - 4] else name
  }

  /** The characters JavaScript's `.` does not match. */
  predicate IsLineTerminator(c: char)
  {
    c == '\n' || c == '\r' || c == '\U{2028}' || c == '\U{2029}'
  }

  /** `(.+?)`: one or more characters other than line terminators. */
  predicate IsSlug(s: string)
  {
    |s| > 0 && forall i :: 0 <= i < |s| ==> !IsLineTerminator(s[i])
  }

  /** `(\d{8}[a-z]?)` */
  predicate IsDateToken(d: string)
  {
    (|d| == 8 && AllDigits(d)) || (|d| == 9 && AllDigits(d[..8]) && IsLowerAscii(d[8]))
  }

  /** `(\d{3})` */
  predicate IsPageToken(p: string)
  {
    |p| == 3 && AllDigits(p)
  }

  /** `base` matches `/^(.+?)-(\d{8}[a-z]?)-(\d{3})$/` with these three captures. */
  predicate Matches(base: string, slug: string, dateStr: string, pageStr: string)
  {
    IsSlug(slug) && IsDateToken(dateStr) && IsPageToken(pageStr)
    && base == slug + "-" + dateStr + "-" + pageStr
  }

  /**
   * The captures of the pattern, found from the end of the name: the page
   * number is the last three characters, and the character before its hyphen
   * tells whether the date carries a suffix letter.
   */
  function Captures(base: string): (r: Option<(string, string, string)>)
    ensures r.Some? ==> Matches(base, r.value.0, r.value.1, r.value.2)
  {
    var n := |base|;
    if n < 14 || base[n - 4] != '-' || !AllDigits(base[n - 3..]) then None
    else if IsLowerAscii(base[n - 5]) then
      if n >= 15 && base[n - 14] == '-' && AllDigits(base[n - 13..n - 5]) && IsSlug(base[..n - 14]) then
        var r := (base[..n - 14], base[n - 13..n - 4], base[n - 3..]);
        assert r.1[..8] == base[n - 13..n - 5];
        assert base == r.0 + "-" + r.1 + "-" + r.2;
        Some(r)
      else None
    else if base[n - 13] == '-' && AllDigits(base[n - 12..n - 4]) && IsSlug(base[..n - 13]) then
      var r := (base[..n - 13], base[n - 12..n - 4], base[n - 3..]);
      assert base == r.0 + "-" + r.1 + "-" + r.2;
      Some(r)
    else None
  }

  /** The pattern's captures are unique: whatever matches is what `Captures` finds. */
  lemma CapturesComplete(base: string, slug: string, dateStr: string, pageStr: string)
    requires Matches(base, slug, dateStr, pageStr)
    ensures Captures(base) == Some((slug, dateStr, pageStr))
  {
    var n, k := |base|, |slug|;
    Parts(slug, dateStr, pageStr);
    assert base[n - 3..] == pageStr && base[n - 4] == '-';
    if |dateStr| == 9 {
      assert n - 14 == k;
      assert base[n - 5] == dateStr[8];
      assert base[n - 13..n - 4] == dateStr;
      assert base[n - 13..n - 5] == dateStr[..8];
    } else {
      assert n - 13 == k;
      assert base[n - 5] == dateStr[7];
      assert base[n - 12..n - 4] == dateStr;
    }
  }

  /** Where the three captures and the two hyphens sit in the joined name. */
  lemma Parts(slug: string, dateStr: string, pageStr: string)
    ensures
      var base, k, d := slug + "-" + dateStr + "-" + pageStr, |slug|, |dateStr|;
      |base| == k + d + 2 + |pageStr|
      && base[..k] == slug && base[k] == '-' && base[k + 1..k + 1 + d] == dateStr
      && base[k + 1 + d] == '-' && base[k + 2 + d..] == pageStr
  {
    var base, k, d := slug + "-" + dateStr + "-" + pageStr, |slug|, |dateStr|;
    var front := slug + "-" + dateStr;
    assert base == front + "-" + pageStr;
    assert front[..k] == slug && front[k] == '-' && front[k + 1..] == dateStr;
    assert base[..k + 1 + d] == front;
  }

  // ---------------------------------------------------------------------------
  // The descriptor's fields
  // ---------------------------------------------------------------------------

  /** `word.charAt(0).toUpperCase() + word.slice(1)` */
  function Capitalize(w: string): string
  {
    if |w| == 0 then "" else [Upper(w[0])] + w[1..]
  }

  function CapitalizeAll(words: seq<string>): (r: seq<string>)
    ensures |r| == |words|
  {
    if |words| == 0 then [] else [Capitalize(words[0])] + CapitalizeAll(words[1..])
  }

  /** `slug.split('-').map(capitalize).join(' ')` */
  function DisplayName(slug: string): string
  {
    Join(CapitalizeAll(Split(slug, '-')), " ")
  }

  /** What the display name holds at position `i` of the slug. */
  function NameChar(slug: string, i: nat): char
    requires i < |slug|
  {
    if slug[i] == '-' then ' '
    else if i == 0 || slug[i - 1] == '-' then Upper(slug[i])
    else slug[i]
  }

  function MonthName(month: nat): Option<string>
  {
    if 1 <= month <= 12 then Some(Months[month - 1]) else None
  }

  /** `${MONTHS[m - 1]}`: a missing table entry prints as `undefined`. */
  function MonthText(month: nat): string
  {
    match MonthName(month)
    case Some(name) => name
    case None => "undefined"
  }

  /** `${year}-${month}-${day}`, sliced straight out of the date token. */
  function IsoDate(dateStr: string): string
    requires IsDateToken(dateStr)
  {
    dateStr[..4] + "-" + dateStr[4..6] + "-" + dateStr[6..8]
  }

  predicate IsIsoDate(date: string)
  {
    |date| == 10 && date[4] == '-' && date[7] == '-'
    && AllDigits(date[..4]) && AllDigits(date[5..7]) && AllDigits(date[8..])
  }

  /** `${MONTHS[parseInt(month) - 1]} ${parseInt(day)}, ${year}` */
  function DisplayDate(dateStr: string): string
    requires IsDateToken(dateStr)
  {
    MonthText(DigitsValue(dateStr[4..6])) + " " + NatToString(DigitsValue(dateStr[6..8])) + ", " + dateStr[..4]
  }

  function Describe(slug: string, dateStr: string, pageStr: string): Descriptor
    requires IsDateToken(dateStr) && IsPageToken(pageStr)
  {
    Descriptor(
      slug + "-" + dateStr + "-" + pageStr,
      DisplayName(slug),
      IsoDate(dateStr),
      DisplayDate(dateStr),
      DigitsValue(pageStr),
      slug + "-" + dateStr)
  }

  /** `parseFilename(filename)` */
  function Parse(name: string): Option<Descriptor>
  {
    match Captures(StripTxt(name))
    case None => None
    case Some((slug, dateStr, pageStr)) => Some(Describe(slug, dateStr, pageStr))
  }

  /** A descriptor that some matching file name produces. */
  ghost predicate WellFormed(d: Descriptor)
  {
    exists slug, dateStr, pageStr ::
      IsSlug(slug) && IsDateToken(dateStr) && IsPageToken(pageStr) && d == Describe(slug, dateStr, pageStr)
  }

  function HeaderOfDescriptor(d: Descriptor): IssueHeader
  {
    IssueHeader(d.newspaper, d.date, d.dateDisplay)
  }

  /**
   * The header an issue id stands for: the date token is the text after the
   * last hyphen (nine characters when it ends in a suffix letter, else eight)
   * and the slug is everything before that hyphen.
   */
  function HeaderOf(issueId: string): Option<IssueHeader>
  {
    var n := |issueId|;
    if n >= 11 && IsLowerAscii(issueId[n - 1]) && issueId[n - 10] == '-' && IsDateToken(issueId[n - 9..]) then
      var dateStr := issueId[n - 9..];
      Some(IssueHeader(DisplayName(issueId[..n - 10]), IsoDate(dateStr), DisplayDate(dateStr)))
    else if n >= 10 && issueId[n - 9] == '-' && IsDateToken(issueId[n - 8..]) then
      var dateStr := issueId[n - 8..];
      Some(IssueHeader(DisplayName(issueId[..n - 9]), IsoDate(dateStr), DisplayDate(dateStr)))
    else None
  }

  // ---------------------------------------------------------------------------
  // What parsing promises
  // ---------------------------------------------------------------------------

  /**
   * A name is accepted exactly when, after one trailing `.txt` is stripped,
   * it is a slug, a hyphen, an eight-digit date with an optional lower-case
   * letter, a hyphen and three digits.
   */
  lemma ParseAccepts(name: string)
    ensures Parse(name).Some? <==>
            exists slug, dateStr, pageStr :: Matches(StripTxt(name), slug, dateStr, pageStr)
  {
    var base := StripTxt(name);
    if exists slug, dateStr, pageStr :: Matches(base, slug, dateStr, pageStr) {
      var slug, dateStr, pageStr :| Matches(base, slug, dateStr, pageStr);
      CapturesComplete(base, slug, dateStr, pageStr);
    }
  }

  /**
   * The descriptor of a well-named file: the issue id keeps the suffix letter,
   * the ISO date is sliced from the date token, the page number is the value
   * of the three digits and the file name is the name without extension.
   */
  lemma ParseNamedFile(slug: string, dateStr: string, pageStr: string, ext: string)
    requires IsSlug(slug) && IsDateToken(dateStr) && IsPageToken(pageStr)
    requires ext == "" || IsTxtExtension(ext)
    ensures var base := slug + "-" + dateStr + "-" + pageStr;
            Parse(base + ext) == Some(Descriptor(
              base, DisplayName(slug),
              dateStr[..4] + "-" + dateStr[4..6] + "-" + dateStr[6..8],
              DisplayDate(dateStr), DigitsValue(pageStr), slug + "-" + dateStr))
  {
    var base := slug + "-" + dateStr + "-" + pageStr;
    if ext == "" {
      assert base + ext == base;
      assert base[|base| - 1] == pageStr[2];
    } else {
      assert (base + ext)[..|base|] == base && (base + ext)[|base|..] == ext;
    }
    assert StripTxt(base + ext) == base;
    CapturesComplete(base, slug, dateStr, pageStr);
  }

  lemma ParseWellFormed(name: string)
    requires Parse(name).Some?
    ensures WellFormed(Parse(name).value)
    ensures Parse(name).value.filename == StripTxt(name)
  {
    var r := Captures(StripTxt(name));
    var d := Describe(r.value.0, r.value.1, r.value.2);
    assert d == Parse(name).value;
  }

  lemma IsoDateShape(dateStr: string)
    requires IsDateToken(dateStr)
    ensures IsIsoDate(IsoDate(dateStr))
  {
    var date := IsoDate(dateStr);
    assert date[..4] == dateStr[..4];
    assert date[5..7] == dateStr[4..6];
    assert date[8..] == dateStr[6..8];
  }

  /**
   * A parsed descriptor has an ISO date, a page number below 1000, and a file
   * name that is its issue id, a hyphen and the page number in three digits.
   */
  lemma WellFormedFacts(d: Descriptor)
    requires WellFormed(d)
    ensures IsIsoDate(d.date)
    ensures d.pageNumber < 1000
    ensures d.filename == d.issueId + "-" + FixedDigits(d.pageNumber, 3)
    ensures HeaderOf(d.issueId) == Some(HeaderOfDescriptor(d))
  {
    var slug, dateStr, pageStr :| IsSlug(slug) && IsDateToken(dateStr) && IsPageToken(pageStr)
                                  && d == Describe(slug, dateStr, pageStr);
    IsoDateShape(dateStr);
    FixedDigitsOfValue(pageStr);
    assert Pow10(3) == 1000;
    IssueIdHeader(slug, dateStr);
  }

  lemma IssueIdHeader(slug: string, dateStr: string)
    requires IsSlug(slug) && IsDateToken(dateStr)
    ensures HeaderOf(slug + "-" + dateStr)
         == Some(IssueHeader(DisplayName(slug), IsoDate(dateStr), DisplayDate(dateStr)))
  {
    var id := slug + "-" + dateStr;
    var n := |id|;
    if |dateStr| == 9 {
      assert id[n - 1] == dateStr[8];
      assert id[n - 10] == '-';
      assert id[n - 9..] == dateStr;
      assert id[..n - 10] == slug;
    } else {
      assert id[n - 1] == dateStr[7];
      assert id[n - 9] == '-';
      assert id[n - 8..] == dateStr;
      assert id[..n - 9] == slug;
    }
  }

  /** Two pages with the same issue id agree on the publication and the dates. */
  lemma SameIssueSameHeader(a: Descriptor, b: Descriptor)
    requires WellFormed(a) && WellFormed(b) && a.issueId == b.issueId
    ensures HeaderOfDescriptor(a) == HeaderOfDescriptor(b)
  {
    WellFormedFacts(a);
    WellFormedFacts(b);
  }

  /** `parseInt(day)` printed back drops exactly one leading zero of a two-digit day. */
  lemma DayText(dd: string)
    requires |dd| == 2 && AllDigits(dd)
    ensures NatToString(DigitsValue(dd)) == if dd[0] == '0' then dd[1..] else dd
  {
    var v := DigitsValue(dd);
    assert dd[..1] == [dd[0]] && dd[..1][..0] == [];
    assert DigitsValue(dd[..1]) == DigitValue(dd[0]);
    assert v == 10 * DigitValue(dd[0]) + DigitValue(dd[1]);
    if dd[0] == '0' {
      assert v == DigitValue(dd[1]);
    } else {
      assert v / 10 == DigitValue(dd[0]) && v % 10 == DigitValue(dd[1]);
      assert NatToString(v) == [dd[0]] + [dd[1]];
    }
  }

  /**
   * The display name replaces every hyphen of the slug by a space, upper-cases
   * the first character of every hyphen-separated word and keeps every other
   * character, so it has as many characters, and as many words, as the slug.
   */
  lemma DisplayNameShape(slug: string)
    ensures |DisplayName(slug)| == |slug|
    ensures forall i :: 0 <= i < |slug| ==> DisplayName(slug)[i] == NameChar(slug, i)
  {
    JoinSplit(slug, '-');
    JoinCapitalized(Split(slug, '-'));
  }

  lemma {:induction false} JoinCapitalized(words: seq<string>)
    requires |words| >= 1
    requires forall k :: 0 <= k < |words| ==> '-' !in words[k]
    ensures |Join(CapitalizeAll(words), " ")| == |Join(words, "-")|
    ensures forall i :: 0 <= i < |Join(words, "-")| ==>
              Join(CapitalizeAll(words), " ")[i] == NameChar(Join(words, "-"), i)
  {
    var w := words[0];
    var cw := Capitalize(w);
    assert |cw| == |w|;
    assert forall i :: 0 <= i < |w| ==> w[i] != '-';
    if |words| == 1 {
      assert Join(words, "-") == w;
      assert Join(CapitalizeAll(words), " ") == cw;
    } else {
      var rest := words[1..];
      JoinCapitalized(rest);
      var s, s' := Join(words, "-"), Join(rest, "-");
      var d, d' := Join(CapitalizeAll(words), " "), Join(CapitalizeAll(rest), " ");
      assert CapitalizeAll(words)[1..] == CapitalizeAll(rest);
      assert s == w + "-" + s';
      assert d == cw + " " + d';
      forall i | 0 <= i < |s| ensures d[i] == NameChar(s, i) {
        if i < |w| {
          assert s[i] == w[i];
          if i > 0 { assert s[i - 1] == w[i - 1]; }
        } else if i > |w| {
          var k := i - |w| - 1;
          assert s[i] == s'[k] && d[i] == d'[k];
          if k > 0 { assert s[i - 1] == s'[k - 1]; }
        }
      }
    }
  }
}
