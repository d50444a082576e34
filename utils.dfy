/**
 * The front end's string helpers (src/lib/utils.js): comma lists, the
 * upload file name, the PDF type check, the graduation-year label,
 * truncation with an ellipsis and the e-mail shape check.
 */
module Utils {
  import opened Wrappers
  import opened Text

  // ---------------------------------------------------------------------
  // Comma lists

  /** `formatArrayToString`: `None` stands for any value that is not an
      array (including `null` and `undefined`). */
  function FormatArrayToString(values: Option<seq<string>>): string {
    if values.None? then "" else Join(values.value, ", ")
  }

  /** `parseStringToArray`: `None` stands for any value that is not a string. */
  function ParseStringToArray(str: Option<string>): (r: seq<string>)
    ensures str.None? || str == Some("") ==> r == []
    ensures forall i :: 0 <= i < |r| ==> r[i] != "" && IsTrimmed(r[i]) && ',' !in r[i]
  {
    if str.None? || str.value == "" then []
    else SplitTrimmedEntries(str.value); SplitTrimmed(str.value)
  }

  /** The list entries that survive a format-then-parse round trip. */
  predicate IsListEntry(x: string) {
    x != "" && IsTrimmed(x) && ',' !in x
  }

  /** Every element of a list that `parseStringToArray` returns is an entry. */
  lemma ParsedAreEntries(str: Option<string>)
    ensures forall i :: 0 <= i < |ParseStringToArray(str)| ==> IsListEntry(ParseStringToArray(str)[i])
  {
  }

  lemma TrimAllCons(x: string, ys: seq<string>)
    ensures TrimAll([x] + ys) == [Trim(x)] + TrimAll(ys)
  {
    assert ([x] + ys)[1..] == ys;
  }

  lemma DropEmptyCons(x: string, ys: seq<string>)
    requires x != ""
    ensures DropEmpty([x] + ys) == [x] + DropEmpty(ys)
  {
    assert ([x] + ys)[1..] == ys;
  }

  /** A whitespace prefix and an entry make one piece that trims back to
      the entry. */
  lemma SplitTrimmedSingle(w: string, x: string)
    requires AllWhitespace(w) && ',' !in w && IsListEntry(x)
    ensures SplitTrimmed(w + x) == [x]
  {
    assert ',' !in w + x;
    SplitNoSeparator(w + x, ',');
    TrimAfterWhitespace(w, x);
    assert TrimAll([w + x]) == [x];
    assert DropEmpty([x]) == [x] + DropEmpty([]);
  }

  /** A whitespace prefix and an entry followed by a comma give the entry
      and then the entries of the rest. */
  lemma SplitTrimmedCons(w: string, x: string, rest: string)
    requires AllWhitespace(w) && ',' !in w && IsListEntry(x)
    ensures SplitTrimmed(w + x + [','] + rest) == [x] + SplitTrimmed(rest)
  {
    assert ',' !in w + x;
    SplitAtSeparator(w + x, ',', rest);
    TrimAfterWhitespace(w, x);
    TrimAllCons(w + x, Split(rest, ','));
    DropEmptyCons(x, TrimAll(Split(rest, ',')));
  }

  /** Parsing a joined list, with optional whitespace in front, gives the
      list back. */
  lemma {:induction false} SplitTrimmedJoin(w: string, xs: seq<string>)
    requires AllWhitespace(w) && ',' !in w
    requires |xs| >= 1
    requires forall i :: 0 <= i < |xs| ==> IsListEntry(xs[i])
    ensures SplitTrimmed(w + Join(xs, ", ")) == xs
    decreases |xs|
  {
    if |xs| == 1 {
      SplitTrimmedSingle(w, xs[0]);
    } else {
      var rest := " " + Join(xs[1..], ", ");
      assert w + Join(xs, ", ") == w + xs[0] + [','] + rest;
      SplitTrimmedCons(w, xs[0], rest);
      SplitTrimmedJoin(" ", xs[1..]);
      assert [xs[0]] + xs[1..] == xs;
    }
  }

  /** Round trip: a list of non-empty, trimmed, comma-free strings survives
      formatting and parsing unchanged. */
  lemma FormatThenParse(xs: seq<string>)
    requires forall i :: 0 <= i < |xs| ==> IsListEntry(xs[i])
    ensures ParseStringToArray(Some(FormatArrayToString(Some(xs)))) == xs
  {
    if xs != [] {
      assert "" + Join(xs, ", ") == Join(xs, ", ");
      assert |Join(xs, ", ")| >= |xs[0]| > 0;
      SplitTrimmedJoin("", xs);
    }
  }

  /** Parsing normalises: formatting a parsed list and parsing it again gives
      the same list. */
  lemma ParseIsNormalising(str: Option<string>)
    ensures var xs := ParseStringToArray(str);
      ParseStringToArray(Some(FormatArrayToString(Some(xs)))) == xs
  {
    ParsedAreEntries(str);
    FormatThenParse(ParseStringToArray(str));
  }

  /** Parsing works comma by comma on any string: the entries of
      `s + "," + t` are those of `s` followed by those of `t`, in order and
      with repeated names kept. */
  lemma ParseConcatenates(s: string, t: string)
    ensures ParseStringToArray(Some(s + "," + t)) ==
      ParseStringToArray(Some(s)) + ParseStringToArray(Some(t))
  {
    SplitTrimmedAppend(s, t);
    EmptyParsesToNothing();
  }

  /** The empty string has no entries, read as a piece of a longer list. */
  lemma EmptyParsesToNothing()
    ensures SplitTrimmed("") == []
  {
    assert Split("", ',') == [""];
    TrimOfTrimmed("");
    assert TrimAll([""]) == [""];
  }

  /** A name given twice is listed twice. */
  lemma DuplicatesKept(x: string)
    requires IsListEntry(x)
    ensures ParseStringToArray(Some(x + "," + x)) == [x, x]
  {
    ParseConcatenates(x, x);
    SplitTrimmedSingle("", x);
    assert "" + x == x;
  }

  // ---------------------------------------------------------------------
  // Upload file name

  /** `generateUniqueFilename`, with the value of `Date.now()` passed in. */
  function GenerateUniqueFilename(name: string, timestamp: nat): string {
    Sanitize(name) + "_" + NatToString(timestamp) + ".pdf"
  }

  /** Reads a generated file name back: the part before the last `_` and
      the number between it and the `.pdf` suffix. */
  function ParseFilename(f: string): Option<(string, nat)> {
    if |f| < 4 || f[|f| - 4..] != ".pdf" then None
    else
      var stem := f[..|f| - 4];
      match LastIndexOf(stem, '_')
      case None => None
      case Some(u) =>
        var digits := stem[u + 1..];
        if digits != [] && forall i :: 0 <= i < |digits| ==> IsDigit(digits[i])
        then Some((stem[..u], DigitsValue(digits)))
        else None
  }

  /** The generated name is the sanitised name (letters, digits and `_`
      only, as long as the name), then `_`, then the timestamp, then `.pdf`:
      reading it back recovers both. */
  lemma FilenameRoundTrip(name: string, timestamp: nat)
    ensures var f := GenerateUniqueFilename(name, timestamp);
      && ParseFilename(f) == Some((Sanitize(name), timestamp))
      && (forall i :: 0 <= i < |Sanitize(name)| ==> IsLowerAlnum(f[i]) || f[i] == '_')
      && f[|f| - 4..] == ".pdf"
  {
    var s := Sanitize(name);
    var d := NatToString(timestamp);
    var f := GenerateUniqueFilename(name, timestamp);
    var stem := s + "_" + d;
    assert f[..|f| - 4] == stem;
    assert f[|f| - 4..] == ".pdf";
    assert stem[|s|] == '_';
    assert forall k :: |s| < k < |stem| ==> stem[k] == d[k - |s| - 1];
    assert '_' !in d by {
      assert forall k :: 0 <= k < |d| ==> IsDigit(d[k]);
    }
    LastIndexOfBefore(s, '_', d);
    assert stem[|s| + 1..] == d;
    assert stem[..|s|] == s;
    DigitsValueOfNatToString(timestamp);
  }

  // ---------------------------------------------------------------------
  // PDF type check

  /** The part of a browser `File` the helper looks at. */
  datatype BrowserFile = BrowserFile(mimeType: string)

  /** `isValidPdf`: `None` is a missing file. */
  function IsValidPdf(file: Option<BrowserFile>): (r: bool)
    ensures r <==> file.Some? && file.value.mimeType == "application/pdf"
  {
    if file.None? then false else file.value.mimeType == "application/pdf"
  }

  // ---------------------------------------------------------------------
  // Graduation-year label

  /** The values `formatGraduationYear` is given: a string, a number, or
      nothing (`null`/`undefined`). */
  datatype YearValue = YearText(text: string) | YearNumber(n: int) | NoYear

  /** JavaScript truthiness of a year value. */
  predicate IsTruthy(y: YearValue) {
    match y
    case YearText(t) => t != ""
    case YearNumber(n) => n != 0
    case NoYear => false
  }

  /** `${year}`: the text, or the decimal rendering of the number. */
  function YearString(y: YearValue): string {
    match y
    case YearText(t) => t
    case YearNumber(n) => if n < 0 then "-" + NatToString(-n) else NatToString(n)
    case NoYear => "undefined"
  }

  const ClassOfPrefix: string := "Class of "

  /** `formatGraduationYear`. */
  function FormatGraduationYear(year: YearValue): (r: string)
    ensures r == "" <==> !IsTruthy(year)
  {
    if !IsTruthy(year) then "" else ClassOfPrefix + YearString(year)
  }

  /** For a truthy year the label is "Class of " followed by the year: the
      year is read back from the label; for a positive number its digits
      give the number back. */
  lemma GraduationLabelReadsBack(year: YearValue)
    requires IsTruthy(year)
    ensures var shown := FormatGraduationYear(year);
      && StartsWith(shown, ClassOfPrefix)
      && shown[|ClassOfPrefix|..] == YearString(year)
    ensures year.YearNumber? && year.n > 0 ==>
      var digits := FormatGraduationYear(year)[|ClassOfPrefix|..];
      (forall i :: 0 <= i < |digits| ==> IsDigit(digits[i])) && DigitsValue(digits) == year.n
  {
    if year.YearNumber? && year.n > 0 {
      DigitsValueOfNatToString(year.n);
    }
  }

  // ---------------------------------------------------------------------
  // Truncation

  const DefaultMaxLength: int := 100
  const Ellipsis: string := "..."

  /** `truncateString(str, maxLength = 100)`; `str.substring(0, n)` with a
      negative `n` is the empty string. */
  function TruncateString(str: string, maxLength: int := DefaultMaxLength): (r: string)
    ensures |str| <= maxLength ==> r == str
    ensures str == "" ==> r == ""
    ensures str != "" && maxLength < |str| ==>
      var keep := if maxLength < 0 then 0 else maxLength;
      |r| == keep + 3 && r[..keep] == str[..keep] && r[keep..] == Ellipsis
  {
    if str == "" || |str| <= maxLength then str
    else str[..if maxLength < 0 then 0 else maxLength] + Ellipsis
  }

  /** Truncating twice with the same limit is truncating once. */
  lemma TruncateIdempotent(str: string, maxLength: int)
    ensures TruncateString(TruncateString(str, maxLength), maxLength) == TruncateString(str, maxLength)
  {
    var r := TruncateString(str, maxLength);
    if str != "" && maxLength < |str| {
      var keep := if maxLength < 0 then 0 else maxLength;
      assert r[..keep] == str[..keep];
      assert TruncateString(r, maxLength) == r[..keep] + Ellipsis;
    }
  }

  /** With the default limit a long string keeps its first 100 characters
      and becomes 103 long; a string of at most 100 is unchanged. */
  lemma TruncateDefault(str: string)
    ensures |str| <= 100 ==> TruncateString(str) == str
    ensures |str| > 100 ==> |TruncateString(str)| == 103 && TruncateString(str)[..100] == str[..100]
  {
  }

  // ---------------------------------------------------------------------
  // E-mail shape

  /** The number of occurrences of `c` in `s`. */
  function CountOf(s: string, c: char): nat {
    if s == [] then 0 else (if s[0] == c then 1 else 0) + CountOf(s[1..], c)
  }

  /** The position of the first `c` in `s`, or `|s|` when there is none. */
  function FirstIndexOf(s: string, c: char): (r: nat)
    ensures r <= |s| && (r < |s| ==> s[r] == c)
    ensures forall k :: 0 <= k < r ==> s[k] != c
  {
    if s == [] || s[0] == c then 0 else 1 + FirstIndexOf(s[1..], c)
  }

  /** `domain` has a `.` that is neither its first nor its last character. */
  predicate HasInnerDot(domain: string) {
    exists k :: 0 < k < |domain| - 1 && domain[k] == '.'
  }

  /** `isValidEmail`: no white space, exactly one `@`, something before it,
      and a domain with an inner `.`. */
  predicate IsValidEmail(email: string) {
    && (forall i :: 0 <= i < |email| ==> !IsWhitespace(email[i]))
    && CountOf(email, '@') == 1
    && var at := FirstIndexOf(email, '@');
       0 < at < |email| && HasInnerDot(email[at + 1..])
  }

  /** One segment of the pattern: `[^\s@]+`. */
  predicate IsPlainRun(s: string) {
    s != [] && forall i :: 0 <= i < |s| ==> !IsWhitespace(s[i]) && s[i] != '@'
  }

  /** The regular expression `^[^\s@]+@[^\s@]+\.[^\s@]+$`, read as three
      runs separated by `@` and `.`. */
  ghost predicate MatchesEmailPattern(email: string) {
    exists p, q :: 0 <= p < q < |email|
      && email[p] == '@' && email[q] == '.'
      && IsPlainRun(email[..p]) && IsPlainRun(email[p + 1..q]) && IsPlainRun(email[q + 1..])
  }

  lemma {:induction false} CountOfZero(s: string, c: char)
    ensures CountOf(s, c) == 0 <==> c !in s
  {
    if s != [] {
      CountOfZero(s[1..], c);
      assert s == [s[0]] + s[1..];
    }
  }

  lemma {:induction false} CountOfSplit(s: string, c: char, p: nat)
    requires p < |s|
    ensures CountOf(s, c) == CountOf(s[..p], c) + (if s[p] == c then 1 else 0) + CountOf(s[p + 1..], c)
  {
    if p > 0 {
      CountOfSplit(s[1..], c, p - 1);
      assert s[1..][..p - 1] == s[..p][1..];
      assert s[1..][p - 1 + 1..] == s[p + 1..];
    }
  }

  /** `[^\s@]*` on a whole string. */
  predicate NoSpaceNoAt(s: string) {
    forall i :: 0 <= i < |s| ==> !IsWhitespace(s[i]) && s[i] != '@'
  }

  lemma NoSpaceNoAtSlice(s: string, a: nat, b: nat)
    requires a <= b <= |s| && NoSpaceNoAt(s)
    ensures NoSpaceNoAt(s[a..b])
  {
    assert forall i :: 0 <= i < b - a ==> s[a..b][i] == s[a + i];
  }

  /** What the helper accepts, the regular expression matches. */
  lemma ValidEmailMatches(email: string)
    requires IsValidEmail(email)
    ensures MatchesEmailPattern(email)
  {
    var p := FirstIndexOf(email, '@');
    var domain := email[p + 1..];
    var k :| 0 < k < |domain| - 1 && domain[k] == '.';
    var q := p + 1 + k;
    CountOfSplit(email, '@', p);
    CountOfZero(email[..p], '@');
    CountOfZero(domain, '@');
    assert NoSpaceNoAt(email[..p]);
    assert NoSpaceNoAt(domain) by {
      assert forall i :: 0 <= i < |domain| ==> domain[i] == email[p + 1 + i];
      assert forall i :: 0 <= i < |domain| ==> domain[i] != '@';
    }
    NoSpaceNoAtSlice(domain, 0, k);
    NoSpaceNoAtSlice(domain, k + 1, |domain|);
    assert domain[0..k] == email[p + 1..q];
    assert domain[k + 1..|domain|] == email[q + 1..];
    assert email[q] == '.';
  }

  /** The characters of a string the pattern matches, with its `@` at `p`
      and its `.` at `q`. */
  lemma PatternCharacters(email: string, p: nat, q: nat)
    requires p < q < |email| && email[q] == '.'
    requires IsPlainRun(email[..p]) && IsPlainRun(email[p + 1..q]) && IsPlainRun(email[q + 1..])
    ensures forall i :: 0 <= i < |email| && i != p ==> !IsWhitespace(email[i]) && email[i] != '@'
  {
    forall i | 0 <= i < |email| && i != p
      ensures !IsWhitespace(email[i]) && email[i] != '@'
    {
      if i < p {
        assert email[i] == email[..p][i];
      } else if i < q {
        assert email[i] == email[p + 1..q][i - p - 1];
      } else if q < i {
        assert email[i] == email[q + 1..][i - q - 1];
      }
    }
  }

  /** What the regular expression matches, the helper accepts. */
  lemma MatchesAreValidEmails(email: string)
    requires MatchesEmailPattern(email)
    ensures IsValidEmail(email)
  {
    var p, q :| 0 <= p < q < |email|
      && email[p] == '@' && email[q] == '.'
      && IsPlainRun(email[..p]) && IsPlainRun(email[p + 1..q]) && IsPlainRun(email[q + 1..]);
    PatternCharacters(email, p, q);
    assert FirstIndexOf(email, '@') == p;
    CountOfSplit(email, '@', p);
    assert '@' !in email[..p] by {
      assert forall i :: 0 <= i < p ==> email[..p][i] == email[i];
    }
    CountOfZero(email[..p], '@');
    var domain := email[p + 1..];
    assert '@' !in domain by {
      assert forall i :: 0 <= i < |domain| ==> domain[i] == email[p + 1 + i];
    }
    CountOfZero(domain, '@');
    assert domain[q - p - 1] == '.';
  }

  /** The helper accepts exactly the strings the regular expression matches. */
  lemma EmailMatchesPattern(email: string)
    ensures IsValidEmail(email) <==> MatchesEmailPattern(email)
  {
    if IsValidEmail(email) {
      ValidEmailMatches(email);
    }
    if MatchesEmailPattern(email) {
      MatchesAreValidEmails(email);
    }
  }
}
