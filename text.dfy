/**
 * The JavaScript string operations that the application's rules are built
 * from: `trim`, `split` on one character, `join`, `toLowerCase` (restricted
 * to ASCII), `startsWith`, `includes`, and the decimal rendering of a
 * non-negative integer.  A string is a sequence of characters.
 */
module Text {
  import opened Wrappers

  /** The characters `String.prototype.trim` strips and the regular-expression
      class `\s` matches: the ECMAScript WhiteSpace and LineTerminator sets. */
  predicate IsWhitespace(c: char) {
    ('\t' <= c <= '\r') || c == ' ' || ('\U{00A0}' <= c && IsWideWhitespace(c))
  }

  /** The white-space characters outside ASCII. */
  predicate IsWideWhitespace(c: char) {
    || c == '\U{00A0}' || c == '\U{1680}' || ('\U{2000}' <= c <= '\U{200A}')
    || c == '\U{2028}' || c == '\U{2029}' || c == '\U{202F}' || c == '\U{205F}'
    || c == '\U{3000}' || c == '\U{FEFF}'
  }

  predicate AllWhitespace(s: string) {
    forall i :: 0 <= i < |s| ==> IsWhitespace(s[i])
  }

  /** True when `s` neither starts nor ends with whitespace. */
  predicate IsTrimmed(s: string) {
    s == [] || (!IsWhitespace(s[0]) && !IsWhitespace(s[|s| - 1]))
  }

  /** The number of whitespace characters `s` starts with. */
  function LeadingSpace(s: string): (n: nat)
    ensures n <= |s|
    ensures n < |s| ==> !IsWhitespace(s[n])
  {
    if s != [] && IsWhitespace(s[0]) then 1 + LeadingSpace(s[1..]) else 0
  }

  /** The characters `LeadingSpace` counts are whitespace. */
  lemma {:induction false} LeadingSpaceIsWhitespace(s: string)
    ensures AllWhitespace(s[..LeadingSpace(s)])
  {
    if s != [] && IsWhitespace(s[0]) {
      LeadingSpaceIsWhitespace(s[1..]);
      assert s[..LeadingSpace(s)] == [s[0]] + s[1..][..LeadingSpace(s[1..])];
    }
  }

  /** The number of whitespace characters `s` ends with. */
  function TrailingSpace(s: string): (n: nat)
    ensures n <= |s|
    ensures n < |s| ==> !IsWhitespace(s[|s| - 1 - n])
  {
    if s != [] && IsWhitespace(s[|s| - 1]) then 1 + TrailingSpace(s[..|s| - 1]) else 0
  }

  /** The characters `TrailingSpace` counts are whitespace. */
  lemma {:induction false} TrailingSpaceIsWhitespace(s: string)
    ensures AllWhitespace(s[|s| - TrailingSpace(s)..])
  {
    if s != [] && IsWhitespace(s[|s| - 1]) {
      var init := s[..|s| - 1];
      TrailingSpaceIsWhitespace(init);
      assert s[|s| - TrailingSpace(s)..] == init[|init| - TrailingSpace(init)..] + [s[|s| - 1]];
    }
  }

  /** The leading run of whitespace is determined by its two properties. */
  lemma {:induction false} LeadingSpaceUnique(s: string, k: nat)
    requires k <= |s|
    requires forall i :: 0 <= i < k ==> IsWhitespace(s[i])
    requires k < |s| ==> !IsWhitespace(s[k])
    ensures LeadingSpace(s) == k
  {
    if k > 0 {
      assert IsWhitespace(s[0]);
      assert forall i :: 0 <= i < k - 1 ==> s[1..][i] == s[i + 1];
      LeadingSpaceUnique(s[1..], k - 1);
    }
  }

  /** The trailing run of whitespace is determined by its two properties. */
  lemma {:induction false} TrailingSpaceUnique(s: string, k: nat)
    requires k <= |s|
    requires forall i :: |s| - k <= i < |s| ==> IsWhitespace(s[i])
    requires k < |s| ==> !IsWhitespace(s[|s| - 1 - k])
    ensures TrailingSpace(s) == k
  {
    if k > 0 {
      assert IsWhitespace(s[|s| - 1]);
      var init := s[..|s| - 1];
      assert forall i :: |init| - (k - 1) <= i < |init| ==> init[i] == s[i];
      TrailingSpaceUnique(init, k - 1);
    }
  }

  /** `String.prototype.trimStart`. */
  function TrimStart(s: string): string {
    s[LeadingSpace(s)..]
  }

  /** `String.prototype.trimEnd`. */
  function TrimEnd(s: string): string {
    s[..|s| - TrailingSpace(s)]
  }

  /** `String.prototype.trim`. */
  function Trim(s: string): string {
    TrimEnd(TrimStart(s))
  }

  /** The result of `trim` neither starts nor ends with whitespace. */
  lemma TrimIsTrimmed(s: string)
    ensures IsTrimmed(Trim(s))
  {
    var t := TrimStart(s);
    var r := Trim(s);
    if r != [] {
      assert r[0] == t[0];
      assert r[|r| - 1] == t[|t| - 1 - TrailingSpace(t)];
    }
  }

  /** The result of `trim` is the part of `s` after its leading whitespace
      and before its trailing whitespace. */
  lemma TrimIsMiddle(s: string)
    ensures var a := LeadingSpace(s);
      && a + |Trim(s)| <= |s|
      && Trim(s) == s[a..a + |Trim(s)|]
  {
    var a := LeadingSpace(s);
    var t := s[a..];
    var n := |t| - TrailingSpace(t);
    var r := t[..n];
    var m := s[a..a + n];
    forall k | 0 <= k < n
      ensures r[k] == m[k]
    {
      assert r[k] == t[k] == s[a + k];
    }
    assert r == m;
  }

  /** What `trim` strips from the end is whitespace. */
  lemma TrimDropsTrailingWhitespace(s: string)
    ensures LeadingSpace(s) + |Trim(s)| <= |s|
    ensures AllWhitespace(s[LeadingSpace(s) + |Trim(s)|..])
  {
    var t := TrimStart(s);
    var b := TrailingSpace(t);
    TrailingSpaceIsWhitespace(t);
    assert s[LeadingSpace(s) + |Trim(s)|..] == t[|t| - b..];
  }

  /** The result of `trim` is the middle of `s` between two runs of
      whitespace, and it neither starts nor ends with whitespace. */
  lemma TrimShape(s: string)
    ensures IsTrimmed(Trim(s))
    ensures var a := LeadingSpace(s);
      && a + |Trim(s)| <= |s|
      && Trim(s) == s[a..a + |Trim(s)|]
      && AllWhitespace(s[..a])
      && AllWhitespace(s[a + |Trim(s)|..])
  {
    TrimIsTrimmed(s);
    TrimIsMiddle(s);
    TrimDropsTrailingWhitespace(s);
    LeadingSpaceIsWhitespace(s);
  }

  /** Trimming a string that is already trimmed changes nothing. */
  lemma TrimOfTrimmed(s: string)
    requires IsTrimmed(s)
    ensures Trim(s) == s
  {
    LeadingSpaceUnique(s, 0);
    TrailingSpaceUnique(s, 0);
  }

  /** `trim` is idempotent. */
  lemma TrimIdempotent(s: string)
    ensures Trim(Trim(s)) == Trim(s)
  {
    TrimShape(s);
    TrimOfTrimmed(Trim(s));
  }

  /** Whitespace in front of a trimmed string is stripped again. */
  lemma TrimAfterWhitespace(w: string, x: string)
    requires AllWhitespace(w) && IsTrimmed(x)
    ensures Trim(w + x) == x
  {
    var s := w + x;
    LeadingSpaceUnique(s, |w|);
    assert TrimStart(s) == x;
    TrimOfTrimmed(x);
  }

  /** Trimming never introduces a character. */
  lemma TrimKeepsAbsent(s: string, c: char)
    requires c !in s
    ensures c !in Trim(s)
  {
    TrimShape(s);
    var a := LeadingSpace(s);
    var r := Trim(s);
    assert forall k :: 0 <= k < |r| ==> r[k] == s[a + k];
  }

  /** `s.split(sep)` for a one-character separator: the pieces between the
      occurrences of `sep`, the empty string giving `[""]`. */
  function Split(s: string, sep: char): (r: seq<string>)
    ensures |r| >= 1
    ensures forall i :: 0 <= i < |r| ==> sep !in r[i]
  {
    if s == [] then [""]
    else
      var rest := Split(s[1..], sep);
      if s[0] == sep then [""] + rest else [[s[0]] + rest[0]] + rest[1..]
  }

  /** `xs.join(sep)`. */
  function Join(xs: seq<string>, sep: string): string {
    if |xs| == 0 then ""
    else if |xs| == 1 then xs[0]
    else xs[0] + sep + Join(xs[1..], sep)
  }

  /** Joining the pieces of `split` with the separator gives the string back. */
  lemma {:induction false} JoinSplit(s: string, sep: char)
    ensures Join(Split(s, sep), [sep]) == s
  {
    if s != [] {
      var rest := Split(s[1..], sep);
      JoinSplit(s[1..], sep);
      if s[0] == sep {
        assert Split(s, sep) == [""] + rest;
        assert ([""] + rest)[1..] == rest;
      } else {
        var r := Split(s, sep);
        assert r[0] == [s[0]] + rest[0];
        if |rest| == 1 {
          assert r == [[s[0]] + rest[0]];
        } else {
          assert r[1..] == rest[1..];
          assert Join(r, [sep]) == [s[0]] + rest[0] + [sep] + Join(rest[1..], [sep]);
          assert Join(rest, [sep]) == rest[0] + [sep] + Join(rest[1..], [sep]);
        }
        assert s == [s[0]] + s[1..];
      }
    }
  }

  /** A string without the separator is a single piece. */
  lemma {:induction false} SplitNoSeparator(x: string, sep: char)
    requires sep !in x
    ensures Split(x, sep) == [x]
  {
    if x != [] {
      SplitNoSeparator(x[1..], sep);
      assert [x[0]] + x[1..] == x;
    }
  }

  /** A separator after a separator-free prefix ends the first piece. */
  lemma {:induction false} SplitAtSeparator(x: string, sep: char, y: string)
    requires sep !in x
    ensures Split(x + [sep] + y, sep) == [x] + Split(y, sep)
  {
    if x == [] {
      assert x + [sep] + y == [sep] + y;
      assert ([sep] + y)[1..] == y;
    } else {
      assert (x + [sep] + y)[1..] == x[1..] + [sep] + y;
      SplitAtSeparator(x[1..], sep, y);
      assert [x[0]] + x[1..] == x;
    }
  }

  /** The first piece of `split` is the longest separator-free prefix. */
  lemma {:induction false} SplitHead(s: string, sep: char)
    ensures Split(s, sep)[0] <= s
    ensures |Split(s, sep)[0]| < |s| ==> s[|Split(s, sep)[0]|] == sep
  {
    if s != [] && s[0] != sep {
      SplitHead(s[1..], sep);
    }
  }

  /** `xs.map(s => s.trim())`. */
  function TrimAll(xs: seq<string>): (r: seq<string>)
    ensures |r| == |xs|
    ensures forall i :: 0 <= i < |xs| ==> r[i] == Trim(xs[i])
  {
    if xs == [] then [] else [Trim(xs[0])] + TrimAll(xs[1..])
  }

  /** `xs.filter(Boolean)` on strings: the non-empty elements in order. */
  function DropEmpty(xs: seq<string>): (r: seq<string>)
    ensures |r| <= |xs|
    ensures forall i :: 0 <= i < |r| ==> r[i] != [] && r[i] in xs
    ensures forall x :: x in r <==> x in xs && x != []
  {
    if xs == [] then []
    else if xs[0] == [] then DropEmpty(xs[1..])
    else [xs[0]] + DropEmpty(xs[1..])
  }

  /** Splitting at a separator splits the pieces: the pieces of `s`, then
      those of `t`. */
  lemma {:induction false} SplitAppend(s: string, sep: char, t: string)
    ensures Split(s + [sep] + t, sep) == Split(s, sep) + Split(t, sep)
  {
    if s != [] {
      assert (s + [sep] + t)[1..] == s[1..] + [sep] + t;
      SplitAppend(s[1..], sep, t);
    }
  }

  lemma TrimAllAppend(xs: seq<string>, ys: seq<string>)
    ensures TrimAll(xs + ys) == TrimAll(xs) + TrimAll(ys)
  {
  }

  /** The filter keeps the order and the duplicates of the elements it
      keeps: it works element by element. */
  lemma {:induction false} DropEmptyAppend(xs: seq<string>, ys: seq<string>)
    ensures DropEmpty(xs + ys) == DropEmpty(xs) + DropEmpty(ys)
  {
    if xs != [] {
      var zs := xs + ys;
      assert zs[0] == xs[0];
      assert zs[1..] == xs[1..] + ys;
      DropEmptyAppend(xs[1..], ys);
      if xs[0] == [] {
        assert DropEmpty(zs) == DropEmpty(zs[1..]);
      } else {
        assert DropEmpty(zs) == [xs[0]] + DropEmpty(zs[1..]);
        assert DropEmpty(xs) == [xs[0]] + DropEmpty(xs[1..]);
      }
    } else {
      assert xs + ys == ys;
    }
  }

  /** `s.split(',').map(x => x.trim()).filter(Boolean)`: the comma-separated
      entries of `s`, trimmed, with empty entries dropped. */
  function SplitTrimmed(s: string): seq<string> {
    DropEmpty(TrimAll(Split(s, ',')))
  }

  /** The entries of `s + "," + t` are those of `s` followed by those of
      `t`, repeated names included. */
  lemma SplitTrimmedAppend(s: string, t: string)
    ensures SplitTrimmed(s + [','] + t) == SplitTrimmed(s) + SplitTrimmed(t)
  {
    SplitAppend(s, ',', t);
    TrimAllAppend(Split(s, ','), Split(t, ','));
    DropEmptyAppend(TrimAll(Split(s, ',')), TrimAll(Split(t, ',')));
  }

  /** Every entry of a comma list is trimmed, non-empty and comma-free. */
  lemma SplitTrimmedEntries(s: string)
    ensures forall i :: 0 <= i < |SplitTrimmed(s)| ==>
      SplitTrimmed(s)[i] != [] && IsTrimmed(SplitTrimmed(s)[i]) && ',' !in SplitTrimmed(s)[i]
  {
    var pieces := Split(s, ',');
    var trimmed := TrimAll(pieces);
    forall i | 0 <= i < |SplitTrimmed(s)|
      ensures IsTrimmed(SplitTrimmed(s)[i]) && ',' !in SplitTrimmed(s)[i]
    {
      var e := SplitTrimmed(s)[i];
      var j :| 0 <= j < |trimmed| && trimmed[j] == e;
      TrimShape(pieces[j]);
      TrimKeepsAbsent(pieces[j], ',');
    }
  }

  /** `String.prototype.toLowerCase` on one character, ASCII letters only. */
  function LowerChar(c: char): (r: char)
    ensures 'A' <= c <= 'Z' ==> 'a' <= r <= 'z' && r as int - c as int == 32
    ensures !('A' <= c <= 'Z') ==> r == c
  {
    if 'A' <= c <= 'Z' then (c as int + 32) as char else c
  }

  /** `String.prototype.toLowerCase`, ASCII letters only. */
  function Lower(s: string): (r: string)
    ensures |r| == |s|
    ensures forall i :: 0 <= i < |s| ==> r[i] == LowerChar(s[i])
  {
    seq(|s|, i requires 0 <= i < |s| => LowerChar(s[i]))
  }

  /** `s.startsWith(p)`. */
  predicate StartsWith(s: string, p: string) {
    p <= s
  }

  /** `hay.includes(needle)`: `needle` occurs at some position of `hay`. */
  predicate Contains(hay: string, needle: string) {
    exists i :: 0 <= i <= |hay| - |needle| && needle <= hay[i..]
  }

  /** The position of the last `c` in `s`. */
  function LastIndexOf(s: string, c: char): (r: Option<nat>)
    ensures r.Some? ==> r.value < |s| && s[r.value] == c
    ensures r.Some? ==> forall k :: r.value < k < |s| ==> s[k] != c
    ensures r.None? ==> c !in s
  {
    if s == [] then None
    else if s[|s| - 1] == c then Some(|s| - 1)
    else LastIndexOf(s[..|s| - 1], c)
  }

  /** The last `c` of `x + [c] + y` is the one after `x` when `y` has none. */
  lemma {:induction false} LastIndexOfBefore(x: string, c: char, y: string)
    requires c !in y
    ensures LastIndexOf(x + [c] + y, c) == Some(|x|)
  {
    var s := x + [c] + y;
    if y != [] {
      assert s[..|s| - 1] == x + [c] + y[..|y| - 1];
      assert y[|y| - 1] in y;
      LastIndexOfBefore(x, c, y[..|y| - 1]);
    }
  }

  /** A string has no element twice. */
  predicate NoDuplicates<T(==)>(s: seq<T>) {
    forall i, j :: 0 <= i < j < |s| ==> s[i] != s[j]
  }

  predicate IsDigit(c: char) {
    '0' <= c <= '9'
  }

  function DigitChar(d: nat): (c: char)
    requires d < 10
    ensures IsDigit(c) && c as int - '0' as int == d
  {
    ('0' as int + d) as char
  }

  /** The decimal rendering of `n` (`${n}` for a non-negative integer). */
  function NatToString(n: nat): (r: string)
    ensures r != [] && forall i :: 0 <= i < |r| ==> IsDigit(r[i])
  {
    if n < 10 then [DigitChar(n)] else NatToString(n / 10) + [DigitChar(n % 10)]
  }

  /** The value of a string of decimal digits. */
  function DigitsValue(s: string): nat
    requires forall i :: 0 <= i < |s| ==> IsDigit(s[i])
  {
    if s == [] then 0
    else assert IsDigit(s[|s| - 1]); DigitsValue(s[..|s| - 1]) * 10 + (s[|s| - 1] as int - '0' as int)
  }

  /** Reading the decimal rendering back gives the number. */
  lemma {:induction false} DigitsValueOfNatToString(n: nat)
    ensures DigitsValue(NatToString(n)) == n
  {
    if n >= 10 {
      var s := NatToString(n);
      assert s[..|s| - 1] == NatToString(n / 10);
      DigitsValueOfNatToString(n / 10);
    }
  }

  /** A character of the regular-expression class `[a-z0-9]`. */
  predicate IsLowerAlnum(c: char) {
    ('a' <= c <= 'z') || IsDigit(c)
  }

  function SanitizeChar(c: char): (r: char)
    ensures IsLowerAlnum(r) || r == '_'
  {
    var l := LowerChar(c);
    if IsLowerAlnum(l) then l else '_'
  }

  /** `name.toLowerCase().replace(/[^a-z0-9]/g, '_')`. */
  function Sanitize(name: string): (r: string)
    ensures |r| == |name|
    ensures forall i :: 0 <= i < |r| ==> r[i] == SanitizeChar(name[i])
  {
    seq(|name|, i requires 0 <= i < |name| => SanitizeChar(name[i]))
  }

  /** The sanitised name is made of `[a-z0-9_]` only, keeps the length of the
      name, keeps its letters and digits (lower-cased) where they were, and
      sanitising it again changes nothing. */
  lemma SanitizeProperties(name: string)
    ensures |Sanitize(name)| == |name|
    ensures forall i :: 0 <= i < |name| ==> IsLowerAlnum(Sanitize(name)[i]) || Sanitize(name)[i] == '_'
    ensures forall i :: 0 <= i < |name| && IsLowerAlnum(LowerChar(name[i])) ==> Sanitize(name)[i] == LowerChar(name[i])
    ensures Sanitize(Sanitize(name)) == Sanitize(name)
  {
  }
}
