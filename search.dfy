/**
 * The search page's client-side filtering (src/app/search/page.js): the
 * predicate that decides which resumes are listed for a query and a set of
 * checkbox filters, and the checkbox toggle that edits those filters.
 */
module Search {
  import opened Text

  /** The fields of a listed resume the filter looks at. */
  datatype ResumeCard = ResumeCard(
    name: string,
    major: string,
    graduationYear: string,
    companies: seq<string>,
    keywords: seq<string>)

  /** The three checkbox groups; an empty list means "no filter". */
  datatype Filters = Filters(major: seq<string>, company: seq<string>, graduationYear: seq<string>)

  datatype FilterType = Major | Company | GraduationYear

  // ---------------------------------------------------------------------
  // The filter predicate

  /** `xs.some(x => x.toLowerCase().includes(q))`. */
  predicate SomeContains(xs: seq<string>, q: string) {
    exists i :: 0 <= i < |xs| && Contains(Lower(xs[i]), q)
  }

  /** The search box test: the lower-cased query occurs in the lower-cased
      name, major, some company or some keyword. */
  predicate MatchesQuery(query: string, r: ResumeCard) {
    var q := Lower(query);
    || Contains(Lower(r.name), q)
    || Contains(Lower(r.major), q)
    || SomeContains(r.companies, q)
    || SomeContains(r.keywords, q)
  }

  /** `resume.companies.some(company => chosen.includes(company))`. */
  predicate SharesCompany(r: ResumeCard, chosen: seq<string>) {
    exists i :: 0 <= i < |r.companies| && r.companies[i] in chosen
  }

  /** The callback given to `mockResumes.filter`, as its cascade of early
      returns. */
  predicate Keep(query: string, filters: Filters, r: ResumeCard) {
    if query != "" && !MatchesQuery(query, r) then false
    else if |filters.major| > 0 && r.major !in filters.major then false
    else if |filters.company| > 0 && !SharesCompany(r, filters.company) then false
    else if |filters.graduationYear| > 0 && r.graduationYear !in filters.graduationYear then false
    else true
  }

  /** The criteria combine conjunctively; each one is vacuous when its input
      is empty. */
  lemma KeepIsConjunction(query: string, filters: Filters, r: ResumeCard)
    ensures Keep(query, filters, r) <==>
      && (query == "" || MatchesQuery(query, r))
      && (filters.major == [] || r.major in filters.major)
      && (filters.company == [] || exists c :: c in r.companies && c in filters.company)
      && (filters.graduationYear == [] || r.graduationYear in filters.graduationYear)
  {
    if exists c :: c in r.companies && c in filters.company {
      var c :| c in r.companies && c in filters.company;
      var i :| 0 <= i < |r.companies| && r.companies[i] == c;
    }
  }

  /** `mockResumes.filter(...)`. */
  function FilterResumes(resumes: seq<ResumeCard>, query: string, filters: Filters): seq<ResumeCard> {
    if resumes == [] then []
    else
      var rest := FilterResumes(resumes[1..], query, filters);
      if Keep(query, filters, resumes[0]) then [resumes[0]] + rest else rest
  }

  /** `a` is `b` with some elements left out: `idx` says where each element
      of `a` stands in `b`, in increasing positions. */
  ghost predicate SubsequenceVia<T>(a: seq<T>, b: seq<T>, idx: seq<nat>) {
    && |idx| == |a|
    && (forall i :: 0 <= i < |idx| ==> idx[i] < |b| && a[i] == b[idx[i]])
    && (forall i, j :: 0 <= i < j < |idx| ==> idx[i] < idx[j])
  }

  ghost predicate IsSubsequence<T>(a: seq<T>, b: seq<T>) {
    exists idx :: SubsequenceVia(a, b, idx)
  }

  /** Every position moved one place on. */
  function Shift(idx: seq<nat>): (r: seq<nat>)
    ensures |r| == |idx|
    ensures forall i :: 0 <= i < |idx| ==> r[i] == idx[i] + 1
  {
    seq(|idx|, i requires 0 <= i < |idx| => idx[i] + 1)
  }

  /** Positions in the tail of `b` are positions in `b`, one place on. */
  lemma ShiftSubsequence<T>(a: seq<T>, b: seq<T>, idx: seq<nat>)
    requires |b| > 0 && SubsequenceVia(a, b[1..], idx)
    ensures SubsequenceVia(a, b, Shift(idx))
  {
  }

  /** Keeping the head of `b` as well puts position 0 in front. */
  lemma ConsSubsequence<T>(a: seq<T>, b: seq<T>, idx: seq<nat>)
    requires |b| > 0 && SubsequenceVia(a, b, idx)
    requires forall i :: 0 <= i < |idx| ==> 0 < idx[i]
    ensures SubsequenceVia([b[0]] + a, b, [0] + idx)
  {
    var r, s := [b[0]] + a, [0] + idx;
    forall i | 0 < i < |s|
      ensures s[i] == idx[i - 1] && r[i] == a[i - 1]
    {
    }
    forall i, j | 0 <= i < j < |s|
      ensures s[i] < s[j]
    {
      if i > 0 {
        assert s[i] == idx[i - 1] && s[j] == idx[j - 1];
      }
    }
  }

  /** The positions in the input of the resumes the filter keeps. */
  lemma {:induction false} FilterPositions(resumes: seq<ResumeCard>, query: string, filters: Filters)
    returns (idx: seq<nat>)
    ensures SubsequenceVia(FilterResumes(resumes, query, filters), resumes, idx)
  {
    if resumes == [] {
      idx := [];
    } else {
      var tail := FilterPositions(resumes[1..], query, filters);
      var rest := FilterResumes(resumes[1..], query, filters);
      if Keep(query, filters, resumes[0]) {
        ShiftSubsequence(rest, resumes, tail);
        ConsSubsequence(rest, resumes, Shift(tail));
        idx := [0] + Shift(tail);
      } else {
        ShiftSubsequence(rest, resumes, tail);
        idx := Shift(tail);
      }
    }
  }

  /** The filtered list is a subsequence of the input: the kept resumes, in
      their original order. */
  lemma FilteredIsSubsequence(resumes: seq<ResumeCard>, query: string, filters: Filters)
    ensures IsSubsequence(FilterResumes(resumes, query, filters), resumes)
  {
    var idx := FilterPositions(resumes, query, filters);
  }

  /** A resume is listed exactly when it is in the input and passes the
      predicate. */
  lemma {:induction false} FilteredMembership(resumes: seq<ResumeCard>, query: string, filters: Filters, r: ResumeCard)
    ensures r in FilterResumes(resumes, query, filters) <==> r in resumes && Keep(query, filters, r)
  {
    if resumes != [] {
      FilteredMembership(resumes[1..], query, filters, r);
      assert resumes == [resumes[0]] + resumes[1..];
    }
  }

  /** With an empty query and no filter ticked, every resume is listed. */
  lemma {:induction false} NoCriteriaKeepsAll(resumes: seq<ResumeCard>)
    ensures FilterResumes(resumes, "", Filters([], [], [])) == resumes
  {
    if resumes != [] {
      NoCriteriaKeepsAll(resumes[1..]);
      assert resumes == [resumes[0]] + resumes[1..];
    }
  }

  // ---------------------------------------------------------------------
  // The checkbox toggle

  function Values(f: Filters, t: FilterType): seq<string> {
    match t
    case Major => f.major
    case Company => f.company
    case GraduationYear => f.graduationYear
  }

  /** `{...prevFilters, [filterType]: vs}`. */
  function WithValues(f: Filters, t: FilterType, vs: seq<string>): (r: Filters)
    ensures Values(r, t) == vs
    ensures forall u :: u != t ==> Values(r, u) == Values(f, u)
  {
    match t
    case Major => f.(major := vs)
    case Company => f.(company := vs)
    case GraduationYear => f.(graduationYear := vs)
  }

  /** `xs.filter(v => v !== value)`. */
  function RemoveAll(xs: seq<string>, value: string): (r: seq<string>)
    ensures |r| <= |xs|
  {
    if xs == [] then []
    else
      var rest := RemoveAll(xs[1..], value);
      if xs[0] != value then [xs[0]] + rest else rest
  }

  /** Remove the value if it is selected, otherwise append it. */
  function Toggle(xs: seq<string>, value: string): seq<string> {
    if value in xs then RemoveAll(xs, value) else xs + [value]
  }

  /** `handleFilterChange(filterType, value)` applied to the previous filters. */
  function HandleFilterChange(f: Filters, t: FilterType, value: string): Filters {
    WithValues(f, t, Toggle(Values(f, t), value))
  }

  /** The elements `RemoveAll` keeps are exactly those different from the value. */
  lemma {:induction false} RemoveAllMembers(xs: seq<string>, value: string)
    ensures forall x :: x in RemoveAll(xs, value) <==> x in xs && x != value
  {
    if xs != [] {
      RemoveAllMembers(xs[1..], value);
      assert xs == [xs[0]] + xs[1..];
    }
  }

  /** Removing a value that is absent changes nothing. */
  lemma {:induction false} RemoveAllAbsent(xs: seq<string>, value: string)
    requires value !in xs
    ensures RemoveAll(xs, value) == xs
  {
    if xs != [] {
      assert forall x :: x in xs[1..] ==> x in xs;
      RemoveAllAbsent(xs[1..], value);
      assert xs == [xs[0]] + xs[1..];
    }
  }

  /** `RemoveAll` distributes over concatenation. */
  lemma {:induction false} RemoveAllAppend(xs: seq<string>, ys: seq<string>, value: string)
    ensures RemoveAll(xs + ys, value) == RemoveAll(xs, value) + RemoveAll(ys, value)
  {
    if xs == [] {
      assert xs + ys == ys;
    } else {
      assert (xs + ys)[1..] == xs[1..] + ys;
      RemoveAllAppend(xs[1..], ys, value);
    }
  }

  /** Removing keeps a duplicate-free list duplicate-free. */
  lemma {:induction false} RemoveAllDistinct(xs: seq<string>, value: string)
    requires NoDuplicates(xs)
    ensures NoDuplicates(RemoveAll(xs, value))
  {
    if xs != [] {
      assert NoDuplicates(xs[1..]) by {
        assert forall i :: 0 <= i < |xs| - 1 ==> xs[1..][i] == xs[i + 1];
      }
      RemoveAllDistinct(xs[1..], value);
      RemoveAllMembers(xs[1..], value);
      var rest := RemoveAll(xs[1..], value);
      if xs[0] != value {
        assert xs[0] !in xs[1..];
        assert xs[0] !in rest;
        var r := [xs[0]] + rest;
        forall i, j | 0 <= i < j < |r|
          ensures r[i] != r[j]
        {
          if i == 0 {
            assert r[j] == rest[j - 1];
          } else {
            assert r[i] == rest[i - 1] && r[j] == rest[j - 1];
          }
        }
      }
    }
  }

  /** What the toggle does to the chosen group: a selected value is removed
      everywhere, keeping the rest in order; an unselected one is appended.
      The other groups are unchanged. */
  lemma HandleFilterChangeEffect(f: Filters, t: FilterType, value: string)
    ensures var before, after := Values(f, t), Values(HandleFilterChange(f, t, value), t);
      && (value in before ==>
            && value !in after
            && (forall x :: x in after <==> x in before && x != value)
            && after == RemoveAll(before, value))
      && (value !in before ==> after == before + [value])
    ensures forall u :: u != t ==> Values(HandleFilterChange(f, t, value), u) == Values(f, u)
  {
    RemoveAllMembers(Values(f, t), value);
  }

  /** Ticking an unticked box and then unticking it restores the filters. */
  lemma ToggleTwiceRestores(f: Filters, t: FilterType, value: string)
    requires value !in Values(f, t)
    ensures HandleFilterChange(HandleFilterChange(f, t, value), t, value) == f
  {
    var xs := Values(f, t);
    RemoveAllAppend(xs, [value], value);
    RemoveAllAbsent(xs, value);
    assert RemoveAll([value], value) == [];
    assert Toggle(Toggle(xs, value), value) == xs;
  }

  /** Toggling never puts a duplicate into a duplicate-free group. */
  lemma ToggleKeepsDistinct(f: Filters, t: FilterType, value: string)
    requires NoDuplicates(Values(f, t))
    ensures NoDuplicates(Values(HandleFilterChange(f, t, value), t))
  {
    var xs := Values(f, t);
    if value in xs {
      RemoveAllDistinct(xs, value);
    } else {
      var r := xs + [value];
      forall i, j | 0 <= i < j < |r|
        ensures r[i] != r[j]
      {
        if j == |xs| {
          assert r[i] == xs[i];
        }
      }
    }
  }
}
