/** The skills search route (app/api/search/route.ts): the check of the
    `skills` query parameter, its parsing into terms, the any-of (`$in`)
    match against each record's stored skills, and the newest-first order.
    The database is two inputs, taken in the order the route uses them:
    whether `dbConnect()` succeeded, and what the query reads, `None` when
    `Resume.find` throws and otherwise the stored records in store order. */
module Search {
  import opened Wrappers
  import opened Text
  import opened Records
  import opened Ranking
  import opened Api

  const NoSkillsMessage: string := "No skills provided"
  const SearchFailedMessage: string := "Failed to search resumes"

  /** `skill.trim().toLowerCase()`. */
  function Normalize(s: string): (t: string)
    ensures |t| <= |s|
  {
    Lower(Trim(s))
  }

  /** `.map(skill => skill.trim().toLowerCase())`. */
  function NormalizeAll(xs: seq<string>): (ys: seq<string>)
    ensures |ys| == |xs|
    ensures forall i :: 0 <= i < |xs| ==> ys[i] == Normalize(xs[i])
  {
    if xs == [] then [] else [Normalize(xs[0])] + NormalizeAll(xs[1..])
  }

  /** `skills.split(',').map(skill => skill.trim().toLowerCase())`. */
  function ParseSkills(p: string): (terms: seq<string>)
    ensures |terms| == Count(p, ',') + 1
  {
    NormalizeAll(Split(p, ','))
  }

  /** `{ skills: { $in: terms } }` on an array field: some stored skill
      equals some term exactly. A record without skills never matches. */
  predicate MatchesAny(r: Resume, terms: seq<string>) {
    r.skills.Some? && exists i, j :: 0 <= i < |r.skills.value| && 0 <= j < |terms| && r.skills.value[i] == terms[j]
  }

  /** The matching records, in store order. */
  function Select(rs: seq<Resume>, terms: seq<string>): seq<Resume> {
    if rs == [] then []
    else (if MatchesAny(rs[0], terms) then [rs[0]] else []) + Select(rs[1..], terms)
  }

  /** The key of `.sort({ createdAt: -1 })`. */
  function CreatedAt(r: Resume): int {
    r.createdAt
  }

  /** The response of the route. `dbConnect` runs before the parameter is
      looked at, so a failed connection is a 500 even without skills;
      `!skills` rejects both an absent and an empty parameter before the
      query is issued, so a query that would fail plays no part then. */
  function SearchResponse(connected: bool, store: Option<seq<Resume>>, skills: Option<string>)
    : Response<seq<Resume>>
  {
    if !connected then Error(500, SearchFailedMessage)
    else if skills.None? || skills.value == "" then Error(400, NoSkillsMessage)
    else if store.None? then Error(500, SearchFailedMessage)
    else Ok(SortDesc(Select(store.value, ParseSkills(skills.value)), CreatedAt))
  }

  // =====================================================================
  // The parameter check

  /** Once connected, an absent or empty parameter is the 400 error
      whatever the query would give, failure included: no query is made. */
  lemma NoSkillsNoQuery(store: Option<seq<Resume>>, other: Option<seq<Resume>>, skills: Option<string>)
    requires skills.None? || skills.value == ""
    ensures SearchResponse(true, store, skills) == Error(400, NoSkillsMessage)
    ensures SearchResponse(true, store, skills) == SearchResponse(true, other, skills)
  {
  }

  /** A failed connection is the 500 error with or without a parameter; a
      failed query is the 500 error exactly when there is a non-empty
      parameter, since only then is it issued. */
  lemma DatabaseFailure(store: Option<seq<Resume>>, skills: Option<string>)
    ensures SearchResponse(false, store, skills) == Error(500, SearchFailedMessage)
    ensures SearchResponse(true, None, skills) == Error(500, SearchFailedMessage)
      <==> skills.Some? && skills.value != ""
  {
  }

  // =====================================================================
  // Parsing

  /** One term per comma-separated segment, each trimmed and lower case. */
  lemma ParseSkillsSpec(p: string)
    ensures |ParseSkills(p)| == Count(p, ',') + 1
    ensures forall i :: 0 <= i < |ParseSkills(p)| ==>
      IsTrimmed(ParseSkills(p)[i]) && IsLower(ParseSkills(p)[i])
  {
    var terms := ParseSkills(p);
    var pieces := Split(p, ',');
    forall i | 0 <= i < |terms| ensures IsTrimmed(terms[i]) && IsLower(terms[i]) {
      TrimSpec(pieces[i]);
      LowerKeepsTrimmed(Trim(pieces[i]));
      LowerIsLower(Trim(pieces[i]));
    }
  }

  /** The terms follow the segments in input order: the parameter written as
      the segments `xs` joined by commas parses to the normalised `xs`. */
  lemma ParseSkillsOrder(xs: seq<string>)
    requires |xs| > 0
    requires forall k :: 0 <= k < |xs| ==> ',' !in xs[k]
    ensures ParseSkills(Join(xs, ",")) == NormalizeAll(xs)
  {
    SplitJoin(xs, ',');
    assert [','] == ",";
  }

  /** A segment that is empty or only whitespace is kept, as the empty
      term, at its own position. */
  lemma BlankSegmentKept(xs: seq<string>, i: int)
    requires |xs| > 0
    requires forall k :: 0 <= k < |xs| ==> ',' !in xs[k]
    requires 0 <= i < |xs|
    requires forall m :: 0 <= m < |xs[i]| ==> IsWhite(xs[i][m])
    ensures |ParseSkills(Join(xs, ","))| == |xs|
    ensures ParseSkills(Join(xs, ","))[i] == ""
  {
    ParseSkillsOrder(xs);
    TrimSpec(xs[i]);
  }

  /** Two commas in a row keep the empty segment between them:
      "a,,b" parses to the normalised "a", "" and the normalised "b". */
  lemma EmptySegmentScenario(a: string, b: string)
    requires ',' !in a && ',' !in b
    ensures ParseSkills(a + ",," + b) == [Normalize(a), "", Normalize(b)]
  {
    var p := a + ",," + b;
    SplitDoubleComma(a, b);
    var t := ParseSkills(p);
    assert |t| == 3;
    assert t[0] == Normalize(a) && t[2] == Normalize(b);
    assert t[1] == Normalize("");
    assert Normalize("") == "";
  }

  lemma SplitDoubleComma(a: string, b: string)
    requires ',' !in a && ',' !in b
    ensures Split(a + ",," + b, ',') == [a, "", b]
  {
    assert a + ",," + b == a + [','] + ([','] + b);
    assert [','] + b == [] + [','] + b;
    SplitAround(a, [','] + b, ',');
    SplitAround([], b, ',');
    SplitNoSeparator(b, ',');
  }

  /** A parameter with no comma is the one term it spells, normalised. */
  lemma ParseSingleTerm(s: string)
    requires ',' !in s
    ensures ParseSkills(s) == [Normalize(s)]
  {
    SplitNoSeparator(s, ',');
  }

  /** Normalising a string without surrounding white space only lower-cases
      it. */
  lemma NormalizeTrimmed(s: string)
    requires IsTrimmed(s)
    ensures Normalize(s) == Lower(s)
  {
    TrimOfTrimmed(s);
  }

  // =====================================================================
  // Matching and order

  /** A record is selected exactly when it is stored and matches. */
  lemma {:induction false} SelectMembership(rs: seq<Resume>, terms: seq<string>, x: Resume)
    ensures x in Select(rs, terms) <==> x in rs && MatchesAny(x, terms)
  {
    if rs != [] {
      SelectMembership(rs[1..], terms, x);
      assert rs == [rs[0]] + rs[1..];
    }
  }

  /** Selection takes each stored record at most as often as it is stored. */
  lemma {:induction false} SelectSubMultiset(rs: seq<Resume>, terms: seq<string>)
    ensures multiset(Select(rs, terms)) <= multiset(rs)
  {
    if rs != [] {
      SelectSubMultiset(rs[1..], terms);
      assert rs == [rs[0]] + rs[1..];
    }
  }

  /** The successful response: exactly the stored records that have a skill
      equal to one of the parsed terms, without duplicates beyond the
      store's own, newest first. */
  lemma SearchResultSpec(store: seq<Resume>, skills: string)
    requires skills != ""
    ensures SearchResponse(true, Some(store), Some(skills)).Ok?
    ensures var out := SearchResponse(true, Some(store), Some(skills)).body;
      && (forall x :: x in out <==> x in store && MatchesAny(x, ParseSkills(skills)))
      && multiset(out) <= multiset(store)
      && SortedDesc(out, CreatedAt)
  {
    var terms := ParseSkills(skills);
    var sel := Select(store, terms);
    var out := SortDesc(sel, CreatedAt);
    assert SearchResponse(true, Some(store), Some(skills)) == Ok(out);
    SortDescSpec(sel, CreatedAt);
    SelectSubMultiset(store, terms);
    forall x ensures x in out <==> x in store && MatchesAny(x, terms) {
      SelectMembership(store, terms, x);
      SortDescMembers(sel, CreatedAt, x);
    }
  }

  /** A parameter without a comma finds exactly the records that store
      its normalised form. */
  lemma SingleTermMatch(s: string, r: Resume)
    requires ',' !in s
    ensures MatchesAny(r, ParseSkills(s)) <==> r.skills.Some? && Normalize(s) in r.skills.value
  {
    ParseSingleTerm(s);
    MatchesOne(r, Normalize(s));
  }

  /** Matching one term is holding it among the stored skills. */
  lemma MatchesOne(r: Resume, t: string)
    ensures MatchesAny(r, [t]) <==> r.skills.Some? && t in r.skills.value
  {
    if r.skills.Some? && t in r.skills.value {
      var i :| 0 <= i < |r.skills.value| && r.skills.value[i] == t;
      assert r.skills.value[i] == [t][0];
    }
  }

  /** Stored skills are not lower-cased: a skill stored with an upper-case
      letter and no surrounding white space is never found by itself. */
  lemma UpperCaseSkillMissed(s: string, r: Resume)
    requires ',' !in s && IsTrimmed(s)
    requires exists i :: 0 <= i < |s| && IsUpper(s[i])
    requires r.skills == Some([s])
    ensures !MatchesAny(r, ParseSkills(s))
  {
    SingleTermMatch(s, r);
    NormalizeTrimmed(s);
    var i :| 0 <= i < |s| && IsUpper(s[i]);
    assert Normalize(s)[i] != s[i];
  }

  /** A stored "Python" is not found by the parameter "Python". */
  lemma PythonScenario(r: Resume)
    requires r.skills == Some(["Python"])
    ensures !MatchesAny(r, ParseSkills("Python"))
  {
    assert IsUpper("Python"[0]);
    UpperCaseSkillMissed("Python", r);
  }
}
