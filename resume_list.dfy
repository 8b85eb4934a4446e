/** The client-side filter engine of the resume list: the skill vocabulary
    shown as toggle buttons, the conjunctive filter over search text,
    selected skills and experience level, and the skill toggle. */
module ResumeList {
  import opened Wrappers
  import opened Text

  /** The record shape the list reads. */
  datatype Listed = Listed(
    name: string,
    email: string,
    summary: Option<string>,
    skills: Option<seq<string>>,
    experience: string)

  /** The three pieces of filter state the list keeps. */
  datatype Criteria = Criteria(
    searchTerm: string,
    selectedSkills: seq<string>,
    selectedExperience: string)

  // =====================================================================
  // allSkills

  /** `resume.skills || []`. */
  function SkillsOf(r: Listed): seq<string> {
    r.skills.GetOr([])
  }

  /** `resumes.flatMap(resume => resume.skills || [])`. */
  function FlatSkills(rs: seq<Listed>): seq<string> {
    if rs == [] then [] else SkillsOf(rs[0]) + FlatSkills(rs[1..])
  }

  /** `Array.from(new Set(xs))`: every member of `xs`, each once. Which
      order the set keeps is not stated here: the vocabulary is sorted
      next, so only the members matter. */
  function Distinct(xs: seq<string>): (r: seq<string>)
    ensures forall x :: x in r <==> x in xs
    ensures NoDup(r)
  {
    if xs == [] then []
    else
      var d := Distinct(xs[..|xs| - 1]);
      var x := xs[|xs| - 1];
      assert xs == xs[..|xs| - 1] + [x];
      if x in d then d else d + [x]
  }

  predicate NoDup(xs: seq<string>) {
    forall i, j :: 0 <= i < j < |xs| ==> xs[i] != xs[j]
  }

  /** Ascending in the default string order (ties allowed). */
  predicate Sorted(xs: seq<string>) {
    forall i, j :: 0 <= i < j < |xs| ==> !Less(xs[j], xs[i])
  }

  /** Strictly ascending: each string appears once. */
  predicate StrictlySorted(xs: seq<string>) {
    forall i, j :: 0 <= i < j < |xs| ==> Less(xs[i], xs[j])
  }

  /** One step of the stable sort: `x` goes after every element not greater
      than it. */
  function InsertSorted(s: seq<string>, x: string): seq<string> {
    if s == [] then [x]
    else if !Less(x, s[|s| - 1]) then s + [x]
    else InsertSorted(s[..|s| - 1], x) + [s[|s| - 1]]
  }

  /** `xs.sort()` with the default comparison. */
  function SortStrings(xs: seq<string>): seq<string> {
    if xs == [] then []
    else InsertSorted(SortStrings(xs[..|xs| - 1]), xs[|xs| - 1])
  }

  /** The skill vocabulary of the list: lines 14-16. */
  function AllSkills(rs: seq<Listed>): seq<string> {
    SortStrings(Distinct(FlatSkills(rs)))
  }

  lemma InsertSortedSpec(s: seq<string>, x: string)
    requires Sorted(s)
    ensures multiset(InsertSorted(s, x)) == multiset(s) + multiset{x}
    ensures Sorted(InsertSorted(s, x))
  {
    InsertSortedPerm(s, x);
    InsertSortedOrder(s, x);
  }

  lemma {:induction false} InsertSortedPerm(s: seq<string>, x: string)
    ensures multiset(InsertSorted(s, x)) == multiset(s) + multiset{x}
  {
    if s != [] {
      var init, last := s[..|s| - 1], s[|s| - 1];
      assert s == init + [last];
      if Less(x, last) {
        InsertSortedPerm(init, x);
      }
    }
  }

  lemma {:induction false} InsertSortedOrder(s: seq<string>, x: string)
    requires Sorted(s)
    ensures Sorted(InsertSorted(s, x))
  {
    if s != [] {
      var init, last := s[..|s| - 1], s[|s| - 1];
      if !Less(x, last) {
        AppendNotLess(s, x);
      } else {
        assert Sorted(init);
        InsertSortedOrder(init, x);
        InsertSortedPerm(init, x);
        forall e | e in init ensures !Less(last, e) {
          var k :| 0 <= k < |init| && init[k] == e;
          assert s[k] == e;
        }
        AppendAfterInsert(InsertSorted(init, x), init, x, last);
      }
    }
  }

  /** Appending an element not below the last keeps a list sorted. */
  lemma AppendNotLess(s: seq<string>, x: string)
    requires s != [] && Sorted(s) && !Less(x, s[|s| - 1])
    ensures Sorted(s + [x])
  {
    var r := s + [x];
    forall i, j | 0 <= i < j < |r| ensures !Less(r[j], r[i]) {
      if j == |s| && i < |s| - 1 {
        assert r[i] == s[i] && !Less(s[|s| - 1], s[i]);
        NotLessTransitive(x, s[|s| - 1], s[i]);
      } else if j < |s| {
        assert r[i] == s[i] && r[j] == s[j];
      }
    }
  }

  /** `last` may follow the insertion of `x` into `init` when it is above
      `x` and not below any element of `init`. */
  lemma AppendAfterInsert(t: seq<string>, init: seq<string>, x: string, last: string)
    requires Sorted(t) && multiset(t) == multiset(init) + multiset{x}
    requires Less(x, last)
    requires forall e :: e in init ==> !Less(last, e)
    ensures Sorted(t + [last])
  {
    var r := t + [last];
    forall i, j | 0 <= i < j < |r| ensures !Less(r[j], r[i]) {
      if j == |t| {
        assert r[i] == t[i];
        assert t[i] in multiset(init) + multiset{x};
        if t[i] == x {
          LessAsymmetric(x, last);
        } else {
          assert t[i] in init;
        }
      } else {
        assert r[i] == t[i] && r[j] == t[j];
      }
    }
  }

  /** `!(b < a)` and `!(c < b)` give `!(c < a)`. */
  lemma NotLessTransitive(a: string, b: string, c: string)
    requires !Less(a, b) && !Less(b, c)
    ensures !Less(a, c)
  {
    if Less(a, c) {
      if a == b {
      } else if b == c {
      } else {
        LessTotal(a, b);
        LessTotal(b, c);
        LessTransitive(c, b, a);
        LessAsymmetric(a, c);
      }
    }
  }

  lemma {:induction false} SortStringsSpec(xs: seq<string>)
    ensures multiset(SortStrings(xs)) == multiset(xs)
    ensures Sorted(SortStrings(xs))
  {
    if xs != [] {
      var init := xs[..|xs| - 1];
      SortStringsSpec(init);
      InsertSortedSpec(SortStrings(init), xs[|xs| - 1]);
      assert xs == init + [xs[|xs| - 1]];
    }
  }

  lemma {:induction false} FlatSkillsMembership(rs: seq<Listed>, x: string)
    ensures x in FlatSkills(rs) <==>
      exists i :: 0 <= i < |rs| && rs[i].skills.Some? && x in rs[i].skills.value
  {
    if rs != [] {
      FlatSkillsMembership(rs[1..], x);
      if x in FlatSkills(rs[1..]) {
        var i :| 0 <= i < |rs[1..]| && rs[1..][i].skills.Some? && x in rs[1..][i].skills.value;
        assert rs[i + 1] == rs[1..][i];
      }
      if exists i :: 0 <= i < |rs| && rs[i].skills.Some? && x in rs[i].skills.value {
        var i :| 0 <= i < |rs| && rs[i].skills.Some? && x in rs[i].skills.value;
        if i > 0 {
          assert rs[1..][i - 1] == rs[i];
        }
      }
    }
  }

  lemma {:induction false} FlatSkillsAppend(a: seq<Listed>, b: seq<Listed>)
    ensures FlatSkills(a + b) == FlatSkills(a) + FlatSkills(b)
  {
    if a == [] {
      assert a + b == b;
    } else {
      assert (a + b)[1..] == a[1..] + b;
      FlatSkillsAppend(a[1..], b);
    }
  }

  /** A sorted sequence without duplicates is strictly sorted. */
  lemma SortedNoDupStrict(xs: seq<string>)
    requires Sorted(xs) && NoDup(xs)
    ensures StrictlySorted(xs)
  {
    forall i, j | 0 <= i < j < |xs| ensures Less(xs[i], xs[j]) {
      LessTotal(xs[i], xs[j]);
    }
  }

  /** Every skill of every resume is in the vocabulary, nothing else is,
      and the vocabulary is strictly ascending, so each skill appears
      exactly once however often it is repeated. */
  lemma AllSkillsSpec(rs: seq<Listed>)
    ensures forall x :: x in AllSkills(rs) <==>
      exists i :: 0 <= i < |rs| && rs[i].skills.Some? && x in rs[i].skills.value
    ensures StrictlySorted(AllSkills(rs))
    ensures forall x :: x in AllSkills(rs) ==> multiset(AllSkills(rs))[x] == 1
  {
    var d := Distinct(FlatSkills(rs));
    var v := AllSkills(rs);
    SortStringsSpec(d);
    forall x ensures x in v <==> x in d {
      assert x in v <==> x in multiset(v);
      assert x in d <==> x in multiset(d);
    }
    forall x ensures x in v <==>
      exists i :: 0 <= i < |rs| && rs[i].skills.Some? && x in rs[i].skills.value
    {
      FlatSkillsMembership(rs, x);
    }
    forall x ensures multiset(v)[x] <= 1 {
      MultisetOfDistinct(d, x);
    }
    NoDupFromMultiset(v);
    SortedNoDupStrict(v);
    forall x | x in v ensures multiset(v)[x] == 1 {
      MultisetOfDistinct(d, x);
    }
  }

  lemma {:induction false} MultisetOfDistinct(d: seq<string>, x: string)
    requires NoDup(d)
    ensures multiset(d)[x] <= 1
    ensures x in d ==> multiset(d)[x] == 1
  {
    if d != [] {
      var init := d[..|d| - 1];
      assert d == init + [d[|d| - 1]];
      MultisetOfDistinct(init, x);
      if x == d[|d| - 1] {
        assert x !in init;
      }
    }
  }

  /** A resume without a `skills` field contributes nothing, wherever it
      stands in the list. */
  lemma AbsentSkillsAddNothing(a: seq<Listed>, r: Listed, b: seq<Listed>)
    requires r.skills.None?
    ensures AllSkills(a + [r] + b) == AllSkills(a + b)
  {
    FlatSkillsAppend(a + [r], b);
    FlatSkillsAppend(a, [r]);
    FlatSkillsAppend(a, b);
    assert [r][1..] == [];
    assert FlatSkills([r]) == SkillsOf(r) + FlatSkills([]);
    assert FlatSkills(a + [r] + b) == FlatSkills(a) + FlatSkills(b);
  }

  /** Two strictly ascending sequences with the same elements are equal. */
  lemma {:induction false} StrictlySortedUnique(s: seq<string>, t: seq<string>)
    requires StrictlySorted(s) && StrictlySorted(t)
    requires forall x :: x in s <==> x in t
    ensures s == t
  {
    SameElementsBothEmpty(s, t);
    if s != [] && t != [] {
      if s[0] != t[0] {
        assert s[0] in s && t[0] in t;
        var k :| 0 <= k < |t| && t[k] == s[0];
        var m :| 0 <= m < |s| && s[m] == t[0];
        assert Less(t[0], s[0]);
        assert Less(s[0], t[0]);
        LessAsymmetric(s[0], t[0]);
      }
      forall x ensures x in s[1..] <==> x in t[1..] {
        if x in s[1..] {
          var i :| 0 <= i < |s[1..]| && s[1..][i] == x;
          assert Less(s[0], x);
          if x == s[0] { LessIrreflexive(x); }
          assert x in t;
        }
        if x in t[1..] {
          var i :| 0 <= i < |t[1..]| && t[1..][i] == x;
          assert Less(t[0], x);
          if x == t[0] { LessIrreflexive(x); }
          assert x in s;
        }
      }
      StrictlySortedUnique(s[1..], t[1..]);
      assert s == [s[0]] + s[1..] && t == [t[0]] + t[1..];
    }
  }

  lemma SameElementsBothEmpty(s: seq<string>, t: seq<string>)
    requires forall x :: x in s <==> x in t
    ensures s == [] <==> t == []
  {
    if s != [] {
      assert s[0] in t;
    }
    if t != [] {
      assert t[0] in s;
    }
  }

  /** The vocabulary depends only on which resumes are present, not on
      their order or repetition. */
  lemma AllSkillsOrderIndependent(rs: seq<Listed>, qs: seq<Listed>)
    requires forall r :: r in rs <==> r in qs
    ensures AllSkills(rs) == AllSkills(qs)
  {
    AllSkillsSpec(rs);
    AllSkillsSpec(qs);
    forall x ensures x in AllSkills(rs) <==> x in AllSkills(qs) {
      if exists i :: 0 <= i < |rs| && rs[i].skills.Some? && x in rs[i].skills.value {
        var i :| 0 <= i < |rs| && rs[i].skills.Some? && x in rs[i].skills.value;
        assert rs[i] in rs;
        var j :| 0 <= j < |qs| && qs[j] == rs[i];
      }
      if exists j :: 0 <= j < |qs| && qs[j].skills.Some? && x in qs[j].skills.value {
        var j :| 0 <= j < |qs| && qs[j].skills.Some? && x in qs[j].skills.value;
        assert qs[j] in qs;
        var i :| 0 <= i < |rs| && rs[i] == qs[j];
      }
    }
    StrictlySortedUnique(AllSkills(rs), AllSkills(qs));
  }

  // =====================================================================
  // filteredResumes

  /** Case-insensitive substring match on name, email or summary; a
      missing summary does not match. */
  predicate MatchesSearch(r: Listed, term: string) {
    var q := Lower(term);
    || Contains(Lower(r.name), q)
    || Contains(Lower(r.email), q)
    || (r.summary.Some? && Contains(Lower(r.summary.value), q))
  }

  /** Every selected skill is among the resume's skills. */
  predicate MatchesSkills(r: Listed, selected: seq<string>) {
    |selected| == 0 ||
    forall s :: s in selected ==> r.skills.Some? && s in r.skills.value
  }

  /** No selected level, or exactly that level. */
  predicate MatchesExperience(r: Listed, selected: string) {
    selected == "" || r.experience == selected
  }

  predicate Matches(r: Listed, c: Criteria) {
    && MatchesSearch(r, c.searchTerm)
    && MatchesSkills(r, c.selectedSkills)
    && MatchesExperience(r, c.selectedExperience)
  }

  /** `resumes.filter(...)`: lines 25-37. */
  function FilterResumes(rs: seq<Listed>, c: Criteria): seq<Listed> {
    if rs == [] then []
    else (if Matches(rs[0], c) then [rs[0]] else []) + FilterResumes(rs[1..], c)
  }

  /** The output is an order-preserving subsequence of the input, picked out
      by strictly increasing positions, and a position is picked exactly when
      its resume matches: the result is the matching resumes, in order. */
  lemma {:induction false} FilterPositions(rs: seq<Listed>, c: Criteria) returns (pos: seq<int>)
    ensures |pos| == |FilterResumes(rs, c)|
    ensures forall k :: 0 <= k < |pos| ==> 0 <= pos[k] < |rs| && FilterResumes(rs, c)[k] == rs[pos[k]]
    ensures forall k, l :: 0 <= k < l < |pos| ==> pos[k] < pos[l]
    ensures forall i :: 0 <= i < |rs| ==> (i in pos <==> Matches(rs[i], c))
  {
    if rs == [] {
      return [];
    }
    var tail := FilterPositions(rs[1..], c);
    var rest := FilterResumes(rs[1..], c);
    if Matches(rs[0], c) {
      assert FilterResumes(rs, c) == [rs[0]] + rest;
      pos := ConsKeep(rs, tail, rest);
    } else {
      assert FilterResumes(rs, c) == rest;
      pos := ConsSkip(rs, tail, rest);
    }
  }

  /** The positions for `rs` from those for `rs[1..]`, with the head
      dropped. */
  lemma ConsSkip(rs: seq<Listed>, tail: seq<int>, rest: seq<Listed>) returns (pos: seq<int>)
    requires rs != []
    requires |tail| == |rest|
    requires forall k :: 0 <= k < |tail| ==> 0 <= tail[k] < |rs| - 1 && rest[k] == rs[1..][tail[k]]
    requires forall k, l :: 0 <= k < l < |tail| ==> tail[k] < tail[l]
    ensures |pos| == |rest|
    ensures forall k :: 0 <= k < |pos| ==> 1 <= pos[k] < |rs| && rest[k] == rs[pos[k]]
    ensures forall k, l :: 0 <= k < l < |pos| ==> pos[k] < pos[l]
    ensures forall i :: 1 <= i < |rs| ==> (i in pos <==> i - 1 in tail)
  {
    pos := Shift(tail);
    forall i | 1 <= i < |rs| ensures i in pos <==> i - 1 in tail {
      ShiftMembership(tail, i);
    }
  }

  /** The positions for `rs` from those for `rs[1..]`, with the head
      kept. */
  lemma ConsKeep(rs: seq<Listed>, tail: seq<int>, rest: seq<Listed>) returns (pos: seq<int>)
    requires rs != []
    requires |tail| == |rest|
    requires forall k :: 0 <= k < |tail| ==> 0 <= tail[k] < |rs| - 1 && rest[k] == rs[1..][tail[k]]
    requires forall k, l :: 0 <= k < l < |tail| ==> tail[k] < tail[l]
    ensures |pos| == |rest| + 1 && pos[0] == 0
    ensures forall k :: 0 <= k < |pos| ==> 0 <= pos[k] < |rs| && ([rs[0]] + rest)[k] == rs[pos[k]]
    ensures forall k, l :: 0 <= k < l < |pos| ==> pos[k] < pos[l]
    ensures forall i :: 1 <= i < |rs| ==> (i in pos <==> i - 1 in tail)
  {
    var shifted := ConsSkip(rs, tail, rest);
    pos := [0] + shifted;
    forall i | 1 <= i < |rs| ensures i in pos <==> i in shifted {
    }
  }

  function Shift(xs: seq<int>): (r: seq<int>)
    ensures |r| == |xs|
    ensures forall k :: 0 <= k < |xs| ==> r[k] == xs[k] + 1
  {
    if xs == [] then [] else [xs[0] + 1] + Shift(xs[1..])
  }

  lemma ShiftMembership(xs: seq<int>, i: int)
    ensures i in Shift(xs) <==> i - 1 in xs
  {
    if i - 1 in xs {
      var k :| 0 <= k < |xs| && xs[k] == i - 1;
      assert Shift(xs)[k] == i;
    }
  }

  lemma FilterMembership(rs: seq<Listed>, c: Criteria, r: Listed)
    ensures r in FilterResumes(rs, c) <==> r in rs && Matches(r, c)
  {
    var pos := FilterPositions(rs, c);
    var out := FilterResumes(rs, c);
    if r in out {
      var k :| 0 <= k < |out| && out[k] == r;
      assert pos[k] in pos;
    }
    if r in rs && Matches(r, c) {
      var i :| 0 <= i < |rs| && rs[i] == r;
      var k :| 0 <= k < |pos| && pos[k] == i;
    }
  }

  /** An empty search term matches every resume. */
  lemma EmptySearchMatchesAll(r: Listed)
    ensures MatchesSearch(r, "")
  {
    ContainsEmpty(Lower(r.name));
  }

  /** With no search text, no selected skill and no level, every resume is
      shown, in order. */
  lemma {:induction false} NoCriteriaKeepsAll(rs: seq<Listed>)
    ensures FilterResumes(rs, Criteria("", [], "")) == rs
  {
    if rs != [] {
      EmptySearchMatchesAll(rs[0]);
      NoCriteriaKeepsAll(rs[1..]);
      assert [rs[0]] + rs[1..] == rs;
    }
  }

  /** Filtering by the conjunction is filtering by one criterion and then
      the other. */
  lemma {:induction false} FilterConjunction(rs: seq<Listed>, c: Criteria, a: Criteria, b: Criteria)
    requires forall r :: Matches(r, c) <==> Matches(r, a) && Matches(r, b)
    ensures FilterResumes(rs, c) == FilterResumes(FilterResumes(rs, a), b)
  {
    if rs != [] {
      FilterConjunction(rs[1..], c, a, b);
      var head := if Matches(rs[0], a) then [rs[0]] else [];
      FilterAppend(head, FilterResumes(rs[1..], a), b);
      if Matches(rs[0], a) {
        assert ([rs[0]] + [])[1..] == [];
      }
    }
  }

  lemma {:induction false} FilterAppend(x: seq<Listed>, y: seq<Listed>, c: Criteria)
    ensures FilterResumes(x + y, c) == FilterResumes(x, c) + FilterResumes(y, c)
  {
    if x == [] {
      assert x + y == y;
    } else {
      assert (x + y)[1..] == x[1..] + y;
      FilterAppend(x[1..], y, c);
    }
  }

  /** The three predicates are independent: the list shown is the list
      narrowed by the search text, then by the skills, then by the level. */
  lemma FilterIsThreeFilters(rs: seq<Listed>, c: Criteria)
    ensures FilterResumes(rs, c) ==
      FilterResumes(FilterResumes(FilterResumes(rs,
        Criteria(c.searchTerm, [], "")),
        Criteria("", c.selectedSkills, "")),
        Criteria("", [], c.selectedExperience))
  {
    var s := Criteria(c.searchTerm, [], "");
    var k := Criteria("", c.selectedSkills, "");
    var e := Criteria("", [], c.selectedExperience);
    var sk := Criteria(c.searchTerm, c.selectedSkills, "");
    forall r ensures Matches(r, c) <==> Matches(r, sk) && Matches(r, e) {
      EmptySearchMatchesAll(r);
    }
    forall r ensures Matches(r, sk) <==> Matches(r, s) && Matches(r, k) {
      EmptySearchMatchesAll(r);
    }
    FilterConjunction(rs, c, sk, e);
    FilterConjunction(rs, sk, s, k);
  }

  /** Applying the same filter twice changes nothing. */
  lemma FilterIdempotent(rs: seq<Listed>, c: Criteria)
    ensures FilterResumes(FilterResumes(rs, c), c) == FilterResumes(rs, c)
  {
    FilterConjunction(rs, c, c, c);
  }

  // =====================================================================
  // handleSkillToggle

  /** `prev.filter(s => s !== skill)`. */
  function Remove(xs: seq<string>, x: string): seq<string> {
    if xs == [] then []
    else (if xs[0] == x then [] else [xs[0]]) + Remove(xs[1..], x)
  }

  /** The selection after clicking `skill`: lines 39-45. */
  function ToggleSkill(prev: seq<string>, skill: string): seq<string> {
    if skill in prev then Remove(prev, skill) else prev + [skill]
  }

  lemma RemoveSpec(xs: seq<string>, x: string)
    ensures multiset(Remove(xs, x))[x] == 0
    ensures forall y :: y != x ==> multiset(Remove(xs, x))[y] == multiset(xs)[y]
    ensures !(x in xs) ==> Remove(xs, x) == xs
  {
    forall y ensures multiset(Remove(xs, x))[y] == if y == x then 0 else multiset(xs)[y] {
      RemoveCount(xs, x, y);
    }
    if x !in xs {
      RemoveAbsent(xs, x);
    }
  }

  lemma {:induction false} RemoveCount(xs: seq<string>, x: string, y: string)
    ensures multiset(Remove(xs, x))[y] == if y == x then 0 else multiset(xs)[y]
  {
    if xs != [] {
      RemoveCount(xs[1..], x, y);
      assert xs == [xs[0]] + xs[1..];
    }
  }

  lemma {:induction false} RemoveAbsent(xs: seq<string>, x: string)
    requires x !in xs
    ensures Remove(xs, x) == xs
  {
    if xs != [] {
      RemoveAbsent(xs[1..], x);
      assert xs == [xs[0]] + xs[1..];
    }
  }

  /** Toggling flips the membership of `skill` and keeps every other
      selected skill with its multiplicity. An absent skill is appended at
      the end; a present one loses all its occurrences. */
  lemma ToggleSpec(prev: seq<string>, skill: string)
    ensures skill in ToggleSkill(prev, skill) <==> skill !in prev
    ensures skill in prev ==> multiset(ToggleSkill(prev, skill))[skill] == 0
    ensures skill !in prev ==> ToggleSkill(prev, skill) == prev + [skill]
    ensures forall y :: y != skill ==> multiset(ToggleSkill(prev, skill))[y] == multiset(prev)[y]
  {
    RemoveSpec(prev, skill);
    if skill in prev {
      assert skill !in multiset(Remove(prev, skill));
    }
  }

  /** Clicking an unselected skill twice restores the selection exactly. */
  lemma ToggleTwiceRestores(prev: seq<string>, skill: string)
    requires skill !in prev
    ensures ToggleSkill(ToggleSkill(prev, skill), skill) == prev
  {
    RemoveAppend(prev, [skill], skill);
    RemoveSpec(prev, skill);
    assert Remove([skill], skill) == [];
  }

  lemma {:induction false} RemoveAppend(a: seq<string>, b: seq<string>, x: string)
    ensures Remove(a + b, x) == Remove(a, x) + Remove(b, x)
  {
    if a == [] {
      assert a + b == b;
    } else {
      assert (a + b)[1..] == a[1..] + b;
      RemoveAppend(a[1..], b, x);
    }
  }

  /** A selection without duplicates stays without duplicates. */
  lemma ToggleKeepsNoDup(prev: seq<string>, skill: string)
    requires NoDup(prev)
    ensures NoDup(ToggleSkill(prev, skill))
  {
    var t := ToggleSkill(prev, skill);
    ToggleSpec(prev, skill);
    if skill in prev {
      NoDupByMultiset(prev);
      NoDupFromMultiset(t);
    }
  }

  lemma {:induction false} NoDupByMultiset(xs: seq<string>)
    requires NoDup(xs)
    ensures forall y :: multiset(xs)[y] <= 1
  {
    forall y ensures multiset(xs)[y] <= 1 {
      MultisetOfDistinct(xs, y);
    }
  }

  /** At most one occurrence of each value means no duplicates. */
  lemma NoDupFromMultiset(v: seq<string>)
    requires forall x :: multiset(v)[x] <= 1
    ensures NoDup(v)
  {
    forall i, j | 0 <= i < j < |v| ensures v[i] != v[j] {
      if v[i] == v[j] {
        TwoOccurrences(v, i, j);
      }
    }
  }

  lemma TwoOccurrences(t: seq<string>, i: int, j: int)
    requires 0 <= i < j < |t| && t[i] == t[j]
    ensures multiset(t)[t[i]] >= 2
  {
    assert t == t[..j] + t[j..];
    assert t[i] in multiset(t[..j]);
    assert t[j] in multiset(t[j..]);
    assert multiset(t) == multiset(t[..j]) + multiset(t[j..]);
  }

  // =====================================================================
  // Scenario

  /** Searching "ann" keeps every resume whose name starts with "Ann", such
      as "Anna Lee", whatever its other fields: the match ignores case. */
  lemma SearchScenarioKept(r: Listed)
    requires |r.name| >= 3 && r.name[..3] == "Ann"
    ensures MatchesSearch(r, "ann")
  {
    LowerOfLower("ann");
    var low := Lower(r.name);
    assert r.name[0] == 'A' && r.name[1] == 'n' && r.name[2] == 'n';
    assert low[0..3] == "ann";
    assert OccursAt(low, "ann", 0);
  }

  /** Searching "ann" drops every resume whose name, email and summary (if
      any) have no letter a in either case, such as "Bob Smith" at
      bob@x.io, whatever its skills and level. */
  lemma SearchScenarioDropped(r: Listed)
    requires forall i :: 0 <= i < |r.name| ==> r.name[i] != 'a' && r.name[i] != 'A'
    requires forall i :: 0 <= i < |r.email| ==> r.email[i] != 'a' && r.email[i] != 'A'
    requires r.summary.Some? ==>
      forall i :: 0 <= i < |r.summary.value| ==> r.summary.value[i] != 'a' && r.summary.value[i] != 'A'
    ensures !MatchesSearch(r, "ann")
  {
    LowerOfLower("ann");
    NoLetterNoMatch(r.name);
    NoLetterNoMatch(r.email);
    if r.summary.Some? {
      NoLetterNoMatch(r.summary.value);
    }
  }

  lemma NoLetterNoMatch(s: string)
    requires forall i :: 0 <= i < |s| ==> s[i] != 'a' && s[i] != 'A'
    ensures !Contains(Lower(s), "ann")
  {
    forall i | 0 <= i && i + 3 <= |s| ensures !OccursAt(Lower(s), "ann", i) {
      assert Lower(s)[i..i + 3][0] == Lower(s)[i] != 'a';
    }
  }
}
