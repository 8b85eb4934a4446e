/** The job-description match route (app/api/match-jd/route.ts): the
    request checks, the per-resume annotation with the model's score and
    explanation, the all-or-nothing failure, and the in-place sort by
    descending score. The model's answer for each resume (already cleaned
    and parsed) is an input: `None` when the call or the parse failed. */
module MatchJd {
  import opened Wrappers
  import opened Records
  import opened Ranking
  import opened Api

  /** `{ score, explanation }` as parsed from the model's reply. */
  datatype Verdict = Verdict(score: int, explanation: string)

  /** `JSON.parse(data.get("resumes"))`: a parse error, a value that is not
      an array (including the `null` an absent field parses to), or an
      array of records. */
  datatype ResumesField = Malformed | NotAnArray | Parsed(resumes: seq<Resume>)

  /** The request body: `request.formData()` throws, or yields the
      `jdFile` field and the `resumes` field as `JSON.parse` left it. */
  datatype Form = Unreadable | Fields(jdFile: FileField, resumesField: ResumesField)

  const NoJdMessage: string := "No JD file provided"
  const FailureMessage: string := "Failed to process job description"

  /** What reading the uploaded job description yields: the DOCX
      extractor's text (`None` when it throws) and `buffer.toString()`. */
  datatype JdBytes = JdBytes(docxText: Option<string>, decoded: string)

  /** `jdContent` (lines 30-35): DOCX files go through text extraction (its
      failure giving ""), every other type is the buffer decoded as text. */
  function JdContent(mimeType: string, w: JdBytes): string {
    if mimeType == DocxMime then ExtractTextFromDocx(w.docxText) else w.decoded
  }

  /** The job-description text the route computes for the prompts, or
      `None` when it returns or throws before line 30: an unreadable body,
      a malformed `resumes` field, or a file field that is not an upload. */
  function JdText(form: Form, w: JdBytes): Option<string> {
    if form.Unreadable? || form.resumesField.Malformed? || !form.jdFile.Upload? then None
    else Some(JdContent(form.jdFile.mimeType, w))
  }

  /** The prompt dereferences `personalInfo.name`, `skills.join`,
      `experience.map` and each job's `responsibilities.join`; a record
      without one of these makes the prompt throw. */
  predicate PromptReady(r: Resume) {
    && r.personalInfo.Some?
    && r.skills.Some?
    && r.experience.Some?
    && forall j :: j in r.experience.value ==> j.responsibilities.Some?
  }

  /** `{...resume, matchScore, matchExplanation}`: the two keys set, every
      other field as it was. */
  function Annotate(r: Resume, v: Verdict): (a: Resume)
    ensures a.matchScore == Some(v.score) && a.matchExplanation == Some(v.explanation)
    ensures a.(matchScore := r.matchScore, matchExplanation := r.matchExplanation) == r
  {
    r.(matchScore := Some(v.score), matchExplanation := Some(v.explanation))
  }

  /** The `Promise.all` over the per-resume steps, taken in order: it
      succeeds only if every step does, and then annotates every record. */
  function AnnotateAll(rs: seq<Resume>, vs: seq<Option<Verdict>>): (r: Option<seq<Resume>>)
    requires |vs| == |rs|
    ensures r.Some? <==> forall i :: 0 <= i < |rs| ==> PromptReady(rs[i]) && vs[i].Some?
    ensures r.Some? ==> (|r.value| == |rs|
      && forall i :: 0 <= i < |rs| ==> r.value[i] == Annotate(rs[i], vs[i].value))
  {
    if rs == [] then Some([])
    else if !PromptReady(rs[0]) || vs[0].None? then None
    else
      match AnnotateAll(rs[1..], vs[1..])
      case None => None
      case Some(t) => Some([Annotate(rs[0], vs[0].value)] + t)
  }

  /** The key the comparator `(a, b) => b.matchScore - a.matchScore` sorts
      by. */
  function Score(r: Resume): int {
    r.matchScore.GetOr(0)
  }

  /** The verdicts line up with the records, when there are records. */
  predicate VerdictsFit(form: Form, vs: seq<Option<Verdict>>) {
    form.Fields? && form.resumesField.Parsed? ==> |vs| == |form.resumesField.resumes|
  }

  /** The response the route produces: lines 17-84. An unreadable body is
      a 500; the `resumes` field is parsed before the file is checked, so a
      malformed field is a 500 even without a file; a non-empty string in
      place of the file passes `!jdFile` and then throws at `arrayBuffer()`;
      a value that is not an array throws at `resumes.map`. */
  function MatchResponse(form: Form, vs: seq<Option<Verdict>>): Response<seq<Resume>>
    requires VerdictsFit(form, vs)
  {
    if form.Unreadable? then Error(500, FailureMessage)
    else if form.resumesField.Malformed? then Error(500, FailureMessage)
    else if NoFile(form.jdFile) then Error(400, NoJdMessage)
    else if form.jdFile.TextValue? then Error(500, FailureMessage)
    else if form.resumesField.NotAnArray? then Error(500, FailureMessage)
    else
      match AnnotateAll(form.resumesField.resumes, vs)
      case None => Error(500, FailureMessage)
      case Some(annotated) => Ok(SortDesc(annotated, Score))
  }

  /** `rankedResumes.sort((a, b) => b.matchScore - a.matchScore)`: a stable
      insertion sort in place. */
  method RankInPlace(a: array<Resume>)
    modifies a
    ensures a[..] == SortDesc(old(a[..]), Score)
  {
    ghost var input := a[..];
    var i := 0;
    while i < a.Length
      invariant 0 <= i <= a.Length
      invariant a[..i] == SortDesc(input[..i], Score)
      invariant a[i..] == input[i..]
    {
      assert input[..i + 1][..i] == input[..i];
      assert a[i] == input[i];
      InsertLast(a, i);
      i := i + 1;
    }
    assert input[..a.Length] == input;
  }

  /** Moves `a[i]` left past every element of the sorted prefix `a[..i]`
      with a smaller score. */
  method InsertLast(a: array<Resume>, i: int)
    requires 0 <= i < a.Length
    modifies a
    ensures a[..i + 1] == Insert(old(a[..i]), old(a[i]), Score)
    ensures a[i + 1..] == old(a[i + 1..])
  {
    var x := a[i];
    ghost var sorted := a[..i];
    var j := ShiftSmaller(a, i, x);
    a[j] := x;
    InsertAt(sorted, x, j);
    Placed(a[..i + 1], sorted, x, j);
  }

  /** The array after the shift and the store, read as a sequence. */
  lemma Placed(b: seq<Resume>, sorted: seq<Resume>, x: Resume, j: int)
    requires |b| == |sorted| + 1 && 0 <= j <= |sorted|
    requires forall k :: 0 <= k < j ==> b[k] == sorted[k]
    requires b[j] == x
    requires forall k :: j < k < |b| ==> b[k] == sorted[k - 1]
    ensures b == sorted[..j] + [x] + sorted[j..]
  {
    forall k | 0 <= k < |b| ensures b[k] == (sorted[..j] + [x] + sorted[j..])[k] {
      if k > j {
        assert (sorted[..j] + [x] + sorted[j..])[k] == sorted[k - 1];
      }
    }
  }

  /** The inner loop: shifts one place right the run of elements just
      before `a[i]` whose score is below that of `x`, and returns where that
      run began. */
  method ShiftSmaller(a: array<Resume>, i: int, x: Resume) returns (j: int)
    requires 0 <= i < a.Length
    modifies a
    ensures 0 <= j <= i
    ensures j == 0 || Score(a[j - 1]) >= Score(x)
    ensures forall k :: j <= k < i ==> Score(old(a[k])) < Score(x)
    ensures forall k :: 0 <= k < j ==> a[k] == old(a[k])
    ensures forall k :: j < k <= i ==> a[k] == old(a[k - 1])
    ensures forall k :: i < k < a.Length ==> a[k] == old(a[k])
  {
    j := i;
    while j > 0 && Score(a[j - 1]) < Score(x)
      invariant 0 <= j <= i
      invariant forall k :: j <= k < i ==> Score(old(a[k])) < Score(x)
      invariant forall k :: 0 <= k < j ==> a[k] == old(a[k])
      invariant forall k :: j < k <= i ==> a[k] == old(a[k - 1])
      invariant forall k :: i < k < a.Length ==> a[k] == old(a[k])
    {
      a[j] := a[j - 1];
      j := j - 1;
    }
  }

  /** Where the insertion step puts `x`: after the last element with a
      score at least its own, when all later ones score less. */
  lemma {:induction false} InsertAt(s: seq<Resume>, x: Resume, j: int)
    requires 0 <= j <= |s|
    requires j == 0 || Score(s[j - 1]) >= Score(x)
    requires forall k :: j <= k < |s| ==> Score(s[k]) < Score(x)
    ensures Insert(s, x, Score) == s[..j] + [x] + s[j..]
    decreases |s|
  {
    if |s| == j {
      assert s[..j] == s && s[j..] == [];
    } else {
      var init := s[..|s| - 1];
      InsertAt(init, x, j);
      assert init[..j] == s[..j];
      assert init[j..] + [s[|s| - 1]] == s[j..];
    }
  }

  /** The route: the checks, then the annotation, then a fresh array sorted
      in place. */
  method HandleMatch(form: Form, w: JdBytes, vs: seq<Option<Verdict>>)
    returns (resp: Response<seq<Resume>>, jdContent: Option<string>)
    requires VerdictsFit(form, vs)
    ensures resp == MatchResponse(form, vs)
    ensures jdContent == JdText(form, w)
  {
    jdContent := None;
    if form.Unreadable? {
      return Error(500, FailureMessage), jdContent;
    }
    var jdFile := form.jdFile;
    var resumes := form.resumesField;
    if resumes.Malformed? {
      return Error(500, FailureMessage), jdContent;
    }
    if jdFile.Absent? || jdFile == TextValue("") {
      return Error(400, NoJdMessage), jdContent;
    }
    if jdFile.TextValue? {
      return Error(500, FailureMessage), jdContent;
    }
    var text := "";
    if jdFile.mimeType == DocxMime {
      text := ExtractTextFromDocx(w.docxText);
    } else {
      text := w.decoded;
    }
    jdContent := Some(text);
    if resumes.NotAnArray? {
      return Error(500, FailureMessage), jdContent;
    }
    var annotated := AnnotateAll(resumes.resumes, vs);
    if annotated.None? {
      return Error(500, FailureMessage), jdContent;
    }
    var xs := annotated.value;
    var ranked := new Resume[|xs|](k requires 0 <= k < |xs| => xs[k]);
    assert ranked[..] == xs;
    RankInPlace(ranked);
    return Ok(ranked[..]), jdContent;
  }

  // =====================================================================
  // Properties of the response

  /** The order of the checks: an unreadable body is a 500; a malformed
      `resumes` field is a 500 whatever the file field holds; with a
      parsable field, no file or an empty string is the 400, a non-empty
      string is a 500, and an upload with a field that is not an array is a
      500. The 400 comes from the file check alone. */
  lemma ValidationOrder(f: FileField, field: ResumesField, vs: seq<Option<Verdict>>)
    requires VerdictsFit(Fields(f, field), vs)
    ensures MatchResponse(Unreadable, vs) == Error(500, FailureMessage)
    ensures field.Malformed? ==> MatchResponse(Fields(f, field), vs) == Error(500, FailureMessage)
    ensures !field.Malformed? && NoFile(f) ==> MatchResponse(Fields(f, field), vs) == Error(400, NoJdMessage)
    ensures !field.Malformed? && f.TextValue? && f.value != "" ==>
      MatchResponse(Fields(f, field), vs) == Error(500, FailureMessage)
    ensures field.NotAnArray? && f.Upload? ==> MatchResponse(Fields(f, field), vs) == Error(500, FailureMessage)
    ensures MatchResponse(Fields(f, field), vs).Error? && MatchResponse(Fields(f, field), vs).status == 400
      <==> !field.Malformed? && NoFile(f)
  {
  }

  /** The job-description text is computed exactly for an upload in a
      readable body whose `resumes` field parses, whatever the response then
      is. A DOCX description is the extracted text, or "" when extraction
      fails; any other type is the decoded buffer, and the extractor plays
      no part. */
  lemma JobDescriptionText(form: Form, w: JdBytes)
    ensures JdText(form, w).Some? <==>
      form.Fields? && !form.resumesField.Malformed? && form.jdFile.Upload?
    ensures JdText(form, w).Some? && form.jdFile.mimeType == DocxMime ==>
      JdText(form, w) == Some(if w.docxText.Some? then w.docxText.value else "")
    ensures JdText(form, w).Some? && form.jdFile.mimeType != DocxMime ==>
      JdText(form, w) == Some(w.decoded) && JdText(form, w) == JdText(form, w.(docxText := None))
  {
  }

  /** A failed DOCX extraction does not stop the request: the text is ""
      and the response is the one the verdicts give, a ranking when every
      step succeeds. */
  lemma ExtractionFailureGoesOn(rs: seq<Resume>, w: JdBytes, vs: seq<Option<Verdict>>)
    requires |vs| == |rs| && w.docxText.None?
    requires forall i :: 0 <= i < |rs| ==> PromptReady(rs[i]) && vs[i].Some?
    ensures JdText(Fields(Upload(DocxMime), Parsed(rs)), w) == Some("")
    ensures MatchResponse(Fields(Upload(DocxMime), Parsed(rs)), vs).Ok?
  {
  }

  /** All or nothing: with a file and an array of records, the route
      answers with a ranking exactly when every record can be prompted and
      every model call succeeded, and otherwise with the 500 error and no
      partial ranking. */
  lemma AllOrNothing(rs: seq<Resume>, mimeType: string, vs: seq<Option<Verdict>>)
    requires |vs| == |rs|
    ensures MatchResponse(Fields(Upload(mimeType), Parsed(rs)), vs).Ok? <==>
      forall i :: 0 <= i < |rs| ==> PromptReady(rs[i]) && vs[i].Some?
    ensures !MatchResponse(Fields(Upload(mimeType), Parsed(rs)), vs).Ok? ==>
      MatchResponse(Fields(Upload(mimeType), Parsed(rs)), vs) == Error(500, FailureMessage)
  {
  }

  /** A successful ranking: as many records as were sent, each one an input
      record with only its score and explanation set, together a permutation
      of the annotated records; scores never increase along it, and records
      with equal scores keep their input order. */
  lemma RankingSpec(rs: seq<Resume>, mimeType: string, vs: seq<Option<Verdict>>)
    requires |vs| == |rs|
    requires MatchResponse(Fields(Upload(mimeType), Parsed(rs)), vs).Ok?
    ensures var out := MatchResponse(Fields(Upload(mimeType), Parsed(rs)), vs).body;
      var annotated := seq(|rs|, i requires 0 <= i < |rs| => Annotate(rs[i], vs[i].value));
      && |out| == |rs|
      && multiset(out) == multiset(annotated)
      && (forall k :: 0 <= k < |out| ==> exists i :: 0 <= i < |rs| && out[k] == Annotate(rs[i], vs[i].value))
      && SortedDesc(out, Score)
      && (forall s :: WithKey(out, Score, s) == WithKey(annotated, Score, s))
  {
    var annotated := AnnotateAll(rs, vs).value;
    assert annotated == seq(|rs|, i requires 0 <= i < |rs| => Annotate(rs[i], vs[i].value));
    SortDescSpec(annotated, Score);
    RankedFromInputs(rs, vs, annotated);
  }

  /** Every element of the sorted annotation is some input record,
      annotated. */
  lemma RankedFromInputs(rs: seq<Resume>, vs: seq<Option<Verdict>>, annotated: seq<Resume>)
    requires |vs| == |rs| == |annotated|
    requires forall i :: 0 <= i < |rs| ==> vs[i].Some? && annotated[i] == Annotate(rs[i], vs[i].value)
    ensures var out := SortDesc(annotated, Score);
      forall k :: 0 <= k < |out| ==> exists i :: 0 <= i < |rs| && out[k] == Annotate(rs[i], vs[i].value)
  {
    var out := SortDesc(annotated, Score);
    forall k | 0 <= k < |out| ensures exists i :: 0 <= i < |rs| && out[k] == Annotate(rs[i], vs[i].value) {
      SortDescMembers(annotated, Score, out[k]);
      var i :| 0 <= i < |annotated| && annotated[i] == out[k];
    }
  }

  /** Scores 90, 90, 40 given to R1, R2, R3 rank them R1, R2, R3: the tie
      keeps R1 before R2. */
  lemma RankingScenario(r1: Resume, r2: Resume, r3: Resume)
    requires r1.matchScore == Some(90) && r2.matchScore == Some(90) && r3.matchScore == Some(40)
    ensures SortDesc([r1, r2, r3], Score) == [r1, r2, r3]
  {
    assert [r1, r2, r3][..2] == [r1, r2];
    assert [r1, r2][..1] == [r1];
    assert [r1][..0] == [];
    assert SortDesc([r1], Score) == [r1];
    assert SortDesc([r1, r2], Score) == Insert([r1], r2, Score) == [r1, r2];
    assert SortDesc([r1, r2, r3], Score) == Insert([r1, r2], r3, Score);
  }
}
