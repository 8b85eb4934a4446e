/** The spreadsheet row projection of lib/excel.ts: each stored record
    becomes one row of ten named string cells. */
module Excel {
  import opened Wrappers
  import opened Text
  import opened Records

  /** The keys of every row, in the order the object literal lists them
      (which is the column order of the sheet). */
  const Columns: seq<string> := ["Name", "Email", "Location", "Phone", "Education",
    "Skills", "Experience", "Projects", "Certifications", "Resume URL"]

  /** A row: the object literal's (key, value) pairs in order. */
  type Row = seq<(string, string)>

  /** `resume.personalInfo`, with every field absent when it is missing. */
  function Personal(r: Resume): PersonalInfo {
    r.personalInfo.GetOr(PersonalInfo(None, None, None, None))
  }

  function NameCell(r: Resume): string { OrEmpty(Personal(r).name) }
  function EmailCell(r: Resume): string { OrEmpty(Personal(r).email) }
  function LocationCell(r: Resume): string { OrEmpty(Personal(r).location) }
  function PhoneCell(r: Resume): string { OrEmpty(Personal(r).phone) }

  /** `${edu.degree} - ${edu.institution} (${edu.year})`. */
  function EducationEntry(e: Education): string {
    Show(e.degree) + " - " + Show(e.institution) + " (" + Show(e.year) + ")"
  }

  /** `${exp.title} at ${exp.company} (${exp.duration})`. */
  function JobEntry(j: Job): string {
    Show(j.title) + " at " + Show(j.company) + " (" + Show(j.duration) + ")"
  }

  /** `${proj.name}: ${proj.description}`. */
  function ProjectEntry(p: Project): string {
    Show(p.name) + ": " + Show(p.description)
  }

  function EducationCell(r: Resume): string {
    match r.education
    case None => ""
    case Some(es) => Join(seq(|es|, i requires 0 <= i < |es| => EducationEntry(es[i])), "; ")
  }

  function SkillsCell(r: Resume): string {
    match r.skills
    case None => ""
    case Some(xs) => Join(xs, ", ")
  }

  function ExperienceCell(r: Resume): string {
    match r.experience
    case None => ""
    case Some(js) => Join(seq(|js|, i requires 0 <= i < |js| => JobEntry(js[i])), "; ")
  }

  function ProjectsCell(r: Resume): string {
    match r.projects
    case None => ""
    case Some(ps) => Join(seq(|ps|, i requires 0 <= i < |ps| => ProjectEntry(ps[i])), "; ")
  }

  function CertificationsCell(r: Resume): string {
    match r.certifications
    case None => ""
    case Some(xs) => Join(xs, ", ")
  }

  function UrlCell(r: Resume): string { OrEmpty(r.fileUrl) }

  /** The object literal built for one record: lines 31-48. */
  function RowOf(r: Resume): (row: Row)
    ensures |row| == |Columns| == 10
    ensures forall k :: 0 <= k < |row| ==> row[k].0 == Columns[k]
  {
    [ ("Name", NameCell(r)),
      ("Email", EmailCell(r)),
      ("Location", LocationCell(r)),
      ("Phone", PhoneCell(r)),
      ("Education", EducationCell(r)),
      ("Skills", SkillsCell(r)),
      ("Experience", ExperienceCell(r)),
      ("Projects", ProjectsCell(r)),
      ("Certifications", CertificationsCell(r)),
      ("Resume URL", UrlCell(r)) ]
  }

  /** `prepareResumeDataForExcel`: one row per record, in the same order. */
  function PrepareRows(rs: seq<Resume>): (rows: seq<Row>)
    ensures |rows| == |rs|
    ensures forall i :: 0 <= i < |rs| ==> rows[i] == RowOf(rs[i])
  {
    if rs == [] then [] else [RowOf(rs[0])] + PrepareRows(rs[1..])
  }

  /** The value stored under `key`, or "" when there is none. */
  function Cell(row: Row, key: string): string {
    if row == [] then ""
    else if row[0].0 == key then row[0].1
    else Cell(row[1..], key)
  }

  /** The ten keys are pairwise distinct, so each cell is found under its
      own column name. */
  lemma RowCells(r: Resume)
    ensures forall k, l :: 0 <= k < l < |Columns| ==> Columns[k] != Columns[l]
    ensures forall k :: 0 <= k < |Columns| ==> Cell(RowOf(r), Columns[k]) == RowOf(r)[k].1
  {
    ColumnsDistinct();
    var row := RowOf(r);
    forall k | 0 <= k < |Columns| ensures Cell(row, Columns[k]) == row[k].1 {
      CellAt(row, k);
    }
  }

  lemma ColumnsDistinct()
    ensures forall k, l :: 0 <= k < l < |Columns| ==> Columns[k] != Columns[l]
  {
  }

  lemma {:induction false} CellAt(row: Row, k: int)
    requires 0 <= k < |row|
    requires forall i, j :: 0 <= i < j < |row| ==> row[i].0 != row[j].0
    ensures Cell(row, row[k].0) == row[k].1
  {
    if k > 0 {
      assert row[0].0 != row[k].0;
      CellAt(row[1..], k - 1);
    }
  }

  /** Each of the four personal cells is empty when `personalInfo` or that
      field is missing, and is the field's value otherwise. */
  lemma PersonalCellsSpec(r: Resume)
    ensures r.personalInfo.None? ==> NameCell(r) == EmailCell(r) == LocationCell(r) == PhoneCell(r) == ""
    ensures r.personalInfo.Some? ==> var p := r.personalInfo.value;
      && NameCell(r) == (if p.name.Some? then p.name.value else "")
      && EmailCell(r) == (if p.email.Some? then p.email.value else "")
      && LocationCell(r) == (if p.location.Some? then p.location.value else "")
      && PhoneCell(r) == (if p.phone.Some? then p.phone.value else "")
  {
  }

  /** The URL cell is the file URL, or empty without one. */
  lemma UrlCellSpec(r: Resume)
    ensures r.fileUrl.None? ==> UrlCell(r) == ""
    ensures r.fileUrl.Some? ==> UrlCell(r) == r.fileUrl.value
  {
  }

  /** A list cell is empty exactly when the list is absent or empty: every
      rendered entry is non-empty. */
  lemma EntryCellsEmptyIff(r: Resume)
    ensures EducationCell(r) == "" <==> r.education.None? || |r.education.value| == 0
    ensures ExperienceCell(r) == "" <==> r.experience.None? || |r.experience.value| == 0
    ensures ProjectsCell(r) == "" <==> r.projects.None? || |r.projects.value| == 0
  {
    if r.education.Some? && |r.education.value| > 0 {
      var es := r.education.value;
      var xs := seq(|es|, i requires 0 <= i < |es| => EducationEntry(es[i]));
      assert |xs[0]| > 0;
      JoinNonEmpty(xs, "; ");
    }
    if r.experience.Some? && |r.experience.value| > 0 {
      var js := r.experience.value;
      var xs := seq(|js|, i requires 0 <= i < |js| => JobEntry(js[i]));
      assert |xs[0]| > 0;
      JoinNonEmpty(xs, "; ");
    }
    if r.projects.Some? && |r.projects.value| > 0 {
      var ps := r.projects.value;
      var xs := seq(|ps|, i requires 0 <= i < |ps| => ProjectEntry(ps[i]));
      assert |xs[0]| > 0;
      JoinNonEmpty(xs, "; ");
    }
  }

  /** The Skills and Certifications cells are empty exactly when the list is
      absent, empty, or a single empty string. */
  lemma JoinedCellsEmptyIff(r: Resume)
    ensures SkillsCell(r) == "" <==>
      r.skills.None? || |r.skills.value| == 0 || (|r.skills.value| == 1 && r.skills.value[0] == "")
    ensures CertificationsCell(r) == "" <==>
      r.certifications.None? || |r.certifications.value| == 0
      || (|r.certifications.value| == 1 && r.certifications.value[0] == "")
  {
    if r.skills.Some? {
      JoinEmptyIff(r.skills.value, ", ");
    }
    if r.certifications.Some? {
      JoinEmptyIff(r.certifications.value, ", ");
    }
  }

  /** Every element but the first with a leading space. */
  function Spaced(xs: seq<string>): (r: seq<string>)
    ensures |r| == |xs|
    ensures forall i :: 0 <= i < |xs| ==> r[i] == " " + xs[i]
  {
    if xs == [] then [] else [" " + xs[0]] + Spaced(xs[1..])
  }

  /** Joining with ", " is joining with "," after giving every element but
      the first a leading space. */
  lemma {:induction false} JoinCommaSpace(xs: seq<string>)
    requires |xs| > 0
    ensures Join(xs, ", ") == Join([xs[0]] + Spaced(xs[1..]), ",")
  {
    if |xs| > 1 {
      JoinCommaSpace(xs[1..]);
      var t := Spaced(xs[2..]);
      assert xs[1..][1..] == xs[2..];
      assert Spaced(xs[1..]) == [" " + xs[1]] + t;
      JoinPrefixHead(" ", xs[1], t, ",");
      assert ([xs[0]] + Spaced(xs[1..]))[1..] == Spaced(xs[1..]);
    }
  }

  lemma JoinPrefixHead(p: string, h: string, t: seq<string>, sep: string)
    ensures Join([p + h] + t, sep) == p + Join([h] + t, sep)
  {
    assert ([p + h] + t)[1..] == t;
    assert ([h] + t)[1..] == t;
  }

  /** Splitting the Skills cell on ',' gives back one piece per skill (each
      after the first with the leading space of the separator) when no
      skill contains a comma. */
  lemma SkillsCellSplits(r: Resume)
    requires r.skills.Some? && |r.skills.value| > 0
    requires forall k :: 0 <= k < |r.skills.value| ==> ',' !in r.skills.value[k]
    ensures |Split(SkillsCell(r), ',')| == |r.skills.value|
    ensures Split(SkillsCell(r), ',')[0] == r.skills.value[0]
    ensures forall k :: 1 <= k < |r.skills.value| ==>
      Split(SkillsCell(r), ',')[k] == " " + r.skills.value[k]
  {
    var xs := r.skills.value;
    var ys := [xs[0]] + Spaced(xs[1..]);
    JoinCommaSpace(xs);
    forall k | 0 <= k < |ys| ensures ',' !in ys[k] {
      if k > 0 {
        assert ys[k] == " " + xs[k];
      }
    }
    SplitJoin(ys, ',');
  }

  /** Two records with skills ["go", "sql"] and ["python"] give two rows whose
      Skills cells are "go, sql" and "python". */
  lemma ExportScenario(a: Resume, b: Resume)
    requires a.skills == Some(["go", "sql"]) && b.skills == Some(["python"])
    ensures |PrepareRows([a, b])| == 2
    ensures Cell(PrepareRows([a, b])[0], "Skills") == "go, sql"
    ensures Cell(PrepareRows([a, b])[1], "Skills") == "python"
  {
    RowCells(a);
    RowCells(b);
    assert Columns[5] == "Skills";
  }
}
