# Resume parser core, modelled in Dafny

This project models the parts of a resume-parsing web application that
contain logic. Uploaded resumes are sent to a language model, which turns
them into structured records. Recruiters then filter, search, rank and
export those records. The model covers five pieces:

- the client-side resume list in `components/resume-list.tsx`:
  - the skill vocabulary (`allSkills`);
  - the three-way filter (`filteredResumes`);
  - the skill-selection toggle (`handleSkillToggle`);
- the spreadsheet row builder `prepareResumeDataForExcel` in `lib/excel.ts`;
- the job-description match route `app/api/match-jd/route.ts`. It checks the request, annotates every resume with a score and an explanation, fails as a whole when any step fails, and sorts the array in place by descending score;
- the skills search route `app/api/search/route.ts`. It checks and parses the comma-separated `skills` parameter, matches records whose stored skills include any parsed term (`$in`), and orders the results newest first;
- the upload route `app/api/parse-resume/route.ts`. It checks for a missing file and for the MIME type, builds the parts sent to the model, cleans up the model's reply and turns every failure into a single 500 response.

The modules are:

- `Wrappers`: the `Option` type.
- `Text`: the JavaScript string primitives the code uses, each with its properties. These are `toLowerCase`, `includes`, `join`, `split` on one character, `trim`, `replace`, `replaceAll` of one character, and the default sort order.
- `Records`: the stored resume, following the shape in `models/Resume.ts`.
- `ResumeList`
- `Excel`
- `Ranking`: a stable sort by descending integer key, and its specification.
- `Api`: the response shape, DOCX extraction and reply clean-up, which the two model-backed routes share.
- `MatchJd`
- `Search`
- `ParseResume`

The array sort in the match route is an imperative method. It sorts an `array` in place and is proved equal to the `Ranking` specification. The upload handler is a method that assigns its intermediate values one step at a time, as the route does. It is proved equal to a function that describes the same outcome, and the lemmas are stated about that function. Everything else is pure functions and lemmas, matching the source.

Outside services are inputs to the model:

- the language model's replies. `None` means the call threw;
- the DOCX text extractor. `None` means it threw, and that failure is swallowed;
- the base64 and plain-text decodings of an upload, and the job-description bytes as the match route reads them (`JdBytes`);
- `JSON.parse`. For the upload route it is a function parameter that returns `None` on a syntax error. For the match route, the parse of the `resumes` form field is the three-way input `Malformed`, `NotAnArray` or `Parsed`, and the parse of each model reply is folded into that resume's verdict;
- the database, as two inputs in the order the search route uses them: whether `dbConnect()` succeeded, and what `Resume.find` reads. The latter is `None` when the query threw, and otherwise the stored records in store order.

## Model

| member | source | states |
|---|---|---|
| Text.Lower | components/resume-list.tsx:26-28 | `toLowerCase` keeps the length and maps every character through the ASCII lower-case mapping |
| Text.LowerIsLower | components/resume-list.tsx:26-28 | lower-casing leaves no upper-case letter and is idempotent |
| Text.LowerOfLower | app/api/search/route.ts:17 | lower-casing a string without upper-case letters changes nothing |
| Text.ContainsEmpty | components/resume-list.tsx:26-28 | every string includes the empty string |
| Text.JoinEmptyIff | lib/excel.ts:36-46 | with a non-empty separator, a join is empty exactly when the list is empty or is one empty string |
| Text.JoinNonEmpty | lib/excel.ts:36-46 | a join whose first element is non-empty is non-empty |
| Text.Split | app/api/search/route.ts:17 | `split` on one character gives one more piece than there are separators |
| Text.SplitPiecesFree | app/api/search/route.ts:17 | no piece of a split contains the separator |
| Text.JoinSplit | app/api/search/route.ts:17 | joining the pieces of a split with the separator gives back the input |
| Text.SplitJoin | app/api/search/route.ts:17 | splitting a join of separator-free pieces gives back the pieces, empty ones included |
| Text.TrimStart | app/api/search/route.ts:17 | the result is a suffix of the input; everything dropped is white space; it does not start with white space |
| Text.TrimEnd | app/api/search/route.ts:17 | the result is a prefix of the input; everything dropped is white space; it does not end with white space |
| Text.TrimSpec | app/api/search/route.ts:17 | `trim` gives a trimmed infix of the input, with only white space on both sides of it |
| Text.TrimOfTrimmed | app/api/search/route.ts:17 | trimming a trimmed string changes nothing |
| Text.LowerKeepsTrimmed | app/api/search/route.ts:17 | lower-casing a trimmed string leaves it trimmed |
| Text.ReplaceFirstAbsent | app/api/parse-resume/route.ts:116 | `replace` with a pattern that does not occur changes nothing |
| Text.ReplaceFirstAt | app/api/parse-resume/route.ts:116 | for a non-empty pattern whose first character does not recur in it, such as "\`json", `replace` removes the leftmost occurrence of the pattern, and only that one |
| Text.RemoveAll | app/api/parse-resume/route.ts:116 | `replaceAll(c, "")` leaves no `c` and never lengthens the string |
| Text.RemoveAllAbsent | app/api/parse-resume/route.ts:116 | removing a character that does not occur changes nothing |
| Text.RemoveAllAppend | app/api/parse-resume/route.ts:116 | removing a character distributes over concatenation |
| Text.LessIrreflexive | components/resume-list.tsx:16 | the default string order is irreflexive |
| Text.LessTransitive | components/resume-list.tsx:16 | the default string order is transitive |
| Text.LessTotal | components/resume-list.tsx:16 | two different strings are ordered one way or the other |
| Text.LessAsymmetric | components/resume-list.tsx:16 | the default string order is asymmetric |
| Text.Contains | components/resume-list.tsx:26-28 | none; `includes` is some position at which the needle occurs, specified by Text.ContainsEmpty and ResumeList.NoLetterNoMatch |
| Text.Join | lib/excel.ts:36-46 | none; `join`, specified by Text.JoinEmptyIff, Text.JoinNonEmpty, Text.JoinSplit and Text.SplitJoin |
| Text.Trim | app/api/search/route.ts:17 | none; `trim`, specified by Text.TrimSpec and Text.TrimOfTrimmed |
| Text.ReplaceFirst | app/api/parse-resume/route.ts:116 | none; `replace` with a string pattern, specified by Text.ReplaceFirstAt and Text.ReplaceFirstAbsent |
| Text.Less | components/resume-list.tsx:16 | none; the default sort's comparison, specified by Text.LessIrreflexive, Text.LessTransitive, Text.LessTotal and Text.LessAsymmetric |
| Records.OrEmpty | lib/excel.ts:32-35 | none; `x \|\| ''` on an optional string, specified by Excel.PersonalCellsSpec and Excel.UrlCellSpec |
| Records.Show | lib/excel.ts:36-45 | none; a template-literal slot prints the string, or "undefined" for a missing field; Excel.EntryCellsEmptyIff depends on it |
| ResumeList.Distinct | components/resume-list.tsx:15 | `new Set` keeps exactly the members of its input, each once |
| ResumeList.SkillsOf | components/resume-list.tsx:15 | none; `resume.skills \|\| []`, specified by ResumeList.FlatSkillsMembership and ResumeList.AbsentSkillsAddNothing |
| ResumeList.FlatSkills | components/resume-list.tsx:15 | none; `flatMap(resume => resume.skills \|\| [])`, specified by ResumeList.FlatSkillsMembership |
| ResumeList.SortStrings | components/resume-list.tsx:16 | none; `sort()`, specified by ResumeList.SortStringsSpec |
| ResumeList.InsertSorted | components/resume-list.tsx:16 | none; one step of the stable `sort()`, specified by ResumeList.InsertSortedSpec |
| ResumeList.InsertSortedSpec | components/resume-list.tsx:16 | one insertion step into a sorted list adds exactly its element and keeps the list sorted |
| ResumeList.AllSkills | components/resume-list.tsx:14-16 | none; `allSkills`, specified by ResumeList.AllSkillsSpec and ResumeList.AllSkillsOrderIndependent |
| ResumeList.SortStringsSpec | components/resume-list.tsx:16 | `sort()` returns a permutation of its input in ascending order |
| ResumeList.FlatSkillsMembership | components/resume-list.tsx:15 | a string is in the flattened skills exactly when some resume lists it; a resume with no skills adds nothing |
| ResumeList.AllSkillsSpec | components/resume-list.tsx:14-16 | the vocabulary holds exactly the skills some resume lists, strictly ascending, each once |
| ResumeList.AbsentSkillsAddNothing | components/resume-list.tsx:15 | a resume without skills does not change the vocabulary |
| ResumeList.StrictlySortedUnique | components/resume-list.tsx:14-16 | two strictly ascending lists with the same members are equal |
| ResumeList.AllSkillsOrderIndependent | components/resume-list.tsx:14-16 | the vocabulary depends only on which resumes are present, not on their order or multiplicity |
| ResumeList.MatchesSearch | components/resume-list.tsx:26-28 | none; `matchesSearch`, specified by ResumeList.EmptySearchMatchesAll and the two search scenarios |
| ResumeList.MatchesSkills | components/resume-list.tsx:30-31 | none; `matchesSkills`: no selection, or every selected skill stored; specified by ResumeList.NoCriteriaKeepsAll and ResumeList.FilterIsThreeFilters |
| ResumeList.MatchesExperience | components/resume-list.tsx:33-34 | none; `matchesExperience`: no selected level, or exactly it; specified by ResumeList.NoCriteriaKeepsAll and ResumeList.FilterIsThreeFilters |
| ResumeList.Matches | components/resume-list.tsx:36 | none; the conjunction of the three tests, specified by ResumeList.FilterIsThreeFilters and ResumeList.FilterConjunction |
| ResumeList.FilterResumes | components/resume-list.tsx:25-37 | none; `filteredResumes`, specified by ResumeList.FilterPositions, ResumeList.FilterMembership, ResumeList.FilterIsThreeFilters and ResumeList.FilterIdempotent |
| ResumeList.FilterPositions | components/resume-list.tsx:25-37 | the filtered list is the input at strictly increasing positions, and a position is taken exactly when its resume matches |
| ResumeList.FilterMembership | components/resume-list.tsx:25-37 | a resume is shown exactly when it is in the input and matches all three criteria |
| ResumeList.EmptySearchMatchesAll | components/resume-list.tsx:26-28 | an empty search term matches every resume |
| ResumeList.NoCriteriaKeepsAll | components/resume-list.tsx:25-37 | with no search text, no selected skill and no level, the whole list is shown in order |
| ResumeList.FilterConjunction | components/resume-list.tsx:36 | filtering with a conjunction of criteria is filtering by one criterion and then by the other |
| ResumeList.FilterAppend | components/resume-list.tsx:25 | filtering distributes over concatenation |
| ResumeList.FilterIsThreeFilters | components/resume-list.tsx:25-37 | the filter equals the search filter, then the skills filter, then the experience filter |
| ResumeList.FilterIdempotent | components/resume-list.tsx:25-37 | filtering twice is filtering once |
| ResumeList.SearchScenarioKept | components/resume-list.tsx:26 | "ann" finds every resume whose name starts with "Ann", whatever its other fields, through a case-insensitive name match |
| ResumeList.SearchScenarioDropped | components/resume-list.tsx:26-28 | "ann" does not find a resume whose name, email and summary (when it has one) contain no letter "a" in either case, whatever its skills and level |
| ResumeList.NoLetterNoMatch | components/resume-list.tsx:26-28 | a text without the letter a, in either case, never contains "ann" after lower-casing |
| ResumeList.RemoveSpec | components/resume-list.tsx:42 | `filter(s => s !== skill)` removes every copy of the skill and keeps every other count |
| ResumeList.Remove | components/resume-list.tsx:42 | none; `prev.filter(s => s !== skill)`, specified by ResumeList.RemoveSpec and ResumeList.RemoveAppend |
| ResumeList.ToggleSkill | components/resume-list.tsx:39-45 | none; `handleSkillToggle`'s update, specified by ResumeList.ToggleSpec, ResumeList.ToggleTwiceRestores and ResumeList.ToggleKeepsNoDup |
| ResumeList.ToggleSpec | components/resume-list.tsx:39-45 | after a toggle the skill is selected exactly when it was not; a selected skill is removed entirely; an unselected one is appended; other skills keep their counts |
| ResumeList.ToggleTwiceRestores | components/resume-list.tsx:39-45 | toggling an unselected skill twice restores the selection |
| ResumeList.ToggleKeepsNoDup | components/resume-list.tsx:39-45 | a selection without duplicates stays without duplicates |
| Excel.RowOf | lib/excel.ts:31-48 | a row has the ten columns, in the source's order |
| Excel.Personal | lib/excel.ts:32-35 | none; `personalInfo?.` with every field absent when the object is missing, specified by Excel.PersonalCellsSpec |
| Excel.NameCell | lib/excel.ts:32 | none; `personalInfo?.name \|\| ''`, specified by Excel.PersonalCellsSpec and Excel.RowCells |
| Excel.EmailCell | lib/excel.ts:33 | none; `personalInfo?.email \|\| ''`, specified by Excel.PersonalCellsSpec |
| Excel.LocationCell | lib/excel.ts:34 | none; `personalInfo?.location \|\| ''`, specified by Excel.PersonalCellsSpec |
| Excel.PhoneCell | lib/excel.ts:35 | none; `personalInfo?.phone \|\| ''`, specified by Excel.PersonalCellsSpec |
| Excel.EducationEntry | lib/excel.ts:37 | none; the template "degree - institution (year)" |
| Excel.EducationCell | lib/excel.ts:36-38 | none; the entries joined by "; ", specified by Excel.EntryCellsEmptyIff |
| Excel.SkillsCell | lib/excel.ts:39 | none; the skills joined by ", ", specified by Excel.JoinedCellsEmptyIff and Excel.SkillsCellSplits |
| Excel.JobEntry | lib/excel.ts:41 | none; the template "title at company (duration)" |
| Excel.ExperienceCell | lib/excel.ts:40-42 | none; the entries joined by "; ", specified by Excel.EntryCellsEmptyIff |
| Excel.ProjectEntry | lib/excel.ts:44 | none; the template "name: description" |
| Excel.ProjectsCell | lib/excel.ts:43-45 | none; the entries joined by "; ", specified by Excel.EntryCellsEmptyIff |
| Excel.CertificationsCell | lib/excel.ts:46 | none; the certifications joined by ", ", specified by Excel.JoinedCellsEmptyIff |
| Excel.UrlCell | lib/excel.ts:47 | none; `fileUrl \|\| ''`, specified by Excel.UrlCellSpec |
| Excel.PrepareRows | lib/excel.ts:30-49 | one row per record, and the row at each position is built from the record at that position |
| Excel.RowCells | lib/excel.ts:31-48 | the ten keys are distinct, so each column's cell is found under its key |
| Excel.PersonalCellsSpec | lib/excel.ts:32-35 | each of the name, email, location and phone cells is "" when personal info or that field is missing, and the field's value otherwise |
| Excel.UrlCellSpec | lib/excel.ts:47 | the URL cell is the file URL, or "" without one |
| Excel.EntryCellsEmptyIff | lib/excel.ts:36-45 | the education, experience and projects cells are "" exactly when the list is absent or empty |
| Excel.JoinedCellsEmptyIff | lib/excel.ts:39-46 | the skills and certifications cells are "" exactly when the list is absent, empty, or one empty string |
| Excel.JoinCommaSpace | lib/excel.ts:39-46 | joining with ", " is joining with "," after putting a space before every element but the first |
| Excel.SkillsCellSplits | lib/excel.ts:39 | when no skill contains a comma, splitting a non-empty skills cell on ',' gives back one piece per skill, each after the first with a leading space |
| Excel.ExportScenario | lib/excel.ts:30-49 | two records with skills ["go", "sql"] and ["python"] give two rows whose skills cells are "go, sql" and "python" |
| Ranking.InsertPerm | app/api/match-jd/route.ts:74 | one insertion step adds its element and nothing else |
| Ranking.InsertSorted | app/api/match-jd/route.ts:74 | one insertion step keeps a non-increasing list non-increasing |
| Ranking.InsertGroups | app/api/match-jd/route.ts:74 | one insertion step places the new element after every element with the same key |
| Ranking.SortDescSpec | app/api/match-jd/route.ts:74 | the sort is a permutation, non-increasing in the key, and keeps equal-key elements in input order |
| Ranking.SortDescMembers | app/api/match-jd/route.ts:74 | the sort keeps exactly the elements of its input |
| Ranking.SortDescUnique | app/api/match-jd/route.ts:74 | any non-increasing arrangement that keeps equal keys in input order is the sort's result |
| Ranking.SortedSameGroupsEqual | app/api/match-jd/route.ts:74 | two non-increasing lists with the same elements for every key, in the same order, are equal |
| Ranking.Insert | app/api/match-jd/route.ts:74 | none; one insertion step, specified by Ranking.InsertPerm, Ranking.InsertSorted and Ranking.InsertGroups |
| Ranking.SortDesc | app/api/match-jd/route.ts:74 | none; the stable sort by descending key, specified by Ranking.SortDescSpec and Ranking.SortDescUnique |
| Api.ExtractTextFromDocx | app/api/parse-resume/route.ts:7-15 | none; the extracted text, or "" when extraction throws, specified by ParseResume.DocxRequest and MatchJd.JobDescriptionText |
| Api.NoFile | app/api/parse-resume/route.ts:22 | none; `!file` holds for a missing field and for the empty string, used by ParseResume.MissingFile and MatchJd.ValidationOrder |
| Api.CleanResponse | app/api/parse-resume/route.ts:116 | the cleaned reply has no backtick |
| Api.CleanIdentity | app/api/parse-resume/route.ts:116 | clean-up is the identity on text without backticks |
| Api.CleanIdempotent | app/api/parse-resume/route.ts:116 | cleaning twice is cleaning once |
| Api.CleanFirstFenceOnly | app/api/parse-resume/route.ts:116 | only the first "\`json" is deleted whole; text on both sides of it loses only its backticks |
| Api.CleanScenario | app/api/match-jd/route.ts:62 | a reply fenced as "\`json" + content + "\`" cleans to the content |
| MatchJd.JdContent | app/api/match-jd/route.ts:30-35 | none; `jdContent`, specified by MatchJd.JobDescriptionText |
| MatchJd.JdText | app/api/match-jd/route.ts:19-35 | none; the job-description text the route computes for the prompts, specified by MatchJd.JobDescriptionText |
| MatchJd.JobDescriptionText | app/api/match-jd/route.ts:19-35 | the text is computed exactly for an upload in a readable body with a parsable `resumes` field; a DOCX gives the extracted text, "" when extraction fails; any other type gives the decoded buffer, whatever the extractor would do |
| MatchJd.ExtractionFailureGoesOn | app/api/match-jd/route.ts:30-38 | a DOCX whose extraction fails gives the text "" and the request goes on, to a ranking when every record can be prompted and every verdict exists |
| MatchJd.Annotate | app/api/match-jd/route.ts:65-69 | the annotated record has the verdict's score and explanation, and every other field unchanged |
| MatchJd.PromptReady | app/api/match-jd/route.ts:52-56 | none; the fields the prompt dereferences are present, used by MatchJd.AnnotateAll and MatchJd.AllOrNothing |
| MatchJd.Score | app/api/match-jd/route.ts:74 | none; the comparator's key, used by MatchJd.RankInPlace and MatchJd.RankingSpec |
| MatchJd.AnnotateAll | app/api/match-jd/route.ts:38-71 | succeeds exactly when every record can be prompted and every model step succeeded; it then annotates each record at its own position |
| MatchJd.RankInPlace | app/api/match-jd/route.ts:74 | after the in-place sort, the array holds the stable descending sort of its old contents by score |
| MatchJd.InsertLast | app/api/match-jd/route.ts:74 | one pass moves the next element into place in the sorted prefix and leaves the rest of the array alone |
| MatchJd.ShiftSmaller | app/api/match-jd/route.ts:74 | the inner loop shifts right by one the run of lower-scored elements just before the one being inserted, and stops at an element scoring at least as much |
| MatchJd.InsertAt | app/api/match-jd/route.ts:74 | the insertion step puts its element after the last element scoring at least as much, when every later one scores less |
| MatchJd.MatchResponse | app/api/match-jd/route.ts:17-84 | none; the route's response, specified by MatchJd.ValidationOrder, MatchJd.AllOrNothing and MatchJd.RankingSpec |
| MatchJd.HandleMatch | app/api/match-jd/route.ts:17-84 | the route's response and the job-description text it computed: the body and field checks in source order, the text, then annotation, then a fresh array sorted in place |
| MatchJd.ValidationOrder | app/api/match-jd/route.ts:19-39 | an unreadable body is a 500; a malformed `resumes` field is a 500 whatever the file field holds; with a parsable field, no file or an empty string is the 400 and a non-empty string field is a 500; an upload with a field that is not an array is a 500; the 400 arises exactly from the file check |
| MatchJd.AllOrNothing | app/api/match-jd/route.ts:38-83 | a ranking comes back exactly when every step succeeds; otherwise the response is the 500 error and no partial ranking |
| MatchJd.RankingSpec | app/api/match-jd/route.ts:38-74 | the ranking has one entry per input record, each an input record with only its score and explanation set; it is a permutation of the annotated records, non-increasing in score, with ties in input order |
| MatchJd.RankingScenario | app/api/match-jd/route.ts:74 | scores 90, 90 and 40 for R1, R2 and R3 rank them R1, R2, R3 |
| Search.Normalize | app/api/search/route.ts:17 | a normalised term is never longer than its segment |
| Search.NormalizeAll | app/api/search/route.ts:17 | one normalised term per segment, at the segment's position |
| Search.ParseSkills | app/api/search/route.ts:17 | one term per comma-separated segment |
| Search.SearchResponse | app/api/search/route.ts:6-31 | none; the route's response, specified by Search.NoSkillsNoQuery, Search.DatabaseFailure and Search.SearchResultSpec |
| Search.MatchesAny | app/api/search/route.ts:19-20 | none; the `$in` match, specified by Search.MatchesOne and Search.SingleTermMatch |
| Search.Select | app/api/search/route.ts:19-21 | none; the selected records in store order, specified by Search.SelectMembership and Search.SelectSubMultiset |
| Search.CreatedAt | app/api/search/route.ts:21 | none; the sort key, used by Search.SearchResultSpec |
| Search.NoSkillsNoQuery | app/api/search/route.ts:13-15 | once connected, an absent or empty parameter is the 400 "No skills provided" whatever the query would give, a failing query included, since none is issued |
| Search.DatabaseFailure | app/api/search/route.ts:7-30 | a failed connection is the 500 "Failed to search resumes" with or without a parameter; a failed query is that 500 exactly when the parameter is non-empty |
| Search.ParseSkillsSpec | app/api/search/route.ts:17 | there are as many terms as commas plus one, and every term is trimmed and lower case |
| Search.ParseSkillsOrder | app/api/search/route.ts:17 | segments joined by commas parse to the normalised segments, in input order |
| Search.BlankSegmentKept | app/api/search/route.ts:17 | an empty or all-white-space segment stays in place as the empty term |
| Search.EmptySegmentScenario | app/api/search/route.ts:17 | "a,,b" parses to the normalised "a", "", and the normalised "b" |
| Search.ParseSingleTerm | app/api/search/route.ts:17 | a parameter without a comma is the single normalised term |
| Search.NormalizeTrimmed | app/api/search/route.ts:17 | normalising a string without surrounding white space only lower-cases it |
| Search.SelectMembership | app/api/search/route.ts:19-20 | a record is selected exactly when it is stored and one of its skills equals one of the terms |
| Search.SelectSubMultiset | app/api/search/route.ts:19-20 | selection never adds records or copies |
| Search.SearchResultSpec | app/api/search/route.ts:17-23 | once connected and queried, the response holds exactly the stored records with a skill equal to a parsed term, no copies beyond the store's, newest first |
| Search.MatchesOne | app/api/search/route.ts:19-20 | a record matches a single term exactly when it stores that term among its skills |
| Search.SingleTermMatch | app/api/search/route.ts:17-20 | a parameter without a comma finds exactly the records that store its normalised form |
| Search.UpperCaseSkillMissed | app/api/search/route.ts:17-20 | a record whose only stored skill has an upper-case letter and no surrounding white space is not found by that same text, because terms are lower-cased and stored skills are not |
| Search.PythonScenario | app/api/search/route.ts:17-20 | a stored "Python" is not found by the parameter "Python" |
| ParseResume.FileContent | app/api/parse-resume/route.ts:48-54 | none; `fileContent`, specified by ParseResume.DocxRequest and ParseResume.InlineRequest |
| ParseResume.IsSupported | app/api/parse-resume/route.ts:26-35 | none; membership in the six types, specified by ParseResume.SupportedSpec |
| ParseResume.Accepted | app/api/parse-resume/route.ts:35 | none; an upload of a supported type (a string field has no `type`), used by ParseResume.UnsupportedFile and ParseResume.ReadOnlyAccepted |
| ParseResume.ParseOutcome | app/api/parse-resume/route.ts:17-127 | none; the route's outcome, specified by the lemmas from ParseResume.MissingFile to ParseResume.FailuresAre500 |
| ParseResume.Parts | app/api/parse-resume/route.ts:98-111 | none; the request parts, specified by ParseResume.DocxRequest and ParseResume.InlineRequest |
| ParseResume.HandleParse | app/api/parse-resume/route.ts:17-127 | the handler, assigning `fileContent`, `parts` and `responseText` in turn, produces the route's outcome |
| ParseResume.MissingFile | app/api/parse-resume/route.ts:20-24 | no file, or an empty string in its place, is the 400 "No file provided", with nothing read or sent |
| ParseResume.UnsupportedFile | app/api/parse-resume/route.ts:26-43 | a type outside the six is the 400 unsupported-type error, before any bytes are read or the model is called |
| ParseResume.ReadOnlyAccepted | app/api/parse-resume/route.ts:22-59 | the bytes are read, and the model is called, exactly for an accepted file |
| ParseResume.SupportedSpec | app/api/parse-resume/route.ts:26-33 | the accepted types are exactly the six listed |
| ParseResume.DocxRequest | app/api/parse-resume/route.ts:50-100 | a DOCX upload is sent as one text part; when extraction fails the prompt goes alone and the request goes on |
| ParseResume.InlineRequest | app/api/parse-resume/route.ts:52-111 | any other type is sent as the prompt plus its base64 bytes under its own MIME type, and the extractor plays no part |
| ParseResume.ReplyHandling | app/api/parse-resume/route.ts:113-119 | the text parsed is the cleaned reply and has no backtick; the response is the parsed value exactly when parsing succeeds |
| ParseResume.FailuresAre500 | app/api/parse-resume/route.ts:120-126 | every failure other than the two file checks is the 500 "Failed to process resume", and a 500 comes exactly from an unreadable form, a failed model call or a failed parse |

## Left out

- Text.Lower: `toLowerCase` is modelled for the ASCII letters only. Full Unicode case mapping, which can change a string's length, is not modelled.
- Text.Less: the default `sort()` compares UTF-16 code units. The model compares code points, which agrees with it inside the Basic Multilingual Plane.
- Prompt text: the wording of the prompts sent to the language model appears only as a `prompt` parameter.
- The language model, `mammoth` DOCX extraction, base64 encoding, `buffer.toString()` and `JSON.parse`: these are outside services or libraries. Their results are inputs to the model.
- MatchJd: the model does not clean and parse each reply itself. The per-resume input is the verdict `JSON.parse` produced from the reply, or `None` when the call or the parse threw.
- Score types: `matchScore` is an integer in the model. A non-numeric score, which makes the comparator return `NaN`, is not modelled.
- `null` and `undefined`: both are modelled as absence. The model does not distinguish them where a template string would print `null` instead of `undefined`.
- `exportToExcel` (lib/excel.ts:8-28): it only wraps the XLSX library and a download. It is not part of this model.
- `Promise.all`: the concurrency of the per-resume requests is not modelled. The fan-out is a sequential map that fails as a whole when any element fails.
- `arrayBuffer()`: reading an uploaded file's bytes is assumed to succeed in both routes. A failure would fall into the same 500 catch. A string field in place of the job-description file, which has no `arrayBuffer`, is modelled as that 500.
- Search: MongoDB does not specify the order of records with equal `createdAt`. The model keeps them in store order, using the same stable sort as the match route.
- Search: the model has `$in` match only array-valued `skills`. A record whose `skills` is a single string is not modelled.
- Storage and rendering: how `lib/mongoose.ts` connects (only whether it succeeded is an input), `app/api/resumes/route.ts`, the schema registration in `models/Resume.ts` and all React rendering are not part of this model.
- The record shape follows `models/Resume.ts`. The resume list uses its own record type, `Listed`, with the fields that component reads: name, email, summary, skills and an experience level.
