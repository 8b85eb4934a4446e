/** What the two model-backed routes (app/api/parse-resume/route.ts and
    app/api/match-jd/route.ts) share: the HTTP response shape, the DOCX text
    extraction helper with its swallowed failure, and the clean-up of the
    model's reply text before it is parsed as JSON. */
module Api {
  import opened Wrappers
  import opened Text

  /** A JSON response: the body on success, or `{ error: message }` with a
      status code. */
  datatype Response<T> = Ok(body: T) | Error(status: int, message: string)

  /** What `formData().get(name)` returns for a file field: nothing, a
      plain string field, or an uploaded file with its MIME type. */
  datatype FileField = Absent | TextValue(value: string) | Upload(mimeType: string)

  /** `!file`: no field, or the empty string. */
  predicate NoFile(f: FileField) {
    f.Absent? || f == TextValue("")
  }

  const DocxMime: string :=
    "application/vnd.openxmlformats-officedocument.wordprocessingml.document"

  /** `extractTextFromDocx`: the raw text the DOCX extractor produced, or ""
      when it threw (`None`). */
  function ExtractTextFromDocx(extracted: Option<string>): string {
    match extracted
    case Some(t) => t
    case None => ""
  }

  /** The fence marker the first `replace` deletes. */
  const JsonFence: string := "`json"

  /** `responseText.replace("`json", "").replaceAll("`", "")`. */
  function CleanResponse(text: string): (r: string)
    ensures '`' !in r
  {
    RemoveAll(ReplaceFirst(text, JsonFence, ""), '`')
  }

  /** Text without a backtick passes through unchanged. */
  lemma CleanIdentity(text: string)
    requires '`' !in text
    ensures CleanResponse(text) == text
  {
    assert !Contains(text, JsonFence) by {
      forall i | 0 <= i && i + 5 <= |text| ensures !OccursAt(text, JsonFence, i) {
        assert text[i..i + 5][0] == text[i] != '`';
      }
    }
    ReplaceFirstAbsent(text, JsonFence, "");
    RemoveAllAbsent(text, '`');
  }

  /** Cleaning twice is cleaning once. */
  lemma CleanIdempotent(text: string)
    ensures CleanResponse(CleanResponse(text)) == CleanResponse(text)
  {
    CleanIdentity(CleanResponse(text));
  }

  /** Only the first "`json" is deleted whole; everything before it and
      after it loses just its backticks, so a later "`json" survives as
      "json". */
  lemma CleanFirstFenceOnly(a: string, b: string)
    requires !Contains(a, JsonFence)
    ensures CleanResponse(a + JsonFence + b) == RemoveAll(a, '`') + RemoveAll(b, '`')
  {
    ReplaceFirstAt(a, JsonFence, b, "");
    assert a + "" + b == a + b;
    RemoveAllAppend(a, b, '`');
  }

  /** A reply fenced as "`json ... `" cleans to its content. */
  lemma CleanScenario(content: string)
    requires '`' !in content
    ensures CleanResponse(JsonFence + content + "`") == content
  {
    assert !Contains("", JsonFence) by {
      assert forall i :: !OccursAt("", JsonFence, i);
    }
    CleanFirstFenceOnly("", content + "`");
    assert "" + JsonFence + (content + "`") == JsonFence + content + "`";
    RemoveAllAppend(content, "`", '`');
    RemoveAllAbsent(content, '`');
  }
}
