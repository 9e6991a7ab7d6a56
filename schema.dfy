/**
 * The stored inquiry and the document schema it is written through: the
 * string setters (trim, lower-case), the defaults (empty message, creation
 * time) and the validators (required, closed enumerations) that run when a
 * document is saved.
 */
module Schema {
  import opened Wrappers
  import opened Text

  /** A point in time, in milliseconds since the epoch. */
  type Timestamp = int

  /** One persisted enrollment inquiry. */
  datatype Inquiry = Inquiry(
    phone: string,
    email: string,
    gradeLevel: string,
    project: string,
    message: string,
    submittedAt: Timestamp)

  /** The fields handed to the document constructor; a missing message is None. */
  datatype Draft = Draft(
    phone: string,
    email: string,
    gradeLevel: string,
    project: string,
    message: Option<string>)

  /** The schema paths that carry validators. */
  datatype Path = PhonePath | EmailPath | GradeLevelPath | ProjectPath

  /** Why the schema refuses a document. */
  datatype SchemaError = Required(path: Path) | NotInEnum(path: Path)

  /** The ten admissible grade labels. */
  const GradeLevels: seq<string> :=
    ["高一", "高二", "高三", "大一", "大二", "大三", "大四", "研一", "研二", "其他"]

  /** The six admissible program names. */
  const Projects: seq<string> := [
    "Project X人工智能与产品创新实训营",
    "Project Y青年科技创业实训营",
    "Project Z可持续发展与商业影响力实训营",
    "点火计划 创投实战营",
    "名企星程 实习背景跃升计划",
    "还不确定，进一步了解后确定"
  ]

  /** Both enumerations list their labels once each: ten grades and six programs. */
  lemma EnumerationSizes()
    ensures |GradeLevels| == 10 && |Projects| == 6
    ensures forall i, j :: 0 <= i < j < |GradeLevels| ==> GradeLevels[i] != GradeLevels[j]
    ensures forall i, j :: 0 <= i < j < |Projects| ==> Projects[i] != Projects[j]
  {
  }

  /**
   * Builds the document: phone and email go through their setters (the
   * library runs the last-declared setter first, so the email is lower-cased
   * and then trimmed; the order does not matter, as TrimLowerCommute shows),
   * a missing message becomes the empty string and the creation time is the
   * clock reading `now`.
   */
  function Normalize(d: Draft, now: Timestamp): (doc: Inquiry)
    ensures IsTrimmed(doc.phone) && IsTrimmed(doc.email)
    ensures forall i :: 0 <= i < |doc.email| ==> !IsUpper(doc.email[i])
    ensures doc.phone == Trim(d.phone) && |doc.email| == |Trim(d.email)|
    ensures doc.email == ToLower(Trim(d.email))
    ensures doc.gradeLevel == d.gradeLevel && doc.project == d.project
    ensures d.message.None? ==> doc.message == ""
    ensures d.message.Some? ==> doc.message == d.message.value
    ensures doc.submittedAt == now
  {
    TrimLowerCommute(d.email);
    Inquiry(Trim(d.phone), Trim(ToLower(d.email)), d.gradeLevel, d.project, d.message.GetOr(""), now)
  }

  /** What the schema's validators demand of a document. */
  predicate Conforms(doc: Inquiry) {
    && doc.phone != ""
    && doc.email != ""
    && doc.gradeLevel in GradeLevels
    && doc.project in Projects
  }

  /**
   * Runs the validators path by path and reports the first one that fails.
   * The library collects every failing path into one error; the handler only
   * logs that error and answers with the same generic message, so which
   * failures it lists is not observable and one of them stands for all.
   */
  function Violation(doc: Inquiry): (e: Option<SchemaError>)
    ensures e.None? <==> Conforms(doc)
    ensures e.Some? && e.value.Required? ==> e.value.path in {PhonePath, EmailPath}
  {
    if doc.phone == "" then Some(Required(PhonePath))
    else if doc.email == "" then Some(Required(EmailPath))
    else if doc.gradeLevel !in GradeLevels then Some(NotInEnum(GradeLevelPath))
    else if doc.project !in Projects then Some(NotInEnum(ProjectPath))
    else None
  }

  /**
   * Document construction followed by validation: either the normalised
   * document, which then conforms, or the first validator that refuses it.
   */
  function Validate(d: Draft, now: Timestamp): (r: Result<Inquiry, SchemaError>)
    ensures r.Success? <==> Conforms(Normalize(d, now))
    ensures r.Success? ==> r.value == Normalize(d, now) && Conforms(r.value)
    ensures r.Failure? && r.error.NotInEnum? ==>
      (r.error.path == GradeLevelPath && d.gradeLevel !in GradeLevels) ||
      (r.error.path == ProjectPath && d.project !in Projects)
  {
    var doc := Normalize(d, now);
    match Violation(doc)
    case None => Success(doc)
    case Some(e) => Failure(e)
  }
}
