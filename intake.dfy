/**
 * The inquiry-intake service: the `POST /api/contact` handler (presence,
 * e-mail and phone checks in that order, document construction, save), the
 * `GET /api/contacts` listing and the `GET /api/health` probe, over a store
 * that only ever grows.
 */
module Intake {
  import opened Wrappers
  import opened Text
  import opened Patterns
  import opened Schema
  import opened Listing

  /** The request body; a field the caller did not send is None. */
  datatype Payload = Payload(
    phone: Option<string>,
    email: Option<string>,
    gradeLevel: Option<string>,
    project: Option<string>,
    message: Option<string>)

  /** JavaScript truthiness of a string field: sent and not empty. */
  predicate Present(f: Option<string>) {
    f.Some? && f.value != ""
  }

  predicate AllPresent(p: Payload) {
    Present(p.phone) && Present(p.email) && Present(p.gradeLevel) && Present(p.project)
  }

  /** Why the save failed. */
  datatype SaveFailure = SchemaViolation(error: SchemaError) | Unavailable

  /** The classification of one submission. */
  datatype Outcome =
    | MissingField
    | InvalidEmail
    | InvalidPhone
    | StoreError(cause: SaveFailure)
    | Created(record: Inquiry)
  {
    predicate IsClientError() {
      MissingField? || InvalidEmail? || InvalidPhone?
    }
  }

  /**
   * Each client error has its own message, and none of them is the success or
   * the generic failure message, so a client can tell every answer apart.
   */
  lemma MessagesDistinct()
    ensures MissingFieldMessage != InvalidEmailMessage
    ensures MissingFieldMessage != InvalidPhoneMessage
    ensures InvalidEmailMessage != InvalidPhoneMessage
    ensures forall m :: m in [MissingFieldMessage, InvalidEmailMessage, InvalidPhoneMessage] ==>
      m != CreatedMessage && m != SubmitFailedMessage
  {
  }

  const MissingFieldMessage: string := "请填写所有必填字段"
  const InvalidEmailMessage: string := "请输入有效的邮箱地址"
  const InvalidPhoneMessage: string := "请输入有效的手机号码"
  const CreatedMessage: string := "报名成功!我们会尽快与您联系。"
  const SubmitFailedMessage: string := "提交失败,请稍后重试"
  const ListFailedMessage: string := "获取数据失败"

  /** The status code and JSON body of a submission response. */
  datatype Response = Response(status: int, success: bool, message: string)

  /**
   * The response for each outcome: 201 on success, 400 with a field-specific
   * message for a client error, 500 with one generic message for any failure
   * of the save.
   */
  function Reply(o: Outcome): (r: Response)
    ensures r.success <==> o.Created?
    ensures r.status == 201 <==> o.Created?
    ensures r.status == 400 <==> o.IsClientError()
    ensures r.status == 500 <==> o.StoreError?
    ensures o.MissingField? ==> r.message == MissingFieldMessage
    ensures o.InvalidEmail? ==> r.message == InvalidEmailMessage
    ensures o.InvalidPhone? ==> r.message == InvalidPhoneMessage
    ensures o.StoreError? ==> r.message == SubmitFailedMessage
    ensures o.Created? ==> r.message == CreatedMessage
  {
    match o
    case MissingField => Response(400, false, MissingFieldMessage)
    case InvalidEmail => Response(400, false, InvalidEmailMessage)
    case InvalidPhone => Response(400, false, InvalidPhoneMessage)
    case StoreError(_) => Response(500, false, SubmitFailedMessage)
    case Created(_) => Response(201, true, CreatedMessage)
  }

  /** `message || ''`. */
  function MessageOrEmpty(m: Option<string>): string {
    if Present(m) then m.value else ""
  }

  /**
   * The handler's own checks and the document it builds. The first check that
   * fails decides: a missing field before a bad address, a bad address
   * before a bad phone number.
   */
  function Screen(p: Payload): (v: Result<Draft, Outcome>)
    ensures v.Failure? ==> v.error.IsClientError()
    ensures !AllPresent(p) ==> v == Failure(MissingField)
    ensures AllPresent(p) && !MatchesEmail(p.email.value) ==> v == Failure(InvalidEmail)
    ensures AllPresent(p) && MatchesEmail(p.email.value) && !IsValidPhone(p.phone.value) ==>
      v == Failure(InvalidPhone)
    ensures v.Success? <==> AllPresent(p) && MatchesEmail(p.email.value) && IsValidPhone(p.phone.value)
    ensures v.Success? ==> v.value.phone == p.phone.value && v.value.email == p.email.value
    ensures v.Success? ==> v.value.gradeLevel == p.gradeLevel.value && v.value.project == p.project.value
    ensures v.Success? ==> v.value.message == Some(MessageOrEmpty(p.message))
  {
    if !AllPresent(p) then Failure(MissingField)
    else if !MatchesEmail(p.email.value) then Failure(InvalidEmail)
    else if !IsValidPhone(p.phone.value) then Failure(InvalidPhone)
    else Success(Draft(p.phone.value, p.email.value, p.gradeLevel.value, p.project.value,
                       Some(MessageOrEmpty(p.message))))
  }

  /**
   * The whole submission: the handler's checks, then the schema's, then the
   * write, which succeeds only when the storage collaborator is `available`.
   * `now` is the clock reading at document construction.
   */
  function Decide(p: Payload, now: Timestamp, available: bool): (o: Outcome)
    ensures Screen(p).Failure? ==> o == Screen(p).error
    ensures Screen(p).Success? ==> o.StoreError? || o.Created?
    ensures o.Created? ==> available && o.record.submittedAt == now
  {
    match Screen(p)
    case Failure(e) => e
    case Success(d) =>
      match Validate(d, now)
      case Failure(e) => StoreError(SchemaViolation(e))
      case Success(doc) => if available then Created(doc) else StoreError(Unavailable)
  }

  /** What the store holds about every inquiry it has accepted. */
  predicate WellFormed(r: Inquiry) {
    && IsValidPhone(r.phone) && IsTrimmed(r.phone)
    && MatchesEmail(r.email) && IsTrimmed(r.email)
    && (forall i :: 0 <= i < |r.email| ==> !IsUpper(r.email[i]))
    && Conforms(r)
  }

  /** A payload that passes the handler's checks never fails a required validator. */
  lemma ScreenedDraftHasRequired(p: Payload, now: Timestamp)
    requires Screen(p).Success?
    ensures var doc := Normalize(Screen(p).value, now);
      doc.phone != "" && doc.email != ""
  {
    ValidPhoneLength(p.phone.value);
    EmailUnchangedByTrim(p.email.value);
  }

  /**
   * What a submission must satisfy to be stored: all four fields present,
   * both patterns accepting, both labels in their enumerations.
   */
  predicate Acceptable(p: Payload) {
    && AllPresent(p)
    && MatchesEmail(p.email.value)
    && IsValidPhone(p.phone.value)
    && p.gradeLevel.value in GradeLevels
    && p.project.value in Projects
  }

  /**
   * A submission is stored exactly when it is acceptable and the storage
   * collaborator accepts the write.
   */
  lemma AcceptedIff(p: Payload, now: Timestamp, available: bool)
    ensures Decide(p, now, available).Created? <==> Acceptable(p) && available
  {
    if Screen(p).Success? {
      ScreenedDraftHasRequired(p, now);
    }
  }

  /**
   * After the handler's checks, the only way the schema refuses a document is
   * a grade or program label outside its enumeration.
   */
  lemma SchemaFailureIsEnum(p: Payload, now: Timestamp, available: bool)
    requires Decide(p, now, available).StoreError?
    requires Decide(p, now, available).cause.SchemaViolation?
    ensures Decide(p, now, available).cause.error.NotInEnum?
    ensures p.gradeLevel.value !in GradeLevels || p.project.value !in Projects
  {
    ScreenedDraftHasRequired(p, now);
  }

  /**
   * The record an acceptable submission stores: the trimmed phone as sent
   * (hyphens and inner spaces kept), the address lower-cased (trimming it
   * changes nothing), the labels as sent, the message or the empty string,
   * and the clock reading.
   */
  lemma CreatedRecord(p: Payload, now: Timestamp)
    requires Acceptable(p)
    ensures Decide(p, now, true) == Created(Inquiry(
      Trim(p.phone.value), ToLower(p.email.value), p.gradeLevel.value, p.project.value,
      MessageOrEmpty(p.message), now))
  {
    AcceptedIff(p, now, true);
    assert Decide(p, now, true).record == Normalize(Screen(p).value, now);
    EmailUnchangedByTrim(p.email.value);
  }

  /** Invalid values never reach storage: every created record is well formed. */
  lemma CreatedIsWellFormed(p: Payload, now: Timestamp)
    requires Acceptable(p)
    ensures Decide(p, now, true).Created? && WellFormed(Decide(p, now, true).record)
  {
    CreatedRecord(p, now);
    var r := Decide(p, now, true).record;
    LowerKeepsEmail(p.email.value);
    TrimKeepsPhone(p.phone.value);
    assert Conforms(r);
    assert IsValidPhone(r.phone) && MatchesEmail(r.email);
  }

  /**
   * Whatever the other fields hold, once they are present and the address is
   * accepted, the phone number "123" is refused with 400 and the phone message.
   */
  lemma ShortPhoneRefused(p: Payload, now: Timestamp, available: bool)
    requires AllPresent(p) && MatchesEmail(p.email.value) && p.phone.value == "123"
    ensures Reply(Decide(p, now, available)) == Response(400, false, InvalidPhoneMessage)
  {
    StripClean("123");
    assert !IsValidPhone(p.phone.value);
    assert Screen(p) == Failure(InvalidPhone);
  }

  /**
   * Each client error is answered with 400 and its own message, whatever the
   * other fields hold and whether or not storage is available: a missing
   * field first, then a bad address, then a bad phone number.
   */
  lemma RefusalMessages(p: Payload, now: Timestamp, available: bool)
    ensures !AllPresent(p) ==>
      Reply(Decide(p, now, available)) == Response(400, false, MissingFieldMessage)
    ensures AllPresent(p) && !MatchesEmail(p.email.value) ==>
      Reply(Decide(p, now, available)) == Response(400, false, InvalidEmailMessage)
    ensures AllPresent(p) && MatchesEmail(p.email.value) && !IsValidPhone(p.phone.value) ==>
      Reply(Decide(p, now, available)) == Response(400, false, InvalidPhoneMessage)
  {
  }

  /**
   * An acceptable submission written to available storage is answered with
   * 201, success and the confirmation message.
   */
  lemma AcceptedReply(p: Payload, now: Timestamp)
    requires Acceptable(p)
    ensures Reply(Decide(p, now, true)) == Response(201, true, CreatedMessage)
  {
    AcceptedIff(p, now, true);
  }

  /** Every record in s is well formed. */
  predicate AllWellFormed(s: seq<Inquiry>) {
    forall i :: 0 <= i < |s| ==> WellFormed(s[i])
  }

  lemma AppendWellFormed(s: seq<Inquiry>, r: Inquiry)
    requires AllWellFormed(s) && WellFormed(r)
    ensures AllWellFormed(s + [r])
  {
    forall i | 0 <= i < |s + [r]|
      ensures WellFormed((s + [r])[i])
    {
      if i < |s| {
        assert (s + [r])[i] == s[i];
      }
    }
  }

  /** The records a submission adds to the store. */
  function Written(o: Outcome): (w: seq<Inquiry>)
    ensures |w| <= 1
    ensures w != [] <==> o.Created?
    ensures o.Created? ==> w == [o.record]
  {
    if o.Created? then [o.record] else []
  }

  /** The listing response: the records (status 200), or the generic failure (status 500). */
  datatype ListReply = Listed(data: seq<Inquiry>) | ListFailed(message: string) {
    function Status(): int {
      if Listed? then 200 else 500
    }
  }

  /** The health probe's body. */
  datatype HealthReply = HealthReply(status: string, timestamp: Timestamp)

  /** `GET /api/health`: always "ok" with the clock reading; it reads no stored state. */
  function Health(now: Timestamp): (h: HealthReply)
    ensures h.status == "ok" && h.timestamp == now
  {
    HealthReply("ok", now)
  }

  /** The persistent inquiry collection. */
  class Store {
    var records: seq<Inquiry>

    /** Invalid values never reach storage. */
    ghost predicate Valid()
      reads this
    {
      AllWellFormed(records)
    }

    constructor ()
      ensures Valid() && records == []
    {
      records := [];
    }

    /**
     * `POST /api/contact`: answers as Decide says and appends exactly the
     * created record, or nothing.
     */
    method Submit(p: Payload, now: Timestamp, available: bool) returns (resp: Response)
      requires Valid()
      modifies this
      ensures Valid()
      ensures resp == Reply(Decide(p, now, available))
      ensures records == old(records) + Written(Decide(p, now, available))
    {
      if !AllPresent(p) {
        return Reply(MissingField);
      }
      if !MatchesEmail(p.email.value) {
        return Reply(InvalidEmail);
      }
      if !IsValidPhone(p.phone.value) {
        return Reply(InvalidPhone);
      }
      var draft := Draft(p.phone.value, p.email.value, p.gradeLevel.value, p.project.value,
                         Some(MessageOrEmpty(p.message)));
      var doc := Normalize(draft, now);
      var violation := Violation(doc);
      if violation.Some? {
        return Reply(StoreError(SchemaViolation(violation.value)));
      }
      if !available {
        return Reply(StoreError(Unavailable));
      }
      CreatedIsWellFormed(p, now);
      AppendWellFormed(records, doc);
      records := records + [doc];
      resp := Reply(Created(doc));
    }

    /**
     * `GET /api/contacts`: when the storage collaborator answers, every stored
     * record, newest first; it changes nothing.
     */
    method Contacts(available: bool) returns (r: ListReply)
      ensures r.Listed? <==> available
      ensures r.Status() == 200 <==> available
      ensures r.Listed? ==> multiset(r.data) == multiset(records) && NewestFirst(r.data)
      ensures r.Listed? ==> |r.data| == |records|
      ensures r.ListFailed? ==> r.message == ListFailedMessage
    {
      if available {
        r := Listed(SortNewestFirst(records));
      } else {
        r := ListFailed(ListFailedMessage);
      }
    }
  }
}
