/**
 * The report lifecycle of a mentoring log: creating the report, editing it,
 * and completing it with the payable amount (reports.service.ts).
 */
module Reports {
  import opened Common
  import Compensation

  /** Report status values stored on the mentoring log. */
  const WRITABLE: string := "작성가능"
  const WRITING: string := "작성중"
  const DONE: string := "작성완료"

  /** Money paid per payable hour. */
  const PAY_PER_HOUR: int := 100000

  /** A cadet or mentor a log or report refers to. */
  datatype Person = Person(id: string, intraId: string)

  /** The stored mentoring log: the meeting, its report status and the money paid for it. */
  class MentoringLog {
    var cadet: Option<Person>
    var mentor: Option<Person>
    var meetingAt: Compensation.Meeting
    var reportStatus: string
    var money: int
    var report: Report?

    constructor (cadet: Option<Person>, mentor: Option<Person>, meetingAt: Compensation.Meeting, reportStatus: string)
      ensures this.cadet == cadet && this.mentor == mentor && this.meetingAt == meetingAt
      ensures this.reportStatus == reportStatus && money == 0 && report == null
    {
      this.cadet, this.mentor, this.meetingAt := cadet, mentor, meetingAt;
      this.reportStatus := reportStatus;
      money := 0;
      report := null;
    }
  }

  /**
   * The stored report.  An empty string stands for an unset text field and 0
   * for an unset feedback score.
   */
  class Report {
    var cadet: Option<Person>
    var mentor: Option<Person>
    var log: MentoringLog?
    var imageUrl: seq<string>
    var signatureUrl: string
    var place: string
    var topic: string
    var content: string
    var feedbackMessage: string
    var feedback1: int
    var feedback2: int
    var feedback3: int

    /** The report `createReport` makes: linked to the log, everything else empty. */
    constructor Create(log: MentoringLog)
      ensures cadet == log.cadet && mentor == log.mentor && this.log == log
      ensures imageUrl == [] && signatureUrl == "" && feedbackMessage == ""
      ensures place == "" && topic == "" && content == ""
      ensures feedback1 == 0 && feedback2 == 0 && feedback3 == 0
    {
      cadet, mentor, this.log := log.cadet, log.mentor, log;
      imageUrl, signatureUrl, feedbackMessage := [], "", "";
      place, topic, content := "", "", "";
      feedback1, feedback2, feedback3 := 0, 0, 0;
    }

    /**
     * `isEnteredReport`: cadet, mentor and log present, at least one image,
     * topic, place and content non-empty, and all three scores non-zero.
     */
    predicate IsEntered()
      reads this
      ensures IsEntered() ==> log != null && mentor.Some? && cadet.Some?
      ensures IsEntered() ==> |imageUrl| > 0 && topic != "" && place != "" && content != ""
      ensures IsEntered() ==> feedback1 != 0 && feedback2 != 0 && feedback3 != 0
    {
      && cadet.Some? && mentor.Some? && |imageUrl| != 0 && log != null
      && topic != "" && place != "" && content != ""
      && feedback1 != 0 && feedback2 != 0 && feedback3 != 0
    }
  }

  /** The fields an edit request may carry; `None` is a field left out of the request. */
  datatype ReportPatch = ReportPatch(
    place: Option<string>,
    topic: Option<string>,
    content: Option<string>,
    feedbackMessage: Option<string>,
    feedback1: Option<int>,
    feedback2: Option<int>,
    feedback3: Option<int>,
    isDone: bool)

  /** A text field after an edit: the new value when one was sent, otherwise the old one. */
  function Patched<T>(current: T, incoming: Option<T>): (r: T)
    ensures incoming.None? ==> r == current
    ensures incoming.Some? ==> r == incoming.value
  {
    if incoming.Some? then incoming.value else current
  }

  /** A feedback score after an edit: the new score when it is truthy (sent and non-zero). */
  function PatchedScore(current: int, incoming: Option<int>): (r: int)
    ensures incoming.None? || incoming.value == 0 ==> r == current
    ensures incoming.Some? && incoming.value != 0 ==> r == incoming.value
  {
    if incoming.Some? && incoming.value != 0 then incoming.value else current
  }

  /** The edit may go ahead: status policy accepts the log's status and the acting mentor owns the report. */
  ghost predicate MayEdit(report: Report, mentorIntraId: string, verify: string -> bool)
    reads report, report.log
  {
    && report.log != null && verify(report.log.reportStatus)
    && report.mentor.Some? && report.mentor.value.intraId == mentorIntraId
  }

  /**
   * `createReport`: refuses a log that already has a report or whose status
   * is not the writable one; otherwise makes a report carrying the log's
   * cadet and mentor and moves the log to "in progress".
   */
  method CreateReport(log: MentoringLog) returns (r: Outcome, report: Report?)
    modifies log
    ensures old(log.report) != null ==> r == Fail(ReportExists)
    ensures old(log.report) == null && old(log.reportStatus) != WRITABLE ==> r == Fail(NotWritable)
    ensures r.Fail? ==> report == null && unchanged(log)
    ensures r.Pass? <==> old(log.report) == null && old(log.reportStatus) == WRITABLE
    ensures r.Pass? ==>
      && report != null && fresh(report)
      && report.cadet == log.cadet && report.mentor == log.mentor && report.log == log
      && log.report == report && log.reportStatus == WRITING
      && report.imageUrl == [] && report.signatureUrl == "" && report.feedbackMessage == ""
      && report.place == "" && report.topic == "" && report.content == ""
      && report.feedback1 == 0 && report.feedback2 == 0 && report.feedback3 == 0
      && !report.IsEntered()
    ensures r.Pass? ==>
      && log.cadet == old(log.cadet) && log.mentor == old(log.mentor)
      && log.meetingAt == old(log.meetingAt) && log.money == old(log.money)
  {
    if log.report != null {
      return Fail(ReportExists), null;
    }
    if log.reportStatus != WRITABLE {
      return Fail(NotWritable), null;
    }
    report := new Report.Create(log);
    log.reportStatus := WRITING;
    log.report := report;
    r := Pass;
  }

  /**
   * `reportDone`: refuses an incomplete report and changes nothing; otherwise
   * pays the capped hours of the meeting at the hourly rate and marks the
   * log complete.  `history` is the mentor's completed meetings.
   */
  method ReportDone(report: Report, history: seq<Compensation.Meeting>) returns (r: Outcome)
    modifies report.log
    ensures !report.IsEntered() ==> r == Fail(IncompleteReport)
    ensures r.Fail? && report.log != null ==> unchanged(report.log)
    ensures report.IsEntered() ==>
      && r == Pass
      && report.log.money == Compensation.TotalHour(history, report.log.meetingAt) * PAY_PER_HOUR
      && report.log.reportStatus == DONE
    ensures report.log != null ==>
      && report.log.cadet == old(report.log.cadet) && report.log.mentor == old(report.log.mentor)
      && report.log.meetingAt == old(report.log.meetingAt) && report.log.report == old(report.log.report)
      && (report.log.reportStatus == old(report.log.reportStatus) || report.log.reportStatus == DONE)
  {
    if !report.IsEntered() {
      return Fail(IncompleteReport);
    }
    var log := report.log;
    var hours := Compensation.CalculateTotalHour(history, log.meetingAt);
    log.money := hours * PAY_PER_HOUR;
    log.reportStatus := DONE;
    r := Pass;
  }

  /**
   * `updateReport`: the status policy `verify` must accept the log's status
   * and the acting mentor must own the report; then the sent fields replace
   * the stored ones, and with `isDone` the report is completed.  A failed
   * completion keeps the edit.
   */
  method UpdateReport(
    report: Report,
    mentorIntraId: string,
    filePaths: Option<seq<string>>,
    signature: Option<string>,
    body: ReportPatch,
    verify: string -> bool,
    history: seq<Compensation.Meeting>)
    returns (r: Outcome)
    modifies report, report.log
    ensures report.log == old(report.log)
    ensures report.cadet == old(report.cadet) && report.mentor == old(report.mentor)
    ensures report.log != null ==>
      && report.log.cadet == old(report.log.cadet) && report.log.mentor == old(report.log.mentor)
      && report.log.report == old(report.log.report) && report.log.meetingAt == old(report.log.meetingAt)
      && (report.log.reportStatus == old(report.log.reportStatus) || report.log.reportStatus == DONE)
    ensures old(report.log) == null ==> r == Fail(MissingRelation)
    ensures old(report.log) != null && !verify(old(report.log.reportStatus)) ==> r == Fail(StatusLocked)
    ensures old(report.log) != null && verify(old(report.log.reportStatus)) && report.mentor.None? ==>
      r == Fail(MissingRelation)
    ensures (old(report.log) != null && verify(old(report.log.reportStatus)) &&
             report.mentor.Some? && report.mentor.value.intraId != mentorIntraId) ==>
      r == Fail(NotOwner)
    ensures !old(MayEdit(report, mentorIntraId, verify)) ==>
      unchanged(report) && (report.log != null ==> unchanged(report.log))
    ensures old(MayEdit(report, mentorIntraId, verify)) ==>
      && report.imageUrl == Patched(old(report.imageUrl), filePaths)
      && report.signatureUrl == Patched(old(report.signatureUrl), signature)
      && report.place == Patched(old(report.place), body.place)
      && report.topic == Patched(old(report.topic), body.topic)
      && report.content == Patched(old(report.content), body.content)
      && report.feedbackMessage == Patched(old(report.feedbackMessage), body.feedbackMessage)
      && report.feedback1 == PatchedScore(old(report.feedback1), body.feedback1)
      && report.feedback2 == PatchedScore(old(report.feedback2), body.feedback2)
      && report.feedback3 == PatchedScore(old(report.feedback3), body.feedback3)
    ensures old(MayEdit(report, mentorIntraId, verify)) && !body.isDone ==>
      r == Pass && unchanged(report.log)
    ensures old(MayEdit(report, mentorIntraId, verify)) && body.isDone ==>
      && (r == Pass <==> report.IsEntered())
      && (r.Fail? ==> r.error == IncompleteReport && unchanged(report.log))
      && (r.Pass? ==>
            && report.log.money == Compensation.TotalHour(history, report.log.meetingAt) * PAY_PER_HOUR
            && report.log.reportStatus == DONE)
  {
    if report.log == null {
      return Fail(MissingRelation);
    }
    if !verify(report.log.reportStatus) {
      return Fail(StatusLocked);
    }
    if report.mentor.None? {
      return Fail(MissingRelation);
    }
    if report.mentor.value.intraId != mentorIntraId {
      return Fail(NotOwner);
    }
    report.imageUrl := Patched(report.imageUrl, filePaths);
    report.signatureUrl := Patched(report.signatureUrl, signature);
    report.place := Patched(report.place, body.place);
    report.topic := Patched(report.topic, body.topic);
    report.content := Patched(report.content, body.content);
    report.feedbackMessage := Patched(report.feedbackMessage, body.feedbackMessage);
    report.feedback1 := PatchedScore(report.feedback1, body.feedback1);
    report.feedback2 := PatchedScore(report.feedback2, body.feedback2);
    report.feedback3 := PatchedScore(report.feedback3, body.feedback3);
    if body.isDone {
      r := ReportDone(report, history);
    } else {
      r := Pass;
    }
  }

  /**
   * A log taken through its lifecycle with a policy that allows edits while
   * the status is writable or in progress.
   */
  method LifecycleScenario(cadet: Person, mentor: Person, stranger: string)
    requires stranger != mentor.intraId
  {
    var meeting := Compensation.Meeting(3, 15, 0, 2 * Compensation.MS_PER_HOUR);
    var log := new MentoringLog(Some(cadet), Some(mentor), meeting, WRITABLE);
    var r, report := CreateReport(log);
    assert r == Pass && log.reportStatus == WRITING;

    // a second report for the same log is refused and changes nothing
    var again, none := CreateReport(log);
    assert again == Fail(ReportExists) && none == null && log.reportStatus == WRITING;

    var editable := (s: string) => s == WRITABLE || s == WRITING;
    var body := ReportPatch(Some("cluster"), Some("graphs"), Some("notes"), None, Some(5), Some(4), Some(3), true);
    r := UpdateReport(report, stranger, Some(["a.png"]), None, body, editable, []);
    assert r == Fail(NotOwner) && log.reportStatus == WRITING;

    // completing without images is refused, but the edit is kept
    r := UpdateReport(report, mentor.intraId, None, None, body, editable, []);
    assert r == Fail(IncompleteReport) && report.topic == "graphs" && log.reportStatus == WRITING;

    r := UpdateReport(report, mentor.intraId, Some(["a.png"]), None, body, editable, []);
    assert r == Pass && log.reportStatus == DONE;
    assert log.money == Compensation.TotalHour([], meeting) * PAY_PER_HOUR;

    // once complete, the policy refuses further edits
    r := UpdateReport(report, mentor.intraId, None, None, body, editable, []);
    assert r == Fail(StatusLocked);
  }
}
