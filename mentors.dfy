/**
 * The stored mentor profile and `updateMentorDetails`, which replaces the
 * weekly schedule only when the mentor marks themselves active.
 */
module Mentors {
  import opened Common
  import opened Availability

  /** The fields a mentor submits when updating their details. */
  datatype MentorUpdate = MentorUpdate(
    name: string,
    email: string,
    slackId: string,
    isActive: bool,
    markdownContent: string,
    availableTime: Option<Week>)

  /**
   * The mentor row as stored.  The schedule is kept as a structured week; the
   * stored form is its serialisation.
   */
  class Mentor {
    const intraId: string
    var name: string
    var email: string
    var slackId: string
    var isActive: bool
    var markdownContent: string
    var availableTime: Week

    /** An active mentor's stored schedule is one that validation accepted. */
    ghost predicate Valid()
      reads this
    {
      isActive ==> ValidateSchedule(availableTime) == Ok(availableTime)
    }

    /** `createUser`: a new mentor starts inactive. */
    constructor CreateUser(intraId: string)
      ensures Valid()
      ensures this.intraId == intraId && !isActive && availableTime == []
    {
      this.intraId := intraId;
      name, email, slackId, markdownContent := "", "", "", "";
      isActive := false;
      availableTime := [];
    }

    /**
     * `updateMentorDetails`: copies the submitted fields; when the mentor turns
     * active a schedule must be given and pass validation, and it replaces the
     * stored one.  An inactive update leaves the stored schedule alone.  A
     * failure throws before the row is saved, so nothing changes.
     */
    method UpdateMentorDetails(infos: MentorUpdate) returns (r: Outcome)
      modifies this
      ensures r.Pass? <==>
        !infos.isActive || (infos.availableTime.Some? && ValidateSchedule(infos.availableTime.value).Ok?)
      ensures infos.isActive && infos.availableTime.None? ==> r == Fail(MissingAvailableTime)
      ensures infos.isActive && infos.availableTime.Some? && ValidateSchedule(infos.availableTime.value).Err? ==>
        r == Fail(ValidateSchedule(infos.availableTime.value).error)
      ensures r.Fail? ==> unchanged(this)
      ensures r.Pass? ==>
        && name == infos.name && email == infos.email && slackId == infos.slackId
        && isActive == infos.isActive && markdownContent == infos.markdownContent
      ensures r.Pass? && infos.isActive ==> availableTime == infos.availableTime.value
      ensures !infos.isActive ==> availableTime == old(availableTime)
      ensures r.Pass? ==> Valid()
      ensures old(Valid()) ==> Valid()
    {
      var schedule := availableTime;
      if infos.isActive {
        if infos.availableTime.None? {
          return Fail(MissingAvailableTime);
        }
        var checked := ValidateAvailableTime(infos.availableTime.value);
        if checked.Err? {
          return Fail(checked.error);
        }
        schedule := checked.value;
      }
      name := infos.name;
      email := infos.email;
      slackId := infos.slackId;
      isActive := infos.isActive;
      markdownContent := infos.markdownContent;
      availableTime := schedule;
      return Pass;
    }
  }
}
