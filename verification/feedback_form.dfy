/** The `FeedbackForm` component: its initial state, the submit guard and
    the payload it sends, `isValid`, and the reset after a successful
    mutation. */
module FeedbackForm {
  import opened Wrappers
  import opened JsValues
  import opened Store
  import opened Mutations

  datatype FormState = FormState(eventId: Option<Id>, authorName: string, content: string, rating: int)

  /** The state the form starts in: the preselected event if it is truthy,
      empty text and no stars. */
  function Initial(preselectedEventId: Option<Id>): (s: FormState)
    ensures s.eventId.Some? <==> StrTruthy(preselectedEventId)
    ensures s.eventId.Some? ==> s.eventId == preselectedEventId
    ensures s.authorName == "" && s.content == "" && s.rating == 0
  {
    FormState(StrOrNull(preselectedEventId), "", "", 0)
  }

  /** `handleSubmit`: nothing is sent while an event, a non-blank name, a
      non-blank text or a rating is missing; otherwise the trimmed text
      with the event and rating as they are. */
  function Submit(s: FormState): (p: Option<CreateFeedbackInput>)
    ensures p.None? <==> !StrTruthy(s.eventId) || Blank(s.authorName) || Blank(s.content) || s.rating == 0
    ensures p.Some? ==>
      && p.value.eventId == s.eventId.value
      && p.value.rating == s.rating
      && p.value.authorName == Trim(s.authorName)
      && p.value.content == Trim(s.content)
  {
    if !StrTruthy(s.eventId) || Trim(s.authorName) == "" || Trim(s.content) == "" || s.rating == 0 then
      None
    else
      Some(CreateFeedbackInput(s.eventId.value, Trim(s.authorName), Trim(s.content), s.rating))
  }

  /** `isValid`, which enables the submit button. */
  predicate IsValid(s: FormState) {
    StrTruthy(s.eventId) && Trim(s.authorName) != "" && Trim(s.content) != "" && s.rating > 0
  }

  /** For a non-negative rating (the star widget never produces another)
      the button is enabled exactly when submitting sends something. */
  lemma IsValidIffSubmits(s: FormState)
    requires s.rating >= 0
    ensures IsValid(s) <==> Submit(s).Some?
  {
  }

  /** A payload the form sends passes the server's blank-content and
      blank-author checks, because trimming twice is trimming once. */
  lemma PayloadPassesBlankChecks(s: FormState)
    requires Submit(s).Some?
    ensures var p := Submit(s).value;
            !Blank(p.content) && !Blank(p.authorName)
            && Trim(p.content) == p.content && Trim(p.authorName) == p.authorName
  {
    TrimIdempotent(s.content);
    TrimIdempotent(s.authorName);
  }

  /** With a rating from 1 to 5 and an existing event, the server accepts
      the payload and stores the text exactly as the form trimmed it. */
  lemma SubmittedPayloadStored(db: Db, published: seq<FeedbackRow>, s: FormState, newId: Id, now: int)
    requires Submit(s).Some? && RatingInRange(s.rating) && HasEvent(db, s.eventId.value)
    ensures var r := CreateFeedback(db, published, Submit(s).value, newId, now);
            && r.Success?
            && r.value.feedback.authorName == Trim(s.authorName)
            && r.value.feedback.content == Trim(s.content)
            && r.value.feedback.eventId == s.eventId.value
            && r.value.feedback.rating == s.rating
  {
    PayloadPassesBlankChecks(s);
  }

  /** `onCompleted`: the text and rating are cleared; the event is cleared
      only when none was preselected. */
  function OnCompleted(s: FormState, preselectedEventId: Option<Id>): (t: FormState)
    ensures t.authorName == "" && t.content == "" && t.rating == 0
    ensures StrTruthy(preselectedEventId) ==> t.eventId == s.eventId
    ensures !StrTruthy(preselectedEventId) ==> t.eventId == None
  {
    FormState(if StrTruthy(preselectedEventId) then s.eventId else None, "", "", 0)
  }

  /** After the reset the form sends nothing until it is filled in again. */
  lemma ResetFormSendsNothing(s: FormState, preselectedEventId: Option<Id>)
    ensures Submit(OnCompleted(s, preselectedEventId)).None?
    ensures !IsValid(OnCompleted(s, preselectedEventId))
  {
  }
}
