/** `Mutation.createFeedback`: validation in a fixed order, an append-only
    insert of the trimmed values, and one publication of the stored row. */
module Mutations {
  import opened Wrappers
  import opened JsValues
  import opened Store
  import opened Seqs
  import opened Ordering
  import Queries

  datatype CreateFeedbackInput = CreateFeedbackInput(
    eventId: Id,
    authorName: string,
    content: string,
    rating: int)

  /** The errors the resolver throws, in the order it checks for them. */
  datatype CreateError = RatingOutOfRange | ContentRequired | AuthorNameRequired | EventNotFound

  function Message(e: CreateError): string {
    match e
    case RatingOutOfRange => "Rating must be between 1 and 5"
    case ContentRequired => "Content is required"
    case AuthorNameRequired => "Author name is required"
    case EventNotFound => "Event not found"
  }

  /** The store after the insert, the publication log after the publish, and
      the row the mutation returns. */
  datatype Created = Created(db: Db, published: seq<FeedbackRow>, feedback: FeedbackRow)

  /** The checks of `createFeedback`, in the order the resolver makes them;
      the first one that fails decides the error. */
  function Validate(db: Db, input: CreateFeedbackInput): (e: Option<CreateError>)
    ensures e == Some(RatingOutOfRange) <==> !RatingInRange(input.rating)
    ensures e == Some(ContentRequired) <==> RatingInRange(input.rating) && Blank(input.content)
    ensures e == Some(AuthorNameRequired) <==>
      RatingInRange(input.rating) && !Blank(input.content) && Blank(input.authorName)
    ensures e == Some(EventNotFound) <==>
      RatingInRange(input.rating) && !Blank(input.content) && !Blank(input.authorName) && !HasEvent(db, input.eventId)
  {
    if input.rating < 1 || input.rating > 5 then Some(RatingOutOfRange)
    else if Trim(input.content) == "" then Some(ContentRequired)
    else if Trim(input.authorName) == "" then Some(AuthorNameRequired)
    else if Queries.EventById(db, input.eventId).None? then Some(EventNotFound)
    else None
  }

  /** The message of the error `createFeedback` throws for `input`, or
      None when it inserts a row. Each message names the first check that
      fails. */
  function ErrorMessage(db: Db, input: CreateFeedbackInput): (m: Option<string>)
    ensures m.None? <==> Validate(db, input).None?
    ensures m == Some("Rating must be between 1 and 5") <==> !RatingInRange(input.rating)
    ensures m == Some("Content is required") <==> RatingInRange(input.rating) && Blank(input.content)
    ensures m == Some("Author name is required") <==>
      RatingInRange(input.rating) && !Blank(input.content) && Blank(input.authorName)
    ensures m == Some("Event not found") <==>
      RatingInRange(input.rating) && !Blank(input.content) && !Blank(input.authorName) && !HasEvent(db, input.eventId)
  {
    match Validate(db, input)
    case None => None
    case Some(e) => Some(Message(e))
  }

  /** `createFeedback(input)` against the store `db` and the log of records
      published so far. The database supplies `newId` and the timestamp `now`.
      On an error nothing is inserted or published: the caller keeps `db` and
      `published`. */
  function CreateFeedback(db: Db, published: seq<FeedbackRow>, input: CreateFeedbackInput, newId: Id, now: int)
    : (r: Result<Created, CreateError>)
    ensures r.Failure? <==> Validate(db, input).Some?
    ensures r.Failure? ==> r.error == Validate(db, input).value
    ensures r.Success? ==>
      && r.value.db.events == db.events
      && |r.value.db.feedback| == |db.feedback| + 1
      && r.value.db.feedback[..|db.feedback|] == db.feedback
      && r.value.db.feedback[|db.feedback|] == r.value.feedback
      && r.value.published == published + [r.value.feedback]
    ensures r.Success? ==>
      && r.value.feedback.id == newId
      && r.value.feedback.createdAt == now
      && r.value.feedback.eventId == input.eventId
      && r.value.feedback.rating == input.rating
      && r.value.feedback.authorName == Trim(input.authorName)
      && r.value.feedback.content == Trim(input.content)
    ensures r.Success? ==>
      && RatingInRange(r.value.feedback.rating)
      && HasEvent(db, r.value.feedback.eventId)
      && r.value.feedback.authorName != [] && Tight(r.value.feedback.authorName)
      && r.value.feedback.content != [] && Tight(r.value.feedback.content)
  {
    match Validate(db, input)
    case Some(e) => Failure(e)
    case None =>
      var row := FeedbackRow(newId, input.eventId, Trim(input.authorName), Trim(input.content), input.rating, now);
      var feedback := db.feedback + [row];
      assert feedback[..|db.feedback|] == db.feedback;
      Success(Created(Db(db.events, feedback), published + [row], row))
  }

  /** A successful insert keeps the table constraints, given that the
      database hands out an unused id. */
  lemma CreatePreservesValid(db: Db, published: seq<FeedbackRow>, input: CreateFeedbackInput, newId: Id, now: int)
    requires Valid(db) && !HasFeedbackId(db, newId)
    requires CreateFeedback(db, published, input, newId, now).Success?
    ensures Valid(CreateFeedback(db, published, input, newId, now).value.db)
  {
    var c := CreateFeedback(db, published, input, newId, now).value;
    var n, f := |db.feedback|, c.db.feedback;
    assert f == db.feedback + [c.feedback];
    assert c.db.events == db.events;
    forall i, j | 0 <= i < j < n + 1 ensures f[i].id != f[j].id {
      if j == n {
        assert f[i] == db.feedback[i];
      }
    }
    forall i | 0 <= i < n + 1 ensures HasEvent(c.db, f[i].eventId) && RatingInRange(f[i].rating) {
      if i < n {
        assert f[i] == db.feedback[i];
        assert HasEvent(db, db.feedback[i].eventId);
      }
    }
  }

  /** The application-level state: the store and the log of everything
      published on the `feedbackAdded` topic. */
  datatype Server = Server(db: Db, published: seq<FeedbackRow>)

  /** One `createFeedback` request: the new state on success, the old one on
      an error. */
  function Handle(s: Server, input: CreateFeedbackInput, newId: Id, now: int): Server {
    match CreateFeedback(s.db, s.published, input, newId, now)
    case Success(c) => Server(c.db, c.published)
    case Failure(_) => s
  }

  /** The publication log is the tail of the feedback table: every published
      record is stored, and since the log began every insert was published
      exactly once, in insertion order. */
  predicate PublishedTail(s: Server) {
    IsSuffix(s.published, s.db.feedback)
  }

  lemma HandlePreservesPublishedTail(s: Server, input: CreateFeedbackInput, newId: Id, now: int)
    requires PublishedTail(s)
    ensures PublishedTail(Handle(s, input, newId, now))
    ensures CreateFeedback(s.db, s.published, input, newId, now).Failure? ==> Handle(s, input, newId, now) == s
  {
    var r := CreateFeedback(s.db, s.published, input, newId, now);
    if r.Success? {
      var c := r.value;
      SuffixAppend(s.published, s.db.feedback, c.feedback);
      assert c.db.feedback == s.db.feedback + [c.feedback];
      assert c.published == s.published + [c.feedback];
      assert Handle(s, input, newId, now) == Server(c.db, c.published);
    } else {
      assert Handle(s, input, newId, now) == s;
    }
  }

  /** With a clock that has moved past every stored timestamp, the new row
      is the first one `Event.feedback` lists for its event. Timestamps have
      one-second resolution, so a row stored in the same second could be
      listed either way; the strict bound rules that tie out. */
  lemma CreatedFeedbackListedFirst(db: Db, published: seq<FeedbackRow>, input: CreateFeedbackInput, newId: Id, now: int)
    requires forall i | 0 <= i < |db.feedback| :: db.feedback[i].createdAt < now
    requires CreateFeedback(db, published, input, newId, now).Success?
    ensures var c := CreateFeedback(db, published, input, newId, now).value;
            Queries.EventFeedback(c.db, input.eventId)[0] == c.feedback
  {
    var c := CreateFeedback(db, published, input, newId, now).value;
    assert c.db == Db(db.events, db.feedback + [c.feedback]);
    NewestRowListedFirst(db, c.feedback);
  }

  /** Under the same clock the new row also heads an unfiltered
      `Query.feedback`. */
  lemma CreatedFeedbackHeadsFeed(db: Db, published: seq<FeedbackRow>, input: CreateFeedbackInput, newId: Id, now: int)
    requires forall i | 0 <= i < |db.feedback| :: db.feedback[i].createdAt < now
    requires CreateFeedback(db, published, input, newId, now).Success?
    ensures var c := CreateFeedback(db, published, input, newId, now).value;
            Queries.Matching(c.db, None)[0] == c.feedback
  {
    var c := CreateFeedback(db, published, input, newId, now).value;
    assert c.db == Db(db.events, db.feedback + [c.feedback]);
    NewestRowHeadsFeed(db, c.feedback);
  }

  /** A row appended with a timestamp past every stored one heads its
      event's list. */
  lemma NewestRowListedFirst(db: Db, x: FeedbackRow)
    requires forall i | 0 <= i < |db.feedback| :: db.feedback[i].createdAt < x.createdAt
    ensures Queries.EventFeedback(Db(db.events, db.feedback + [x]), x.eventId)[0] == x
  {
    var p := Queries.OfEvent(x.eventId);
    var rows := Filter(db.feedback, p);
    forall i | 0 <= i < |rows| ensures rows[i].createdAt < x.createdAt {
      assert rows[i] in db.feedback;
    }
    SortAppendNewest(rows, x);
    FilterAppend(db.feedback, x, p);
  }

  /** A row appended with a timestamp past every stored one heads the
      unfiltered feed. */
  lemma NewestRowHeadsFeed(db: Db, x: FeedbackRow)
    requires forall i | 0 <= i < |db.feedback| :: db.feedback[i].createdAt < x.createdAt
    ensures Queries.Matching(Db(db.events, db.feedback + [x]), None)[0] == x
  {
    var rows := db.feedback + [x];
    SortAppendNewest(db.feedback, x);
    FilterAll(rows, Queries.WhereClause(None));
  }
}
