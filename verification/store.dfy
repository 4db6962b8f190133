/** The two tables of the entity store, held in memory in insertion order.
    Identifiers are abstract strings (the database generates them) and
    timestamps are integers ordered like the stored `created_at` values. */
module Store {
  import opened Wrappers

  type Id = string

  datatype EventRow = EventRow(
    id: Id,
    name: string,
    description: Option<string>,
    date: string,
    createdAt: int)

  datatype FeedbackRow = FeedbackRow(
    id: Id,
    eventId: Id,
    authorName: string,
    content: string,
    rating: int,
    createdAt: int)

  /** The `events` and `feedback` tables, each in insertion order. */
  datatype Db = Db(events: seq<EventRow>, feedback: seq<FeedbackRow>)

  predicate HasEvent(db: Db, id: Id) {
    exists i | 0 <= i < |db.events| :: db.events[i].id == id
  }

  predicate HasFeedbackId(db: Db, id: Id) {
    exists i | 0 <= i < |db.feedback| :: db.feedback[i].id == id
  }

  /** The `CHECK (rating >= 1 AND rating <= 5)` constraint. */
  predicate RatingInRange(rating: int) {
    1 <= rating <= 5
  }

  /** The table constraints: primary keys are unique, every feedback row
      references an existing event, and every rating passes the check
      constraint. */
  predicate Valid(db: Db) {
    && (forall i, j | 0 <= i < j < |db.events| :: db.events[i].id != db.events[j].id)
    && (forall i, j | 0 <= i < j < |db.feedback| :: db.feedback[i].id != db.feedback[j].id)
    && (forall i | 0 <= i < |db.feedback| :: HasEvent(db, db.feedback[i].eventId))
    && (forall i | 0 <= i < |db.feedback| :: RatingInRange(db.feedback[i].rating))
  }
}
