/** `Subscription.feedbackAdded(eventId)`: each subscriber sees the records
    published on the `feedbackAdded` topic, narrowed by its optional event
    id. Delivery is modelled on the sequential log of publications. */
module Subscriptions {
  import opened Wrappers
  import opened JsValues
  import opened Store
  import opened Seqs
  import Mutations

  /** The `filter` step of `subscribe`: a falsy argument lets everything
      through, otherwise the event ids must be equal. */
  predicate Delivers(eventId: Option<Id>, r: FeedbackRow) {
    if !StrTruthy(eventId) then true else r.eventId == eventId.value
  }

  function DeliversTo(eventId: Option<Id>): FeedbackRow -> bool {
    (r: FeedbackRow) => Delivers(eventId, r)
  }

  /** The records a subscriber with argument `eventId` receives from the
      publication log `published`. */
  function Stream(published: seq<FeedbackRow>, eventId: Option<Id>): (t: seq<FeedbackRow>)
    ensures |t| <= |published|
    ensures !StrTruthy(eventId) ==> forall x :: x in t <==> x in published
    ensures StrTruthy(eventId) ==> forall x :: x in t <==> x in published && x.eventId == eventId.value
  {
    Filter(published, DeliversTo(eventId))
  }

  /** `resolve`: the payload is the field value. */
  function Resolve(payload: FeedbackRow): FeedbackRow {
    payload
  }

  /** What the subscriber's client receives: every streamed payload passed
      through `resolve`, which is the stream itself. */
  function Received(published: seq<FeedbackRow>, eventId: Option<Id>): (t: seq<FeedbackRow>)
    ensures t == Stream(published, eventId)
  {
    var s := Stream(published, eventId);
    seq(|s|, i requires 0 <= i < |s| => Resolve(s[i]))
  }

  /** Without a (truthy) argument every published record is delivered, in
      publication order. */
  lemma UnfilteredGetsEverything(published: seq<FeedbackRow>, eventId: Option<Id>)
    requires !StrTruthy(eventId)
    ensures Stream(published, eventId) == published
  {
    FilterAll(published, DeliversTo(eventId));
  }

  /** The stream keeps publication order and invents nothing; when the log
      holds no record twice, neither does the stream. */
  lemma StreamPreservesOrder(published: seq<FeedbackRow>, eventId: Option<Id>)
    ensures IsSubsequence(Stream(published, eventId), published)
    ensures NoDuplicates(published) ==> NoDuplicates(Stream(published, eventId))
  {
    FilterIsSubsequence(published, DeliversTo(eventId));
    if NoDuplicates(published) {
      FilterNoDuplicates(published, DeliversTo(eventId));
    }
  }

  /** Publishing one more record extends a subscriber's stream by that
      record exactly when it passes the subscriber's filter. */
  lemma PublishExtendsStream(published: seq<FeedbackRow>, r: FeedbackRow, eventId: Option<Id>)
    ensures Stream(published + [r], eventId)
         == Stream(published, eventId) + (if Delivers(eventId, r) then [r] else [])
  {
    FilterAppend(published, r, DeliversTo(eventId));
  }

  /** A filtered subscriber's stream is an ordered part of an unfiltered
      subscriber's stream. */
  lemma FilteredWithinUnfiltered(published: seq<FeedbackRow>, eventId: Option<Id>)
    ensures IsSubsequence(Stream(published, eventId), Stream(published, None))
  {
    FilterStronger(published, DeliversTo(eventId), DeliversTo(None));
  }

  /** Subscribers to different events never receive the same record. */
  lemma DifferentEventsDisjoint(published: seq<FeedbackRow>, a: Id, b: Id)
    requires a != "" && b != "" && a != b
    ensures forall x | x in Stream(published, Some(a)) :: x !in Stream(published, Some(b))
  {
  }

  /** A successful `createFeedback` reaches exactly the subscribers whose
      filter the new record passes, as the last item of their streams;
      a request that fails reaches nobody. */
  lemma CreateNotifiesMatchingSubscribers(
    db: Db, published: seq<FeedbackRow>, input: Mutations.CreateFeedbackInput,
    newId: Id, now: int, eventId: Option<Id>)
    ensures var r := Mutations.CreateFeedback(db, published, input, newId, now);
            r.Success? ==>
              Stream(r.value.published, eventId)
              == Stream(published, eventId)
                 + (if !StrTruthy(eventId) || input.eventId == eventId.value then [r.value.feedback] else [])
    ensures var r := Mutations.CreateFeedback(db, published, input, newId, now);
            var after := Mutations.Handle(Mutations.Server(db, published), input, newId, now);
            r.Failure? ==> Stream(after.published, eventId) == Stream(published, eventId)
  {
    var r := Mutations.CreateFeedback(db, published, input, newId, now);
    if r.Success? {
      PublishExtendsStream(published, r.value.feedback, eventId);
    }
  }
}
