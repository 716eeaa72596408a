/** The `calendar.event` creation hook: after the platform has stored a batch
    of new events, every event whose back-reference names a document links
    that document to itself, unless the document is linked already. */
module CalendarEvent {
  import opened Records

  /** The event's back-reference names a document: the model is the document
      model and the record id is set. */
  predicate Refers(e: Event)
  {
    e.resModel == DocumentModel && e.resId != 0
  }

  /** The hook's step for one event with id `id`. Reading the link of a
      document that does not exist raises. */
  function LinkOne(docs: map<DocId, Document>, e: Event, id: EventId): (r: Result<map<DocId, Document>>)
    ensures r.Failure? <==> Refers(e) && e.resId !in docs
    ensures r.Failure? ==> r.error == MissingRecord(e.resId)
    ensures r.Success? ==> r.value.Keys == docs.Keys
    ensures r.Success? && !Refers(e) ==> r.value == docs
    ensures r.Success? && Refers(e) ==> r.value[e.resId].calendarEvent.Some?
    ensures r.Success? ==> forall x :: x in docs && docs[x].calendarEvent.Some? ==> r.value[x] == docs[x]
  {
    if Refers(e) then
      if e.resId !in docs then Failure(MissingRecord(e.resId))
      else if docs[e.resId].calendarEvent.None? then
        Success(docs[e.resId := docs[e.resId].(calendarEvent := Some(id))])
      else Success(docs)
    else Success(docs)
  }

  /** The hook over a batch whose events got the ids `first`, `first + 1`, ...,
      in iteration order. */
  function LinkAll(docs: map<DocId, Document>, batch: seq<Event>, first: EventId): (r: Result<map<DocId, Document>>)
    ensures r.Failure? ==> r.error.MissingRecord? && r.error.id !in docs
    ensures r.Success? ==> r.value.Keys == docs.Keys
    ensures r.Success? ==> forall x :: x in docs && docs[x].calendarEvent.Some? ==> r.value[x] == docs[x]
    decreases |batch|
  {
    if batch == [] then Success(docs)
    else
      match LinkOne(docs, batch[0], first)
      case Failure(err) => Failure(err)
      case Success(next) => LinkAll(next, batch[1..], first + 1)
  }

  /** `create` on `calendar.event` with the hook: the parent stores the batch
      (ids are the next free indices), then the loop links documents. On an
      exception the transaction is rolled back and nothing changes. */
  method Create(env: Env, batch: seq<Event>) returns (r: Result<seq<EventId>>)
    requires env.Valid()
    modifies env
    ensures env.Valid()
    ensures env.ids == old(env.ids) && env.posts == old(env.posts) && env.activities == old(env.activities)
    ensures LinkAll(old(env.docs), batch, |old(env.events)|).Success? ==>
      && r == Success(seq(|batch|, k => |old(env.events)| + k))
      && env.events == old(env.events) + batch
      && env.docs == LinkAll(old(env.docs), batch, |old(env.events)|).value
    ensures LinkAll(old(env.docs), batch, |old(env.events)|).Failure? ==>
      && r == Failure(LinkAll(old(env.docs), batch, |old(env.events)|).error)
      && env.events == old(env.events) && env.docs == old(env.docs)
  {
    var docs0, events0 := env.docs, env.events;
    var first := |env.events|;
    env.events := env.events + batch;
    var i := 0;
    while i < |batch|
      invariant 0 <= i <= |batch|
      invariant env.events == events0 + batch
      invariant LinkAll(docs0, batch, first) == LinkAll(env.docs, batch[i..], first + i)
      invariant LinkedBelow(env.docs, first + i)
      invariant env.ids == old(env.ids) && env.posts == old(env.posts) && env.activities == old(env.activities)
    {
      var e := batch[i];
      assert batch[i..][0] == e && batch[i..][1..] == batch[i + 1..];
      if e.resModel == DocumentModel && e.resId != 0 {
        if e.resId !in env.docs {
          env.docs, env.events := docs0, events0;
          return Failure(MissingRecord(e.resId));
        }
        if env.docs[e.resId].calendarEvent.None? {
          env.docs := env.docs[e.resId := env.docs[e.resId].(calendarEvent := Some(first + i))];
        }
      }
      i := i + 1;
    }
    assert batch[i..] == [];
    r := Success(seq(|batch|, k => first + k));
  }

  /** Every link names an event below `bound`. */
  ghost predicate LinkedBelow(docs: map<DocId, Document>, bound: nat)
  {
    forall x :: x in docs && docs[x].calendarEvent.Some? ==> docs[x].calendarEvent.value < bound
  }

  // ---------------------------------------------------------------------------
  // What the hook promises

  /** The hook raises exactly when some event of the batch refers to a
      document that does not exist. */
  lemma {:induction false} LinkAllFailsIff(docs: map<DocId, Document>, batch: seq<Event>, first: EventId)
    ensures LinkAll(docs, batch, first).Failure? <==>
      exists i :: 0 <= i < |batch| && Refers(batch[i]) && batch[i].resId !in docs
    decreases |batch|
  {
    if batch != [] {
      match LinkOne(docs, batch[0], first)
      case Failure(_) =>
        assert Refers(batch[0]) && batch[0].resId !in docs;
      case Success(next) =>
        assert next.Keys == docs.Keys;
        LinkAllFailsIff(next, batch[1..], first + 1);
        if exists i :: 0 <= i < |batch| && Refers(batch[i]) && batch[i].resId !in docs {
          var i :| 0 <= i < |batch| && Refers(batch[i]) && batch[i].resId !in docs;
          assert i != 0;
          assert batch[1..][i - 1] == batch[i];
        }
        if exists i :: 0 <= i < |batch[1..]| && Refers(batch[1..][i]) && batch[1..][i].resId !in next {
          var i :| 0 <= i < |batch[1..]| && Refers(batch[1..][i]) && batch[1..][i].resId !in next;
          assert batch[i + 1] == batch[1..][i];
        }
    }
  }

  /** What the hook may do to document `x` while processing `batch` (ids from
      `first`): write only its link; leave an existing link alone (set-once);
      and write only the id of an event of the batch that refers to `x`. */
  ghost predicate Relinks(before: Document, after: Document, x: DocId, batch: seq<Event>, first: EventId)
  {
    && after == before.(calendarEvent := after.calendarEvent)
    && (before.calendarEvent.Some? ==> after == before)
    && (after.calendarEvent != before.calendarEvent ==>
          && after.calendarEvent.Some?
          && first <= after.calendarEvent.value < first + |batch|
          && Refers(batch[after.calendarEvent.value - first])
          && batch[after.calendarEvent.value - first].resId == x)
  }

  lemma RelinksCompose(before: Document, mid: Document, after: Document, x: DocId, batch: seq<Event>, first: EventId)
    requires batch != []
    requires Relinks(before, mid, x, batch[..1], first)
    requires Relinks(mid, after, x, batch[1..], first + 1)
    ensures Relinks(before, after, x, batch, first)
  {
    if after.calendarEvent != before.calendarEvent {
      if mid.calendarEvent != before.calendarEvent {
        assert after == mid;
      } else {
        var k := after.calendarEvent.value - (first + 1);
        assert batch[1..][k] == batch[k + 1];
      }
    }
  }

  /** On success the hook writes only the link field of documents; a document
      that had a link keeps it (set-once); and a link it writes names an event
      of this batch that refers to that very document. */
  lemma {:induction false} LinkAllFrame(docs: map<DocId, Document>, batch: seq<Event>, first: EventId)
    requires LinkAll(docs, batch, first).Success?
    ensures forall x :: x in docs ==> Relinks(docs[x], LinkAll(docs, batch, first).value[x], x, batch, first)
    decreases |batch|
  {
    if batch != [] {
      var next := LinkOne(docs, batch[0], first).value;
      LinkAllFrame(next, batch[1..], first + 1);
      var after := LinkAll(docs, batch, first).value;
      assert after == LinkAll(next, batch[1..], first + 1).value;
      forall x | x in docs ensures Relinks(docs[x], after[x], x, batch, first) {
        assert batch[..1][0] == batch[0];
        assert Relinks(docs[x], next[x], x, batch[..1], first);
        RelinksCompose(docs[x], next[x], after[x], x, batch, first);
      }
    }
  }

  /** Several events of one batch refer to the same unlinked document: the
      first of them in iteration order is the one linked. */
  lemma {:induction false} LinkAllFirstWins(docs: map<DocId, Document>, batch: seq<Event>, first: EventId, i: nat)
    requires LinkAll(docs, batch, first).Success?
    requires i < |batch| && Refers(batch[i])
    requires batch[i].resId in docs && docs[batch[i].resId].calendarEvent.None?
    requires forall j :: 0 <= j < i ==> !(Refers(batch[j]) && batch[j].resId == batch[i].resId)
    ensures LinkAll(docs, batch, first).value[batch[i].resId].calendarEvent == Some(first + i)
    decreases i
  {
    var x := batch[i].resId;
    var next := LinkOne(docs, batch[0], first).value;
    LinkAllFrame(next, batch[1..], first + 1);
    if i > 0 {
      assert next[x] == docs[x];
      forall j | 0 <= j < i - 1
        ensures !(Refers(batch[1..][j]) && batch[1..][j].resId == batch[1..][i - 1].resId)
      {
        assert batch[1..][j] == batch[j + 1];
      }
      LinkAllFirstWins(next, batch[1..], first + 1, i - 1);
    }
  }

  /** On success every document that some event of the batch refers to ends
      up linked to an event. */
  lemma {:induction false} LinkAllLinksReferenced(docs: map<DocId, Document>, batch: seq<Event>, first: EventId, i: nat)
    requires LinkAll(docs, batch, first).Success?
    requires i < |batch| && Refers(batch[i])
    ensures batch[i].resId in docs
    ensures LinkAll(docs, batch, first).value[batch[i].resId].calendarEvent.Some?
    decreases i
  {
    var next := LinkOne(docs, batch[0], first).value;
    LinkAllFrame(next, batch[1..], first + 1);
    if i > 0 {
      assert batch[1..][i - 1] == batch[i];
      LinkAllLinksReferenced(next, batch[1..], first + 1, i - 1);
    }
  }

  /** A batch in which no event refers to a document changes no document. */
  lemma {:induction false} LinkAllIgnoresOthers(docs: map<DocId, Document>, batch: seq<Event>, first: EventId)
    requires forall i :: 0 <= i < |batch| ==> !Refers(batch[i])
    ensures LinkAll(docs, batch, first) == Success(docs)
    decreases |batch|
  {
    if batch != [] {
      assert !Refers(batch[0]);
      forall i | 0 <= i < |batch[1..]| ensures !Refers(batch[1..][i]) {
        assert batch[1..][i] == batch[i + 1];
      }
      LinkAllIgnoresOthers(docs, batch[1..], first + 1);
    }
  }
}
