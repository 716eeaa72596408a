/** The "create calendar reminder" action of a document: for each document of
    the record set, refuse an undated one, open the existing event of a
    linked one, or create a one-hour event at 09:00 on the expiration date
    and link it. */
module Reminder {
  import opened Records
  import CalendarEvent

  /** 09:00, in minutes after midnight. */
  const StartOfReminder := 9 * 60
  /** One hour. */
  const ReminderLength := 60

  /** The event the action creates for document `x`. */
  function ReminderEvent(d: Document, x: DocId): (e: Event)
    requires d.expirationDate.Some?
    ensures e.start / MinutesPerDay == d.expirationDate.value && e.start % MinutesPerDay == StartOfReminder
    ensures e.stop - e.start == ReminderLength && !e.allday
    ensures d.vehicle.driver.Some? ==> e.partners == [d.vehicle.driver.value.id]
    ensures d.vehicle.driver.None? ==> e.partners == []
    ensures CalendarEvent.Refers(e) <==> x != 0
    ensures e.resModel == DocumentModel && e.resId == x
  {
    var start := d.expirationDate.value * MinutesPerDay + StartOfReminder;
    Event("Expiration: " + d.name + " - " + d.vehicle.name,
          start, start + ReminderLength, false,
          if d.vehicle.driver.Some? then [d.vehicle.driver.value.id] else [],
          DocumentModel, x)
  }

  predicate InDocs(docs: map<DocId, Document>, ids: seq<DocId>)
  {
    forall j :: 0 <= j < |ids| ==> ids[j] in docs
  }

  /** How the loop over the record set ended. */
  datatype Exit = Finished | Raised(error: Error) | Returned(action: Action)

  /** The state when the loop ends, before any rollback. */
  datatype Run = Run(docs: map<DocId, Document>, events: seq<Event>, exit: Exit)

  /** The state after the action, rollback included, and what it returns. */
  datatype Outcome = Outcome(docs: map<DocId, Document>, events: seq<Event>, result: Result<Action>)

  /** The loop of the action, document by document, in record-set order. */
  function RunReminders(docs: map<DocId, Document>, events: seq<Event>, ids: seq<DocId>): (r: Run)
    requires InDocs(docs, ids)
    ensures r.docs.Keys == docs.Keys
    ensures |events| <= |r.events| <= |events| + |ids| && r.events[..|events|] == events
    ensures r.exit.Raised? ==> r.exit.error.MissingExpirationDate? && r.exit.error.document in ids
    ensures r.exit.Returned? ==> r.exit.action.event.Some?
    decreases |ids|
  {
    if ids == [] then Run(docs, events, Finished)
    else
      var x := ids[0];
      var d := docs[x];
      if d.expirationDate.None? then Run(docs, events, Raised(MissingExpirationDate(x)))
      else if d.calendarEvent.Some? then Run(docs, events, Returned(OpenEventForm(d.calendarEvent)))
      else RunReminders(docs[x := d.(calendarEvent := Some(|events|))], events + [ReminderEvent(d, x)], ids[1..])
  }

  /** The whole action: an exception rolls everything back; a loop that runs
      to the end returns the form of the record set's event, which for more
      than one record is a singleton error. */
  function CreateReminders(docs: map<DocId, Document>, events: seq<Event>, ids: seq<DocId>): (o: Outcome)
    requires InDocs(docs, ids)
    ensures o.docs.Keys == docs.Keys
    ensures |events| <= |o.events| <= |events| + |ids| && o.events[..|events|] == events
    ensures o.result.Failure? ==> o.docs == docs && o.events == events
    ensures o.result.Failure? ==>
      (o.result.error.MissingExpirationDate? && o.result.error.document in ids) || o.result.error == ExpectedSingleton(|ids|)
  {
    var run := RunReminders(docs, events, ids);
    match run.exit
    case Raised(err) => Outcome(docs, events, Failure(err))
    case Returned(action) => Outcome(run.docs, run.events, Success(action))
    case Finished =>
      if |ids| == 0 then Outcome(run.docs, run.events, Success(OpenEventForm(None)))
      else if |ids| == 1 then Outcome(run.docs, run.events, Success(OpenEventForm(run.docs[ids[0]].calendarEvent)))
      else Outcome(docs, events, Failure(ExpectedSingleton(|ids|)))
  }

  /** One pass of the action's loop for a dated, unlinked document `x`:
      create its event (the creation hook already links it when `x` is set),
      then link it. */
  method CreateAndLink(env: Env, x: DocId)
    requires env.Valid()
    requires x in env.docs && env.docs[x].expirationDate.Some? && env.docs[x].calendarEvent.None?
    modifies env
    ensures env.Valid()
    ensures env.docs == old(env.docs)[x := old(env.docs)[x].(calendarEvent := Some(|old(env.events)|))]
    ensures env.events == old(env.events) + [ReminderEvent(old(env.docs)[x], x)]
    ensures env.ids == old(env.ids) && env.posts == old(env.posts) && env.activities == old(env.activities)
  {
    var d := env.docs[x];
    var event := ReminderEvent(d, x);
    ghost var n := |env.events|;
    ghost var linked := env.docs[x := d.(calendarEvent := Some(n))];
    assert CalendarEvent.LinkAll(env.docs, [event], n) == Success(if x != 0 then linked else env.docs) by {
      assert [event][1..] == [];
    }
    var created := CalendarEvent.Create(env, [event]);
    env.docs := env.docs[x := env.docs[x].(calendarEvent := Some(created.value[0]))];
  }

  /** `action_create_calendar_event` on the record set `ids`. */
  method ActionCreateCalendarEvent(env: Env, ids: seq<DocId>) returns (r: Result<Action>)
    requires env.Valid()
    requires InDocs(env.docs, ids)
    modifies env
    ensures env.Valid()
    ensures Outcome(env.docs, env.events, r) == CreateReminders(old(env.docs), old(env.events), ids)
    ensures env.ids == old(env.ids) && env.posts == old(env.posts) && env.activities == old(env.activities)
  {
    var docs0, events0 := env.docs, env.events;
    var i := 0;
    while i < |ids|
      invariant 0 <= i <= |ids|
      invariant env.Valid()
      invariant env.docs.Keys == docs0.Keys
      invariant RunReminders(docs0, events0, ids) == RunReminders(env.docs, env.events, ids[i..])
      invariant env.ids == old(env.ids) && env.posts == old(env.posts) && env.activities == old(env.activities)
    {
      var x := ids[i];
      var d := env.docs[x];
      assert ids[i..][0] == x && ids[i..][1..] == ids[i + 1..];
      if d.expirationDate.None? {
        env.docs, env.events := docs0, events0;
        return Failure(MissingExpirationDate(x));
      }
      if d.calendarEvent.Some? {
        return Success(OpenEventForm(d.calendarEvent));
      }
      assert RunReminders(env.docs, env.events, ids[i..])
          == RunReminders(env.docs[x := d.(calendarEvent := Some(|env.events|))], env.events + [ReminderEvent(d, x)], ids[i + 1..]);
      CreateAndLink(env, x);
      i := i + 1;
    }
    assert ids[i..] == [];
    if |ids| == 0 {
      r := Success(OpenEventForm(None));
    } else if |ids| == 1 {
      r := Success(OpenEventForm(env.docs[ids[0]].calendarEvent));
    } else {
      env.docs, env.events := docs0, events0;
      r := Failure(ExpectedSingleton(|ids|));
    }
  }

  // ---------------------------------------------------------------------------
  // What the action promises

  /** Dated documents without a link, the ones the loop creates events for. */
  predicate Pending(docs: map<DocId, Document>, xs: seq<DocId>)
  {
    forall j :: 0 <= j < |xs| ==> xs[j] in docs && docs[xs[j]].expirationDate.Some? && docs[xs[j]].calendarEvent.None?
  }

  predicate Distinct(xs: seq<DocId>)
  {
    forall j, l :: 0 <= j < l < |xs| ==> xs[j] != xs[l]
  }

  /** Links `xs[0]`, `xs[1]`, ... to the events `first`, `first + 1`, .... */
  function LinkNew(docs: map<DocId, Document>, xs: seq<DocId>, first: EventId): (r: map<DocId, Document>)
    requires InDocs(docs, xs)
    ensures r.Keys == docs.Keys
    decreases |xs|
  {
    if xs == [] then docs
    else LinkNew(docs[xs[0] := docs[xs[0]].(calendarEvent := Some(first))], xs[1..], first + 1)
  }

  /** The events created for the documents `xs`, in order. */
  function NewReminders(docs: map<DocId, Document>, xs: seq<DocId>): (r: seq<Event>)
    requires Pending(docs, xs)
    decreases |xs|
  {
    if xs == [] then [] else [ReminderEvent(docs[xs[0]], xs[0])] + NewReminders(docs, xs[1..])
  }

  /** Documents outside `xs` are left alone by `LinkNew`. */
  lemma {:induction false} LinkNewFrame(docs: map<DocId, Document>, xs: seq<DocId>, first: EventId, y: DocId)
    requires InDocs(docs, xs) && y in docs && y !in xs
    ensures LinkNew(docs, xs, first)[y] == docs[y]
    decreases |xs|
  {
    if xs != [] {
      LinkNewFrame(docs[xs[0] := docs[xs[0]].(calendarEvent := Some(first))], xs[1..], first + 1, y);
    }
  }

  /** The events for `xs` do not depend on the document `y` outside `xs`. */
  lemma {:induction false} NewRemindersFrame(docs: map<DocId, Document>, xs: seq<DocId>, y: DocId, d: Document)
    requires Pending(docs, xs) && y !in xs
    ensures Pending(docs[y := d], xs)
    ensures NewReminders(docs[y := d], xs) == NewReminders(docs, xs)
    decreases |xs|
  {
    if xs != [] {
      assert xs[0] != y;
      NewRemindersFrame(docs, xs[1..], y, d);
    }
  }

  /** The loop passes over distinct pending documents by creating one event
      each, in order, and linking each document to its own event. */
  lemma {:induction false} RunThroughPending(docs: map<DocId, Document>, events: seq<Event>, ids: seq<DocId>, k: nat)
    requires InDocs(docs, ids) && k <= |ids|
    requires Pending(docs, ids[..k]) && Distinct(ids[..k])
    ensures RunReminders(docs, events, ids)
         == RunReminders(LinkNew(docs, ids[..k], |events|), events + NewReminders(docs, ids[..k]), ids[k..])
    decreases k
  {
    if k == 0 {
      assert ids[..0] == [] && ids[0..] == ids;
      assert LinkNew(docs, [], |events|) == docs;
      assert events + NewReminders(docs, []) == events;
    } else {
      var x := ids[0];
      var d := docs[x];
      var docs1 := docs[x := d.(calendarEvent := Some(|events|))];
      var events1 := events + [ReminderEvent(d, x)];
      var rest, pre, done := ids[1..], ids[1..][..k - 1], ids[..k];
      PendingTail(docs, ids, k);
      RunStep(docs, events, ids);
      NewRemindersFrame(docs, pre, x, d.(calendarEvent := Some(|events|)));
      RunThroughPending(docs1, events1, rest, k - 1);
      assert rest[k - 1..] == ids[k..];
      assert LinkNew(docs1, pre, |events1|) == LinkNew(docs, done, |events|);
      assert events1 + NewReminders(docs1, pre) == events + NewReminders(docs, done);
    }
  }

  /** The first step of the loop on a pending document: create its event and
      link it, then go on with the rest. */
  lemma RunStep(docs: map<DocId, Document>, events: seq<Event>, ids: seq<DocId>)
    requires InDocs(docs, ids) && ids != []
    requires docs[ids[0]].expirationDate.Some? && docs[ids[0]].calendarEvent.None?
    ensures RunReminders(docs, events, ids)
         == RunReminders(docs[ids[0] := docs[ids[0]].(calendarEvent := Some(|events|))],
                         events + [ReminderEvent(docs[ids[0]], ids[0])], ids[1..])
  {
  }

  /** Splitting distinct pending documents `ids[..k]` into the first and the
      rest: the rest are distinct, pending and exclude the first, and the
      events for all of them are the first's followed by the rest's. */
  lemma PendingTail(docs: map<DocId, Document>, ids: seq<DocId>, k: nat)
    requires 0 < k <= |ids|
    requires Pending(docs, ids[..k]) && Distinct(ids[..k])
    ensures Pending(docs, ids[1..][..k - 1]) && Distinct(ids[1..][..k - 1])
    ensures ids[0] !in ids[1..][..k - 1]
    ensures ids[..k][0] == ids[0] && ids[..k][1..] == ids[1..][..k - 1]
    ensures NewReminders(docs, ids[..k])
         == [ReminderEvent(docs[ids[0]], ids[0])] + NewReminders(docs, ids[1..][..k - 1])
  {
    var done, pre := ids[..k], ids[1..][..k - 1];
    assert done[0] == ids[0] && done[1..] == pre;
    assert forall j :: 0 <= j < |pre| ==> pre[j] == done[j + 1];
  }

  /** Early return: when the first linked document comes after distinct
      pending ones, those get their events and the action opens the linked
      document's event; the documents after it are never looked at. */
  lemma EarlyReturnSkipsRest(docs: map<DocId, Document>, events: seq<Event>, ids: seq<DocId>, k: nat)
    requires InDocs(docs, ids) && k < |ids|
    requires Pending(docs, ids[..k]) && Distinct(ids[..k]) && ids[k] !in ids[..k]
    requires docs[ids[k]].expirationDate.Some? && docs[ids[k]].calendarEvent.Some?
    ensures CreateReminders(docs, events, ids)
         == Outcome(LinkNew(docs, ids[..k], |events|), events + NewReminders(docs, ids[..k]),
                    Success(OpenEventForm(docs[ids[k]].calendarEvent)))
    ensures forall y :: y in docs && y !in ids[..k] ==> CreateReminders(docs, events, ids).docs[y] == docs[y]
  {
    RunThroughPending(docs, events, ids, k);
    LinkNewFrame(docs, ids[..k], |events|, ids[k]);
    assert ids[k..][0] == ids[k];
    forall y | y in docs && y !in ids[..k] ensures CreateReminders(docs, events, ids).docs[y] == docs[y] {
      LinkNewFrame(docs, ids[..k], |events|, y);
    }
  }

  /** An undated document reached by the loop raises, and the rollback
      leaves no event and no link behind, even for the documents before it. */
  lemma UndatedAborts(docs: map<DocId, Document>, events: seq<Event>, ids: seq<DocId>, k: nat)
    requires InDocs(docs, ids) && k < |ids|
    requires Pending(docs, ids[..k]) && Distinct(ids[..k])
    requires docs[ids[k]].expirationDate.None?
    ensures CreateReminders(docs, events, ids) == Outcome(docs, events, Failure(MissingExpirationDate(ids[k])))
  {
    RunThroughPending(docs, events, ids, k);
    assert ids[k] !in ids[..k];
    LinkNewFrame(docs, ids[..k], |events|, ids[k]);
    assert ids[k..][0] == ids[k];
  }

  /** Several distinct pending documents: each gets its event, then reading
      the record set's event raises the singleton error and all of it is
      rolled back. */
  lemma SeveralPendingRollBack(docs: map<DocId, Document>, events: seq<Event>, ids: seq<DocId>)
    requires InDocs(docs, ids) && |ids| >= 2
    requires Pending(docs, ids) && Distinct(ids)
    ensures CreateReminders(docs, events, ids) == Outcome(docs, events, Failure(ExpectedSingleton(|ids|)))
  {
    assert ids[..|ids|] == ids;
    RunThroughPending(docs, events, ids, |ids|);
    assert ids[|ids|..] == [];
  }

  /** One dated document without a link: exactly one event is created, the
      document is linked to it, and its form is opened. */
  lemma SinglePendingCreatesOne(docs: map<DocId, Document>, events: seq<Event>, x: DocId)
    requires x in docs && docs[x].expirationDate.Some? && docs[x].calendarEvent.None?
    ensures CreateReminders(docs, events, [x])
         == Outcome(docs[x := docs[x].(calendarEvent := Some(|events|))],
                    events + [ReminderEvent(docs[x], x)],
                    Success(OpenEventForm(Some(|events|))))
  {
    assert [x][1..] == [];
    var linked := docs[x := docs[x].(calendarEvent := Some(|events|))];
    assert RunReminders(docs, events, [x]) == Run(linked, events + [ReminderEvent(docs[x], x)], Finished);
  }

  /** One document that already has an event: nothing is created and the
      existing event is opened. */
  lemma LinkedOpensExisting(docs: map<DocId, Document>, events: seq<Event>, x: DocId)
    requires x in docs && docs[x].expirationDate.Some? && docs[x].calendarEvent.Some?
    ensures CreateReminders(docs, events, [x]) == Outcome(docs, events, Success(OpenEventForm(docs[x].calendarEvent)))
  {
  }

  /** Running the action twice on one document gives the same event both
      times, and the second run changes nothing. */
  lemma ReminderIdempotent(docs: map<DocId, Document>, events: seq<Event>, x: DocId)
    requires x in docs
    ensures var first := CreateReminders(docs, events, [x]);
            CreateReminders(first.docs, first.events, [x]) == first
  {
    if docs[x].expirationDate.Some? && docs[x].calendarEvent.None? {
      SinglePendingCreatesOne(docs, events, x);
      var first := CreateReminders(docs, events, [x]);
      LinkedOpensExisting(first.docs, first.events, x);
    }
  }
}
