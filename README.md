# Fleet vehicle document expiration — a Dafny model

The fleet module keeps one record per vehicle document (property card, SOAT,
technical review, insurance policy, other). Each document has an optional
expiration date and two stored computed fields: `is_expired` and
`days_to_expire`. The module also provides:

- a search translation for `is_expired`;
- a button that creates a one-hour calendar reminder at 09:00 on the
  expiration date, or opens the reminder that already exists;
- a hook on calendar-event creation that links a document to the first
  event that refers to it;
- a scheduled sweep that notes every document that has expired or expires
  within 30 days on the vehicle's feed, and gives the vehicle's manager
  (or else the user in the driver's `user_id` field) a to-do.

The model is split into five modules:

- `Records` (`records.dfy`): the records and the database `Env`. `Env` is a
  class whose fields are updated in place:
  - documents by id;
  - the document ids in the table's default order (increasing id);
  - the event table (an event's id is its index);
  - the feed posts;
  - the activities.

  Dates are day numbers. A datetime is minutes since 00:00 of day 0. An
  exception of the source is a `Failure` result, and every change of the
  operation is rolled back with it, as the host transaction is.
- `ExpirationPolicy` (`expiration_policy.dfy`): the two compute methods, and
  the `is_expired` search as a domain with its SQL meaning (`Matches`).
- `CalendarEvent` (`calendar_event.dfy`): the creation hook.
- `Reminder` (`reminder.dfy`): the reminder action. Its method is proved
  equal to the spec function `CreateReminders`, and the lemmas are stated
  about that function.
- `ExpirationSweep` (`expiration_sweep.dfy`): the scheduled sweep. Its method
  is proved equal to `SweepPosts`/`SweepActivities` over `Expiring`.

Behaviour kept as the code has it:

- `is_expired != False` is translated exactly like `is_expired = False`.
- The `= False` search misses undated documents, although their flag is
  False.
- In the reminder action, the first already-linked document ends the loop,
  so later documents are never looked at.
- After a loop over several documents, the final read of the record set's
  event raises the singleton error, and the host rolls back the events
  created.
- The sweep picks its message from the STORED `is_expired` flag and
  `days_to_expire` value, whatever today is.

The undated-document error aborts the whole action, and the events already
created for earlier documents in the same call are rolled back with it. The
code has no per-document recovery.

## Model

| member | source | states |
|---|---|---|
| ExpirationPolicy.IsExpired | models/fleet_vehicle_document.py:36 | `is_expired` holds only for a dated document, and exactly when its date lies a negative number of days away |
| ExpirationPolicy.DaysToExpire | models/fleet_vehicle_document.py:42-46 | for a dated document, today plus `days_to_expire` is the expiration date; an undated one gets 0 |
| ExpirationPolicy.ComputeIsExpired | models/fleet_vehicle_document.py:32-36 | every document of the record set gets `is_expired` = date set and before today; no other field or record changes |
| ExpirationPolicy.ComputeDaysToExpire | models/fleet_vehicle_document.py:38-46 | every document of the record set gets `days_to_expire` = date − today, or 0 without a date; no other field or record changes |
| ExpirationPolicy.DaysToExpireSign | models/fleet_vehicle_document.py:32-46 | for a dated document, `days_to_expire` is negative exactly when it is expired, zero exactly on the expiration day, and date = today + days |
| ExpirationPolicy.UndatedIsNotExpired | models/fleet_vehicle_document.py:36-46 | an undated document is not expired and has 0 days to expire |
| ExpirationPolicy.SearchIsExpired | models/fleet_vehicle_document.py:48-54 | `= True` selects exactly the expired dates; `= False` and `!= False` select exactly the dated, not expired ones; any other operator or value selects everything |
| ExpirationPolicy.NotFalseSearchIsEqualFalse | models/fleet_vehicle_document.py:52-53 | `!= False` yields the same domain as `= False`, so it never selects an expired document |
| ExpirationPolicy.UndatedMissedByNotExpiredSearch | models/fleet_vehicle_document.py:52-53 | an undated document is not expired, yet `= False` does not select it |
| ExpirationPolicy.SearchAgreesWithStoredFlag | models/fleet_vehicle_document.py:29-54 | on recomputed documents, `= True` selects exactly the set flags and `= False` exactly the dated documents whose flag is clear |
| CalendarEvent.LinkOne | models/calendar_event.py:12-15 | the hook's step for one event fails exactly when the event refers to a missing document (MissingRecord of that id); otherwise the set of documents is kept, an event that refers to nothing changes nothing, the referred document ends up linked, and an existing link is never overwritten |
| CalendarEvent.LinkAll | models/calendar_event.py:11-15 | the hook over a batch fails only with MissingRecord of an id that is not a document; on success the set of documents is kept and no existing link is overwritten |
| CalendarEvent.Create | models/calendar_event.py:8-16 | the events are stored with the next ids, the ids are returned, and the documents become the hook's result; when a referenced document is missing, it fails and nothing changes; the link invariant is kept |
| CalendarEvent.LinkAllFailsIff | models/calendar_event.py:12-14 | the hook fails exactly when some event of the batch refers to a document that does not exist |
| CalendarEvent.LinkAllFrame | models/calendar_event.py:11-15 | only link fields change; an existing link is never overwritten; a new link names an event of the batch that refers to that document |
| CalendarEvent.LinkAllFirstWins | models/calendar_event.py:11-15 | among the events referring to one unlinked document, the first in iteration order is the one linked |
| CalendarEvent.LinkAllLinksReferenced | models/calendar_event.py:12-15 | after a successful hook, every document referred to exists and is linked |
| CalendarEvent.LinkAllIgnoresOthers | models/calendar_event.py:12 | a batch in which no event refers to a document changes nothing |
| Reminder.ReminderEvent | models/fleet_vehicle_document.py:75-90 | the event starts at 09:00 on the expiration day and lasts one hour; not all-day; invites the driver if any; refers back to the document; the hook acts on it exactly when the document id is set |
| Reminder.RunReminders | models/fleet_vehicle_document.py:61-94 | the loop keeps the set of documents and only appends events, no more than the record set has entries; it raises only the missing-date error of a document of the set, and an early return always opens a set link |
| Reminder.CreateReminders | models/fleet_vehicle_document.py:56-103 | the action only appends events, no more than the record set has entries; on failure nothing changes; it fails only with the missing-date error of a document of the set or the singleton error for the whole set |
| Reminder.CreateAndLink | models/fleet_vehicle_document.py:75-94 | one new event is appended (created through the hook) and the document is linked to it; nothing else changes |
| Reminder.ActionCreateCalendarEvent | models/fleet_vehicle_document.py:56-103 | the new state and the result are those of `CreateReminders`: raise and roll back on an undated document, return on a linked one, otherwise create and link; then the singleton read at the end |
| Reminder.RunThroughPending | models/fleet_vehicle_document.py:61-94 | passing over distinct dated, unlinked documents creates their events in order and links each to its own event |
| Reminder.EarlyReturnSkipsRest | models/fleet_vehicle_document.py:66-73 | the first linked document after pending ones returns its event; the earlier ones keep their new events; documents after it are untouched |
| Reminder.UndatedAborts | models/fleet_vehicle_document.py:61-63 | an undated document reached by the loop fails the action, and nothing (not even earlier events) remains |
| Reminder.SeveralPendingRollBack | models/fleet_vehicle_document.py:96-103 | two or more pending documents end in the singleton error with everything rolled back |
| Reminder.SinglePendingCreatesOne | models/fleet_vehicle_document.py:75-103 | a single pending document gets exactly one event, is linked to it, and that event is opened |
| Reminder.LinkedOpensExisting | models/fleet_vehicle_document.py:66-73 | a linked document opens its existing event and nothing is created |
| Reminder.ReminderIdempotent | models/fleet_vehicle_document.py:56-103 | a second run on the same document changes nothing and returns the same action |
| ExpirationSweep.DueIff | models/fleet_vehicle_document.py:110-116 | the sweep's domain holds exactly for a date set and ≤ today + 30: +30 is in, +31 is out, expired dates are in |
| ExpirationSweep.Expiring | models/fleet_vehicle_document.py:113-116 | every document selected exists and has a date on or before today + 30 |
| ExpirationSweep.ExpiringIff | models/fleet_vehicle_document.py:113-116 | a document is selected exactly when it is in the table and due |
| ExpirationSweep.ExpiringIncreasing | models/fleet_vehicle_document.py:113-116 | the selection keeps the table's order, so its ids increase |
| ExpirationSweep.SearchExpiring | models/fleet_vehicle_document.py:113-116 | scanning the table yields `Expiring` |
| ExpirationSweep.SweepSelection | models/fleet_vehicle_document.py:110-116 | on a consistent table, the sweep selects each due document exactly once, by increasing id, and nothing else |
| ExpirationSweep.Responsible | models/fleet_vehicle_document.py:127 | the manager if set, else the driver's `user_id`; nobody exactly when there is no manager and no driver with a `user_id` |
| ExpirationSweep.Notice | models/fleet_vehicle_document.py:118-124 | the expired wording is used exactly when the stored flag is set; the message names the document and the vehicle and gives the date, and when not expired the stored day count |
| ExpirationSweep.PostFor | models/fleet_vehicle_document.py:132-135 | the note goes on the feed of the document's vehicle and carries the document's message |
| ExpirationSweep.ActivitiesFor | models/fleet_vehicle_document.py:127-142 | at most one to-do per document; there is one exactly when someone is responsible; it is theirs, due on the expiration date, with the message as summary |
| ExpirationSweep.SweepPosts | models/fleet_vehicle_document.py:118-135 | the sweep posts exactly one note per document it handles |
| ExpirationSweep.SweepActivities | models/fleet_vehicle_document.py:127-142 | the sweep schedules no more to-dos than documents it handles |
| ExpirationSweep.Notify | models/fleet_vehicle_document.py:118-142 | one note is posted on the vehicle's feed; a to-do is added exactly when someone is responsible; documents and events are unchanged |
| ExpirationSweep.CronCheckDocumentExpirations | models/fleet_vehicle_document.py:105-142 | posts and activities grow by the sweep over the selection, in order; documents, ids and events are unchanged |
| ExpirationSweep.SweepPostsAt | models/fleet_vehicle_document.py:118-135 | one note per selected document, in order, each on that document's vehicle |
| ExpirationSweep.SweepActivitiesIff | models/fleet_vehicle_document.py:127-142 | an activity is scheduled exactly when some selected document has someone responsible, and it is theirs, due on the expiration date |
| ExpirationSweep.SweepActivitiesOrdered | models/fleet_vehicle_document.py:127-142 | the number of to-dos equals the number of handled documents with someone responsible; over increasing ids the to-dos come in document order, so no document gets two |
| ExpirationSweep.FreshNotice | models/fleet_vehicle_document.py:118-124 | with recomputed fields, the note reports an expiry exactly when the date has passed, and otherwise 0..30 days, consistent with the date |
| ExpirationSweep.StaleFlagMisreports | models/fleet_vehicle_document.py:118-124 | a document last recomputed the day before it expired is announced as expiring "in 0 days" after its date has passed |

## Left out

- Recompute triggers: the ORM decides when the stored computed fields are recomputed. Here the compute methods are called explicitly, and `Recomputed` states that they are current.
- `license_plate` is a stored related copy of the vehicle's plate, kept in sync by the ORM; `attachment` and `attachment_name` are plain stored fields; none is modelled.
- Time zones: the reminder's start is a naive local datetime, and its conversion to UTC by the host is not modelled.
- Text: message and event-name formatting, the `dd/mm/yyyy` date format and translation are not modelled. Notes are tagged records (`Expired`/`Upcoming`) with their fields.
- `message_post` and `activity_schedule` internals: subtypes, the to-do activity type, followers and mail are not modelled. A post is (vehicle, message); an activity is (document, deadline, summary, user).
- `ir.model._get`: the event's model is stored by name.
- Action dictionaries: only the event they open is kept. The type, view mode and target are constants.
- Search dispatch: `_search_is_expired` is modelled as the method is written. Since `is_expired` is a stored field, whether the host ever calls this method, rather than searching the stored column, is not modelled.
- Cron scheduling, cadence and the clock: `today` is a parameter.
- Record creation and deletion: document ids and the table's id order are fixed in `Env`.
- `models/fleet_vehicle.py` and `__manifest__.py` are not part of this model.
- Event ids are list indices starting at 0, while the host's ids start at 1. Links are `Option`s, so an id is never confused with "unset".
