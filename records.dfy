/** Records of the fleet-document module: the document, the vehicle fields it
    reads, calendar events, feed posts and to-do activities, and the database
    (`Env`) in which the source's methods update them.

    Dates are whole day numbers; a datetime is a number of minutes since
    00:00 of day 0, read in the acting user's local time. */
module Records {

  datatype Option<T> = None | Some(value: T)

  /** The exceptions the core raises; each one aborts the host transaction. */
  datatype Error =
    | MissingExpirationDate(document: DocId)   // UserError of the reminder action
    | MissingRecord(id: int)                   // reading a field of a record that does not exist
    | ExpectedSingleton(size: nat)             // reading a field of a multi-record set

  datatype Result<T> = Success(value: T) | Failure(error: Error)

  type Day = int
  type DocId = int
  type EventId = nat
  type UserId = int
  type PartnerId = int
  type VehicleId = int

  const MinutesPerDay := 1440

  /** The `res_model` of an event created for a document. */
  const DocumentModel := "fleet.vehicle.document"

  datatype DocumentType = PropertyCard | Soat | TechnicalReview | InsurancePolicy | OtherType

  /** A driver: a contact and the user held in its `user_id` field, which
      the sweep reads (on the host's contacts that field is the contact's
      salesperson, not the contact's own login). */
  datatype Partner = Partner(id: PartnerId, user: Option<UserId>)

  /** The fields of `fleet.vehicle` the core reads; the core never writes them. */
  datatype Vehicle = Vehicle(id: VehicleId, name: string, manager: Option<UserId>, driver: Option<Partner>)

  /** A `fleet.vehicle.document` row. `isExpired` and `daysToExpire` are the
      STORED computed fields: they hold whatever the last recomputation wrote. */
  datatype Document = Document(
    name: string,
    documentType: DocumentType,
    expirationDate: Option<Day>,
    vehicle: Vehicle,
    calendarEvent: Option<EventId>,
    isExpired: bool,
    daysToExpire: int)

  /** A `calendar.event` row; `resModel`/`resId` are its back-reference, and
      `resId == 0` means unset. */
  datatype Event = Event(
    name: string,
    start: int,
    stop: int,
    allday: bool,
    partners: seq<PartnerId>,
    resModel: string,
    resId: int)

  /** The feed message of the sweep, before formatting and translation. */
  datatype Message =
    | Expired(document: string, vehicle: string, expiredOn: Day)
    | Upcoming(document: string, vehicle: string, expiresOn: Day, days: int)

  /** A note posted on a vehicle's feed. */
  datatype Post = Post(vehicle: VehicleId, body: Message)

  /** A to-do activity scheduled on a document. */
  datatype Activity = Activity(document: DocId, deadline: Day, summary: Message, user: UserId)

  /** The window action that opens an event's form in a dialog;
      `None` is the action built from an empty record set (`res_id` False). */
  datatype Action = OpenEventForm(event: Option<EventId>)

  predicate Increasing(r: seq<int>)
  {
    forall i, j :: 0 <= i < j < |r| ==> r[i] < r[j]
  }

  /** The database the core works on: documents by id, the document ids in
      the table's default order (increasing id), the event table (an event's
      id is its index), and the two logs the sweep appends to. */
  class Env {
    var docs: map<DocId, Document>
    var ids: seq<DocId>
    var events: seq<Event>
    var posts: seq<Post>
    var activities: seq<Activity>

    /** `ids` lists the documents once each, by increasing id, and every
        document's link names an existing event. */
    ghost predicate Valid()
      reads this
    {
      && Increasing(ids)
      && (forall x :: x in docs <==> x in ids)
      && (forall x :: x in docs && docs[x].calendarEvent.Some? ==> docs[x].calendarEvent.value < |events|)
    }

    constructor (docs: map<DocId, Document>, ids: seq<DocId>, events: seq<Event>)
      requires Increasing(ids) && (forall x :: x in docs <==> x in ids)
      requires forall x :: x in docs && docs[x].calendarEvent.Some? ==> docs[x].calendarEvent.value < |events|
      ensures Valid()
      ensures this.docs == docs && this.ids == ids && this.events == events
      ensures posts == [] && activities == []
    {
      this.docs := docs;
      this.ids := ids;
      this.events := events;
      posts := [];
      activities := [];
    }
  }
}
