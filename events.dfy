/**
 * The `/events` handlers (routers/events.py) as operations on an in-memory
 * copy of the three tables. Each request runs to completion before the next
 * one starts; the caller's identity and the admin check come in as
 * parameters.
 */
module Events {
  import opened Wrappers
  import opened Models

  /** What a handler raises instead of returning. */
  datatype Error =
    | HttpException(statusCode: int, detail: string)
      /** The admin dependency refused the caller before the handler ran. */
    | AdminRequired

  const EventNotFound: Error := HttpException(404, "Event not found")
  const AlreadyRegistered: Error := HttpException(400, "Already registered for this event")
  const EventDeleted: string := "Event deleted successfully"

  /** The query parameters of GET /events/ when the request leaves them out. */
  const DefaultSkip: nat := 0
  const DefaultLimit: nat := 100

  /** The body of a create or update request: the fields of `EventCreate`. */
  datatype EventCreate = EventCreate(title: string, description: string, dateTime: Timestamp, location: string)

  /** One entry of `event.dict().items()`. */
  datatype EventField =
    | Title(title: string)
    | Description(description: string)
    | DateTime(dateTime: Timestamp)
    | Location(location: string)

  /** `event.dict().items()`, in the order the fields are declared. */
  function Items(p: EventCreate): (r: seq<EventField>)
  {
    [Title(p.title), Description(p.description), DateTime(p.dateTime), Location(p.location)]
  }

  /** `setattr(event, key, value)` for one payload entry. */
  function SetAttr(e: Event, f: EventField): (r: Event)
    ensures r.id == e.id && r.createdAt == e.createdAt
    ensures f.Title? ==>
      r.title == f.title && r.description == e.description && r.dateTime == e.dateTime && r.location == e.location
    ensures f.Description? ==>
      r.title == e.title && r.description == f.description && r.dateTime == e.dateTime && r.location == e.location
    ensures f.DateTime? ==>
      r.title == e.title && r.description == e.description && r.dateTime == f.dateTime && r.location == e.location
    ensures f.Location? ==>
      r.title == e.title && r.description == e.description && r.dateTime == e.dateTime && r.location == f.location
  {
    match f
    case Title(t) => e.(title := t)
    case Description(d) => e.(description := d)
    case DateTime(t) => e.(dateTime := t)
    case Location(l) => e.(location := l)
  }

  /**
   * The loop of update_event: every payload field overwrites the stored one;
   * the id and the creation time stay.
   */
  method OverwriteFields(e: Event, p: EventCreate) returns (r: Event)
    ensures r.id == e.id && r.createdAt == e.createdAt
    ensures r.title == p.title && r.description == p.description
    ensures r.dateTime == p.dateTime && r.location == p.location
  {
    var items := Items(p);
    r := e;
    var i := 0;
    while i < |items|
      invariant 0 <= i <= |items|
      invariant r.id == e.id && r.createdAt == e.createdAt
      invariant r.title == if i > 0 then p.title else e.title
      invariant r.description == if i > 1 then p.description else e.description
      invariant r.dateTime == if i > 2 then p.dateTime else e.dateTime
      invariant r.location == if i > 3 then p.location else e.location
    {
      r := SetAttr(r, items[i]);
      i := i + 1;
    }
  }

  /** The database session: the three tables and their id sequences. */
  class EventStore {
    var users: seq<User>
    var events: seq<Event>
    var registrations: seq<Registration>
    /** The next value of the `college_events.id` sequence. */
    var nextEventId: Id
    /** The next value of the `college_registrations.id` sequence. */
    var nextRegistrationId: Id

    /** Every constraint of models.py holds, and the sequences are ahead of every id in use. */
    ghost predicate Valid()
      reads this
    {
      && UniqueUserIds(users) && UniqueEmails(users)
      && UniqueEventIds(events)
      && (forall i :: 0 <= i < |events| ==> events[i].id < nextEventId)
      && UniqueRegistrationIds(registrations)
      && (forall i :: 0 <= i < |registrations| ==> registrations[i].id < nextRegistrationId)
      && UniqueUserEvent(registrations)
      && ReferencesEvents(registrations, events)
      && ReferencesUsers(registrations, users)
    }

    /** Freshly created, empty tables. */
    constructor ()
      ensures Valid()
      ensures users == [] && events == [] && registrations == []
      ensures nextEventId == 1 && nextRegistrationId == 1
    {
      users, events, registrations := [], [], [];
      nextEventId, nextRegistrationId := 1, 1;
    }

    /**
     * GET /events/: at most `limit` events, from position `skip` of the
     * table's scan order.
     */
    function ReadEvents(skip: nat, limit: nat): (r: seq<Event>)
      reads this
      ensures |r| <= limit
      ensures skip >= |events| ==> r == []
      ensures skip < |events| ==> |r| == if limit < |events| - skip then limit else |events| - skip
      ensures forall k :: 0 <= k < |r| ==> skip + k < |events| && r[k] == events[skip + k]
    {
      if skip >= |events| then []
      else if limit < |events| - skip then events[skip..skip + limit]
      else events[skip..]
    }

    /** GET /events/{event_id}: the event with that id, or "Event not found". */
    function ReadEvent(eventId: Id): (r: Result<Event, Error>)
      reads this
      ensures r.Success? <==> HasEvent(events, eventId)
      ensures r.Success? ==> r.value in events && r.value.id == eventId
      ensures r.Failure? ==> r.error == EventNotFound
      ensures r.Success? && Valid() ==>
        forall j :: 0 <= j < |events| && events[j].id == eventId ==> events[j] == r.value
    {
      match IndexOfEvent(events, eventId)
      case None => Failure(EventNotFound)
      case Some(i) => Success(events[i])
    }

    /**
     * An INSERT into `college_users` (the sign-up handler that issues it is
     * not part of this model); refused when the id or the email is taken.
     */
    method AddUser(u: User) returns (ok: bool)
      requires Valid()
      modifies this
      ensures Valid()
      ensures ok <==> !UserIdTaken(old(users), u.id) && !EmailTaken(old(users), u.email)
      ensures users == if ok then old(users) + [u] else old(users)
      ensures events == old(events) && registrations == old(registrations)
      ensures nextEventId == old(nextEventId) && nextRegistrationId == old(nextRegistrationId)
    {
      var inserted := InsertUser(users, u);
      ok := inserted.Some?;
      if ok {
        InsertUserKeepsKeys(users, u);
        forall k | 0 <= k < |registrations| ensures UserIdTaken(inserted.value, registrations[k].userId) {
          assert UserIdTaken(users, registrations[k].userId);
          var j :| 0 <= j < |users| && users[j].id == registrations[k].userId;
          assert inserted.value[j] == users[j];
        }
        users := inserted.value;
      }
    }

    /** POST /events/: an admin adds an event, stamped with `now` as its creation time. */
    method CreateEvent(callerIsAdmin: bool, p: EventCreate, now: Timestamp) returns (r: Result<Event, Error>)
      requires Valid()
      modifies this
      ensures Valid()
      ensures !callerIsAdmin ==> r == Failure(AdminRequired) && events == old(events) && nextEventId == old(nextEventId)
      ensures callerIsAdmin ==>
        && r == Success(Event(old(nextEventId), p.title, p.description, p.dateTime, p.location, now))
        && events == old(events) + [r.value]
        && nextEventId == old(nextEventId) + 1
      ensures users == old(users) && registrations == old(registrations)
      ensures nextRegistrationId == old(nextRegistrationId)
    {
      if !callerIsAdmin {
        return Failure(AdminRequired);
      }
      var e := Event(nextEventId, p.title, p.description, p.dateTime, p.location, now);
      forall k | 0 <= k < |registrations| && registrations[k].eventId.Some?
        ensures HasEvent(events + [e], registrations[k].eventId.value)
      {
        var j :| 0 <= j < |events| && events[j].id == registrations[k].eventId.value;
        assert (events + [e])[j] == events[j];
      }
      events := events + [e];
      nextEventId := nextEventId + 1;
      r := Success(e);
    }

    /**
     * PUT /events/{event_id}: an admin overwrites title, description,
     * date_time and location of one event; its id, its creation time, its
     * position and every other event stay as they were.
     */
    method UpdateEvent(callerIsAdmin: bool, eventId: Id, p: EventCreate) returns (r: Result<Event, Error>)
      requires Valid()
      modifies this
      ensures Valid()
      ensures !callerIsAdmin ==> r == Failure(AdminRequired) && events == old(events)
      ensures callerIsAdmin && !HasEvent(old(events), eventId) ==> r == Failure(EventNotFound) && events == old(events)
      ensures callerIsAdmin && HasEvent(old(events), eventId) ==>
        var i := IndexOfEvent(old(events), eventId).value;
        && r.Success?
        && r.value == old(events)[i].(title := p.title, description := p.description,
                                       dateTime := p.dateTime, location := p.location)
        && events == old(events)[i := r.value]
      ensures users == old(users) && registrations == old(registrations)
      ensures nextEventId == old(nextEventId) && nextRegistrationId == old(nextRegistrationId)
    {
      if !callerIsAdmin {
        return Failure(AdminRequired);
      }
      var found := IndexOfEvent(events, eventId);
      if found.None? {
        return Failure(EventNotFound);
      }
      var i := found.value;
      var updated := OverwriteFields(events[i], p);
      var t := events[i := updated];
      forall a, b | 0 <= a < b < |t| ensures t[a].id != t[b].id {
        assert t[a].id == events[a].id && t[b].id == events[b].id;
      }
      forall k | 0 <= k < |registrations| && registrations[k].eventId.Some?
        ensures HasEvent(t, registrations[k].eventId.value)
      {
        var j :| 0 <= j < |events| && events[j].id == registrations[k].eventId.value;
        assert t[j].id == events[j].id;
      }
      events := t;
      r := Success(updated);
    }

    /**
     * DELETE /events/{event_id}: an admin removes one event. Its
     * registrations stay, with a NULL event_id; all other rows stay as
     * they were.
     */
    method DeleteEvent(callerIsAdmin: bool, eventId: Id) returns (r: Result<string, Error>)
      requires Valid()
      modifies this
      ensures Valid()
      ensures !callerIsAdmin ==>
        r == Failure(AdminRequired) && events == old(events) && registrations == old(registrations)
      ensures callerIsAdmin && !HasEvent(old(events), eventId) ==>
        r == Failure(EventNotFound) && events == old(events) && registrations == old(registrations)
      ensures callerIsAdmin && HasEvent(old(events), eventId) ==>
        && r == Success(EventDeleted)
        && events == RemoveAt(old(events), IndexOfEvent(old(events), eventId).value)
        && registrations == Detach(old(registrations), eventId)
        && !HasEvent(events, eventId)
        && forall other :: other != eventId ==> (HasEvent(events, other) <==> HasEvent(old(events), other))
      ensures users == old(users)
      ensures nextEventId == old(nextEventId) && nextRegistrationId == old(nextRegistrationId)
    {
      if !callerIsAdmin {
        return Failure(AdminRequired);
      }
      var found := IndexOfEvent(events, eventId);
      if found.None? {
        return Failure(EventNotFound);
      }
      var i := found.value;
      var rest := RemoveAt(events, i);
      DetachKeepsConstraints(registrations, events, i, users);
      forall other | other != eventId ensures HasEvent(rest, other) <==> HasEvent(events, other) {
        RemoveAtKeepsOtherEvents(events, i, other);
      }
      RemoveAtKeepsOtherEvents(events, i, eventId);
      forall k | 0 <= k < |rest| ensures rest[k].id < nextEventId {
        assert rest[k] == events[if k < i then k else k + 1];
      }
      registrations := Detach(registrations, eventId);
      events := rest;
      r := Success(EventDeleted);
    }

    /**
     * POST /events/{event_id}/register: the authenticated user signs up for
     * an event. The existence check comes first, then the duplicate check;
     * only when both pass is exactly one row added, for the caller and that
     * event.
     */
    method RegisterForEvent(currentUser: User, eventId: Id, now: Timestamp) returns (r: Result<Registration, Error>)
      requires Valid()
      requires currentUser in users
      modifies this
      ensures Valid()
      ensures !HasEvent(old(events), eventId) ==>
        r == Failure(EventNotFound) && registrations == old(registrations)
      ensures HasEvent(old(events), eventId) && IsRegistered(old(registrations), currentUser.id, eventId) ==>
        r == Failure(AlreadyRegistered) && registrations == old(registrations)
      ensures HasEvent(old(events), eventId) && !IsRegistered(old(registrations), currentUser.id, eventId) ==>
        && r == Success(Registration(old(nextRegistrationId), currentUser.id, Some(eventId), now))
        && registrations == old(registrations) + [r.value]
      ensures r.Failure? ==> nextRegistrationId == old(nextRegistrationId)
      ensures r.Success? ==> nextRegistrationId == old(nextRegistrationId) + 1
      ensures users == old(users) && events == old(events) && nextEventId == old(nextEventId)
    {
      var found := IndexOfEvent(events, eventId);
      if found.None? {
        return Failure(EventNotFound);
      }
      if IsRegistered(registrations, currentUser.id, eventId) {
        return Failure(AlreadyRegistered);
      }
      var reg := Registration(nextRegistrationId, currentUser.id, Some(eventId), now);
      var u :| 0 <= u < |users| && users[u] == currentUser;
      assert UserIdTaken(users, reg.userId);
      var inserted := InsertRegistration(registrations, reg, users, events);
      // No integrity error fires here: the checks above ruled every violation out.
      assert inserted.Some?;
      InsertRegistrationKeepsKeys(registrations, reg, users, events);
      registrations := inserted.value;
      nextRegistrationId := nextRegistrationId + 1;
      r := Success(reg);
    }
  }

  /** A session as a client sees it: sign up, sign up again, delete, sign up once more. */
  method RegistrationScenario(now: Timestamp)
  {
    var store := new EventStore();
    var student := NewUser(1, "Student", "student@college.edu", "hash", None);
    var added := store.AddUser(student);
    assert added && !student.isAdmin;
    var created := store.CreateEvent(true, EventCreate("Fest", "Annual fest", now + 10, "Hall"), now);
    var id := created.value.id;
    assert store.events[0].id == id;
    var first := store.RegisterForEvent(student, id, now);
    assert first.Success? && first.value.userId == student.id;
    var second := store.RegisterForEvent(student, id, now + 1);
    assert store.registrations[0].eventId == Some(id);
    assert second == Failure(AlreadyRegistered);
    var deleted := store.DeleteEvent(true, id);
    assert deleted == Success(EventDeleted) && store.events == [];
    var third := store.RegisterForEvent(student, id, now + 2);
    assert third == Failure(EventNotFound);
    assert |store.registrations| == 1 && store.registrations[0].eventId.None?;
  }
}
