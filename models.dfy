/**
 * The three tables of the application (models.py) as records, and the
 * constraints the database enforces on them: primary keys, the unique user
 * email, the unique (user_id, event_id) pair of a registration and the
 * foreign keys from a registration to its user and event.
 *
 * A table is a sequence of rows in the order the database scans them.
 */
module Models {
  import opened Wrappers

  type Id = int

  /** A DateTime column, as a point on a clock the model does not interpret. */
  type Timestamp = int

  datatype User = User(id: Id, fullName: string, email: string, hashedPassword: string, isAdmin: bool)

  datatype Event = Event(
    id: Id,
    title: string,
    description: string,
    dateTime: Timestamp,
    location: string,
    createdAt: Timestamp)

  /** `eventId` is NULL (`None`) once the event it pointed to has been deleted. */
  datatype Registration = Registration(id: Id, userId: Id, eventId: Option<Id>, registrationDate: Timestamp)

  /**
   * A new `college_users` row; `isAdmin` is `None` when the insert leaves the
   * column to its default.
   */
  function NewUser(id: Id, fullName: string, email: string, hashedPassword: string, isAdmin: Option<bool>): (u: User)
    ensures u.id == id && u.fullName == fullName && u.email == email && u.hashedPassword == hashedPassword
    ensures isAdmin.None? ==> !u.isAdmin
    ensures isAdmin.Some? ==> u.isAdmin == isAdmin.value
  {
    User(id, fullName, email, hashedPassword, if isAdmin.Some? then isAdmin.value else false)
  }

  // ---- college_users --------------------------------------------------

  predicate UserIdTaken(users: seq<User>, id: Id)
  {
    exists i :: 0 <= i < |users| && users[i].id == id
  }

  predicate EmailTaken(users: seq<User>, email: string)
  {
    exists i :: 0 <= i < |users| && users[i].email == email
  }

  /** `id` is the primary key. */
  predicate UniqueUserIds(users: seq<User>)
  {
    forall i, j :: 0 <= i < j < |users| ==> users[i].id != users[j].id
  }

  /** `email` is declared unique. */
  predicate UniqueEmails(users: seq<User>)
  {
    forall i, j :: 0 <= i < j < |users| ==> users[i].email != users[j].email
  }

  /** An INSERT into `college_users`; `None` is the integrity error of a taken id or email. */
  function InsertUser(users: seq<User>, u: User): (r: Option<seq<User>>)
    ensures r.Some? <==> !UserIdTaken(users, u.id) && !EmailTaken(users, u.email)
    ensures r.Some? ==> r.value == users + [u]
  {
    if UserIdTaken(users, u.id) || EmailTaken(users, u.email) then None else Some(users + [u])
  }

  /** An accepted user insert keeps both keys of the table unique. */
  lemma InsertUserKeepsKeys(users: seq<User>, u: User)
    requires UniqueUserIds(users) && UniqueEmails(users)
    requires InsertUser(users, u).Some?
    ensures UniqueUserIds(InsertUser(users, u).value) && UniqueEmails(InsertUser(users, u).value)
  {
  }

  // ---- college_events -------------------------------------------------

  predicate HasEvent(events: seq<Event>, id: Id)
  {
    exists i :: 0 <= i < |events| && events[i].id == id
  }

  /** `id` is the primary key. */
  predicate UniqueEventIds(events: seq<Event>)
  {
    forall i, j :: 0 <= i < j < |events| ==> events[i].id != events[j].id
  }

  /** The position of the first row whose id is `id`: `filter(Event.id == id).first()`. */
  function IndexOfEvent(events: seq<Event>, id: Id): (r: Option<nat>)
    ensures r.Some? ==> r.value < |events| && events[r.value].id == id
    ensures r.Some? ==> forall j :: 0 <= j < r.value ==> events[j].id != id
    ensures r.None? <==> !HasEvent(events, id)
  {
    if |events| == 0 then None
    else if events[0].id == id then Some(0)
    else
      match IndexOfEvent(events[1..], id)
      case None =>
        assert forall j :: 1 <= j < |events| ==> events[j] == events[1..][j - 1];
        None
      case Some(k) =>
        assert events[1..][k] == events[k + 1];
        assert forall j :: 1 <= j < k + 1 ==> events[j] == events[1..][j - 1];
        Some(k + 1)
  }

  /** The table after the DELETE of the row at position `i`. */
  function RemoveAt(events: seq<Event>, i: nat): (r: seq<Event>)
    requires i < |events|
    ensures |r| == |events| - 1
    ensures forall j :: 0 <= j < i ==> r[j] == events[j]
    ensures forall j :: i <= j < |r| ==> r[j] == events[j + 1]
  {
    events[..i] + events[i + 1..]
  }

  /**
   * Deleting the row with a given id, in a table whose ids are unique,
   * removes that id and only that id, and keeps the ids unique.
   */
  lemma RemoveAtKeepsOtherEvents(events: seq<Event>, i: nat, other: Id)
    requires UniqueEventIds(events) && i < |events|
    ensures UniqueEventIds(RemoveAt(events, i))
    ensures !HasEvent(RemoveAt(events, i), events[i].id)
    ensures other != events[i].id ==> (HasEvent(RemoveAt(events, i), other) <==> HasEvent(events, other))
  {
    var r := RemoveAt(events, i);
    forall a, b | 0 <= a < b < |r| ensures r[a].id != r[b].id {
      var a' := if a < i then a else a + 1;
      var b' := if b < i then b else b + 1;
      assert r[a] == events[a'] && r[b] == events[b'];
    }
    forall j | 0 <= j < |r| ensures r[j].id != events[i].id {
      var j' := if j < i then j else j + 1;
      assert r[j] == events[j'];
    }
    if other != events[i].id && HasEvent(events, other) {
      var k :| 0 <= k < |events| && events[k].id == other;
      var k' := if k < i then k else k - 1;
      assert r[k'] == events[k];
    }
  }

  // ---- college_registrations ------------------------------------------

  /** A row for the pair (userId, eventId) exists: the duplicate-registration query. */
  predicate IsRegistered(regs: seq<Registration>, userId: Id, eventId: Id)
  {
    exists i :: 0 <= i < |regs| && regs[i].userId == userId && regs[i].eventId == Some(eventId)
  }

  predicate RegistrationIdTaken(regs: seq<Registration>, id: Id)
  {
    exists i :: 0 <= i < |regs| && regs[i].id == id
  }

  /** `id` is the primary key. */
  predicate UniqueRegistrationIds(regs: seq<Registration>)
  {
    forall i, j :: 0 <= i < j < |regs| ==> regs[i].id != regs[j].id
  }

  /**
   * The constraint `uq_user_event`: no two rows share (user_id, event_id).
   * A NULL event_id equals nothing, so detached rows never collide.
   */
  predicate UniqueUserEvent(regs: seq<Registration>)
  {
    forall i, j :: 0 <= i < j < |regs| && regs[i].eventId.Some? ==>
      regs[i].userId != regs[j].userId || regs[i].eventId != regs[j].eventId
  }

  /** Foreign key `event_id`: every non-NULL event_id names a row of `college_events`. */
  predicate ReferencesEvents(regs: seq<Registration>, events: seq<Event>)
  {
    forall i :: 0 <= i < |regs| && regs[i].eventId.Some? ==> HasEvent(events, regs[i].eventId.value)
  }

  /** Foreign key `user_id`: every user_id names a row of `college_users`. */
  predicate ReferencesUsers(regs: seq<Registration>, users: seq<User>)
  {
    forall i :: 0 <= i < |regs| ==> UserIdTaken(users, regs[i].userId)
  }

  /**
   * An INSERT into `college_registrations`; `None` is the integrity error of a
   * taken id, of a user_id or non-NULL event_id that names no row, or of a
   * second row for the same (user_id, event_id).
   */
  function InsertRegistration(regs: seq<Registration>, reg: Registration, users: seq<User>, events: seq<Event>):
    (r: Option<seq<Registration>>)
    ensures r.Some? <==>
      && !RegistrationIdTaken(regs, reg.id)
      && UserIdTaken(users, reg.userId)
      && (reg.eventId.Some? ==> HasEvent(events, reg.eventId.value) && !IsRegistered(regs, reg.userId, reg.eventId.value))
    ensures r.Some? ==> r.value == regs + [reg]
  {
    if RegistrationIdTaken(regs, reg.id) then None
    else if !UserIdTaken(users, reg.userId) then None
    else if reg.eventId.Some? && !HasEvent(events, reg.eventId.value) then None
    else if reg.eventId.Some? && IsRegistered(regs, reg.userId, reg.eventId.value) then None
    else Some(regs + [reg])
  }

  /**
   * An accepted registration insert keeps the primary key, `uq_user_event`
   * and both foreign keys.
   */
  lemma InsertRegistrationKeepsKeys(regs: seq<Registration>, reg: Registration, users: seq<User>, events: seq<Event>)
    requires UniqueRegistrationIds(regs) && UniqueUserEvent(regs)
    requires ReferencesUsers(regs, users) && ReferencesEvents(regs, events)
    requires InsertRegistration(regs, reg, users, events).Some?
    ensures UniqueRegistrationIds(InsertRegistration(regs, reg, users, events).value)
    ensures UniqueUserEvent(InsertRegistration(regs, reg, users, events).value)
    ensures ReferencesUsers(InsertRegistration(regs, reg, users, events).value, users)
    ensures ReferencesEvents(InsertRegistration(regs, reg, users, events).value, events)
  {
  }

  /**
   * Once a pair is in the table, a second insert for the same pair is
   * refused, whatever its id and timestamp.
   */
  lemma SecondRegistrationRefused(
    regs: seq<Registration>, reg: Registration, again: Registration, users: seq<User>, events: seq<Event>)
    requires InsertRegistration(regs, reg, users, events).Some? && reg.eventId.Some?
    requires again.userId == reg.userId && again.eventId == reg.eventId
    ensures IsRegistered(InsertRegistration(regs, reg, users, events).value, reg.userId, reg.eventId.value)
    ensures InsertRegistration(InsertRegistration(regs, reg, users, events).value, again, users, events).None?
  {
    var t := InsertRegistration(regs, reg, users, events).value;
    assert t[|regs|] == reg;
  }

  /**
   * What the ORM does to the registrations of a deleted event: the
   * relationship Event.registrations has no delete cascade, so on flush each
   * child row gets a NULL event_id and is otherwise kept.
   */
  function Detach(regs: seq<Registration>, eventId: Id): (r: seq<Registration>)
    ensures |r| == |regs|
    ensures forall k :: 0 <= k < |r| ==>
      r[k].id == regs[k].id && r[k].userId == regs[k].userId && r[k].registrationDate == regs[k].registrationDate
    ensures forall k :: 0 <= k < |r| ==>
      r[k].eventId == (if regs[k].eventId == Some(eventId) then None else regs[k].eventId)
    ensures !exists k :: 0 <= k < |r| && r[k].eventId == Some(eventId)
  {
    seq(|regs|, k requires 0 <= k < |regs| =>
      if regs[k].eventId == Some(eventId) then regs[k].(eventId := None) else regs[k])
  }

  /**
   * Detaching the registrations of the deleted event `events[i]` keeps every
   * key of the registrations table and every foreign key valid against the
   * events that remain.
   */
  lemma DetachKeepsConstraints(regs: seq<Registration>, events: seq<Event>, i: nat, users: seq<User>)
    requires i < |events| && UniqueEventIds(events)
    requires UniqueRegistrationIds(regs) && UniqueUserEvent(regs)
    requires ReferencesEvents(regs, events) && ReferencesUsers(regs, users)
    ensures UniqueRegistrationIds(Detach(regs, events[i].id))
    ensures UniqueUserEvent(Detach(regs, events[i].id))
    ensures ReferencesEvents(Detach(regs, events[i].id), RemoveAt(events, i))
    ensures ReferencesUsers(Detach(regs, events[i].id), users)
  {
    var d := Detach(regs, events[i].id);
    var rest := RemoveAt(events, i);
    forall k | 0 <= k < |d| && d[k].eventId.Some? ensures HasEvent(rest, d[k].eventId.value) {
      RemoveAtKeepsOtherEvents(events, i, d[k].eventId.value);
    }
    forall k | 0 <= k < |d| ensures UserIdTaken(users, d[k].userId) {
      assert d[k].userId == regs[k].userId;
    }
  }
}
