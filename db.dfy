/** The event repository of src/lib/db.js: the `events` and `registrations`
    tables (and the `users` table that src/lib/users.js writes) held in
    memory, with the repository's result conventions. Each call of the query
    executor `query` is given a `QueryStatus`: the statement either runs or
    fails, in which case `query` returns `null`. */
module Db {
  import opened Wrappers
  import Rows

  /** Whether one call of `query` ran its statement or returned `null`
      (no pooled connection, or the statement failed). */
  datatype QueryStatus = Ran | Failed

  /** A row of `events`; `owner` is `NULL` when no owner id was supplied. */
  datatype Event = Event(id: nat, name: string, slug: string, description: string,
                         location: string, url: string, owner: Option<nat>)

  /** The fields `createEvent` inserts and `updateEvent` sets. */
  datatype EventFields = EventFields(name: string, slug: string, description: string,
                                     location: string, url: string)

  /** A row of `registrations`: a free-text attendee name for one event. */
  datatype Registration = Registration(id: nat, name: string, comment: string, event: nat)

  /** A row of `users`; `password` holds the password hash. */
  datatype User = User(id: nat, name: string, username: string, password: string)

  function EventId(e: Event): nat { e.id }
  function EventName(e: Event): string { e.name }
  function RegistrationId(r: Registration): nat { r.id }
  function UserId(u: User): nat { u.id }
  /** The (name, event) pair a registration toggles on. */
  function RegistrationPair(r: Registration): (string, nat) { (r.name, r.event) }

  function HasId(id: nat): Event -> bool { (e: Event) => e.id == id }
  function HasSlug(slug: string): Event -> bool { (e: Event) => e.slug == slug }
  function HasName(name: string): Event -> bool { (e: Event) => e.name == name }
  function ForEvent(event: nat): Registration -> bool { (r: Registration) => r.event == event }
  function NameAndEvent(name: string, event: nat): Registration -> bool { (r: Registration) => r.name == name && r.event == event }

  /** The row `updateEvent` writes over `e`: every field of `f` is set, the id
      and the owner are kept. */
  function WithFields(e: Event, f: EventFields): Event {
    e.(name := f.name, slug := f.slug, description := f.description,
       location := f.location, url := f.url)
  }

  /** The table after `UPDATE events SET ... WHERE id = id`. */
  function UpdateWhereId(events: seq<Event>, id: nat, f: EventFields): (r: seq<Event>)
    ensures |r| == |events|
    ensures forall i :: 0 <= i < |r| ==> r[i].id == events[i].id
  {
    seq(|events|, i requires 0 <= i < |events| =>
      if events[i].id == id then WithFields(events[i], f) else events[i])
  }

  /** With unique ids, the `UPDATE` matches one row exactly when a row has
      the id, and `RETURNING` then yields that row with the new fields. */
  lemma UpdatedRow(events: seq<Event>, id: nat, f: EventFields)
    requires Rows.UniqueKeys(events, EventId)
    ensures Rows.UniqueKeys(UpdateWhereId(events, id, f), EventId)
    ensures Rows.ExactlyOne(UpdateWhereId(events, id, f), HasId(id)) <==> exists e :: e in events && e.id == id
    ensures forall e :: e in events && e.id == id ==>
      SelectOne(UpdateWhereId(events, id, f), HasId(id), Ran) == Some(WithFields(e, f))
  {
    var after := UpdateWhereId(events, id, f);
    assert Rows.UniqueKeys(after, EventId) by {
      forall i, j | 0 <= i < j < |after|
        ensures after[i].id != after[j].id
      {
        assert EventId(events[i]) != EventId(events[j]);
      }
    }
    if i :| 0 <= i < |events| && events[i].id == id {
      Rows.UniqueKeyMatch(after, EventId, HasId(id), i);
      forall e | e in events && e.id == id
        ensures SelectOne(after, HasId(id), Ran) == Some(WithFields(e, f))
      {
        var j :| 0 <= j < |events| && events[j] == e;
        assert EventId(events[i]) == EventId(events[j]);
      }
    }
  }

  /** The "exactly one row" convention: the row when the query ran and
      `rowCount === 1`, `null` when it failed or matched zero or several rows. */
  function SelectOne<T(!new)>(rows: seq<T>, p: T -> bool, q: QueryStatus): (r: Option<T>)
    ensures r.Some? <==> q == Ran && Rows.ExactlyOne(rows, p)
    ensures r.Some? ==> r.value in rows && p(r.value)
    ensures r.Some? ==> forall i :: 0 <= i < |rows| && p(rows[i]) ==> rows[i] == r.value
  {
    Rows.FilterSingleton(rows, p);
    var matches := Rows.Filter(rows, p);
    if q == Ran && |matches| == 1 then Some(matches[0]) else None
  }

  /** `listEvents(offset, limit)`: one page of the table, or `null` when the
      query failed. A limit of `None` is the `LIMIT NULL` of a call without
      arguments. */
  function ListEvents(events: seq<Event>, offset: nat, limit: Option<nat>, q: QueryStatus): (r: Option<seq<Event>>)
    ensures r.Some? <==> q == Ran
    ensures r.Some? && limit.Some? ==> |r.value| <= limit.value
    ensures r.Some? ==> forall e :: e in r.value ==> e in events
    ensures r.Some? && offset < |events| ==> r.value != [] || limit == Some(0)
  {
    if q == Ran then Some(Rows.Window(events, offset, limit)) else None
  }

  /** `listEvent(slug)`: the event with that slug when exactly one has it. */
  function ListEvent(events: seq<Event>, slug: string, q: QueryStatus): (r: Option<Event>)
    ensures r.Some? <==> q == Ran && Rows.ExactlyOne(events, HasSlug(slug))
    ensures r.Some? ==> r.value in events && r.value.slug == slug
    ensures r.Some? ==> forall e :: e in events && e.slug == slug ==> e == r.value
  {
    SelectOne(events, HasSlug(slug), q)
  }

  /** `listEventByName(name)`: the event with that name when exactly one has it. */
  function ListEventByName(events: seq<Event>, name: string, q: QueryStatus): (r: Option<Event>)
    ensures r.Some? <==> q == Ran && Rows.ExactlyOne(events, HasName(name))
    ensures r.Some? ==> r.value in events && r.value.name == name
    ensures r.Some? ==> forall e :: e in events && e.name == name ==> e == r.value
  {
    SelectOne(events, HasName(name), q)
  }

  /** A row appended under a slug no other row has is what `listEvent`
      then returns for that slug. */
  lemma CreatedEventFoundBySlug(events: seq<Event>, e: Event)
    requires forall x :: x in events ==> x.slug != e.slug
    ensures ListEvent(events + [e], e.slug, Ran) == Some(e)
  {
    var s := events + [e];
    assert Rows.OnlyMatch(s, HasSlug(e.slug), |events|);
  }

  /** `listRegistered(event)`: every registration for the event, or `null`. */
  function ListRegistered(registrations: seq<Registration>, event: nat, q: QueryStatus): (r: Option<seq<Registration>>)
    ensures r.Some? <==> q == Ran
    ensures r.Some? ==> forall x :: x in r.value <==> x in registrations && x.event == event
  {
    if q == Ran then Some(Rows.Filter(registrations, ForEvent(event))) else None
  }

  /** `eventAmount()`: the number of events; reading the rows of a `null`
      result throws. */
  function EventAmount(events: seq<Event>, q: QueryStatus): (r: Outcome<nat>)
    ensures r.Done? <==> q == Ran
    ensures r.Done? ==> r.value == |events|
  {
    if q == Ran then Done(|events|) else Threw
  }

  /** No two registrations share a (name, event) pair: the state the
      registration toggle is meant to keep. */
  ghost predicate OneRegistrationPerPair(registrations: seq<Registration>) {
    Rows.UniqueKeys(registrations, RegistrationPair)
  }

  /** The three tables and the next value of each `serial` id column. */
  class Database {
    var events: seq<Event>
    var registrations: seq<Registration>
    var users: seq<User>
    var nextEventId: nat
    var nextRegistrationId: nat
    var nextUserId: nat

    /** The `serial` ids are unique, and every id was drawn before the
        next one. */
    ghost predicate Valid()
      reads this
    {
      && Rows.UniqueKeys(events, EventId)
      && Rows.UniqueKeys(registrations, RegistrationId)
      && Rows.UniqueKeys(users, UserId)
      && (forall e :: e in events ==> e.id < nextEventId)
      && (forall r :: r in registrations ==> r.id < nextRegistrationId)
      && (forall u :: u in users ==> u.id < nextUserId)
    }

    constructor ()
      ensures Valid()
      ensures events == [] && registrations == [] && users == []
    {
      events, registrations, users := [], [], [];
      nextEventId, nextRegistrationId, nextUserId := 1, 1, 1;
    }

    /** `createEvent`: insert one row and return it; `null` when the query failed. */
    method CreateEvent(f: EventFields, owner: Option<nat>, q: QueryStatus) returns (created: Option<Event>)
      requires Valid()
      modifies this`events, this`nextEventId
      ensures Valid()
      ensures q == Failed ==> created == None && events == old(events) && nextEventId == old(nextEventId)
      ensures q == Ran ==>
        && created == Some(Event(old(nextEventId), f.name, f.slug, f.description, f.location, f.url, owner))
        && events == old(events) + [created.value]
        && nextEventId == old(nextEventId) + 1
    {
      if q == Failed {
        return None;
      }
      var row := Event(nextEventId, f.name, f.slug, f.description, f.location, f.url, owner);
      events := events + [row];
      nextEventId := nextEventId + 1;
      // an INSERT of one VALUES row affects exactly one row
      created := Some(row);
    }

    /** `updateEvent(id, fields)`: set name, slug, description, location and
        url on the row with that id; return the row when exactly one row
        matched. */
    method UpdateEvent(id: nat, f: EventFields, q: QueryStatus) returns (updated: Option<Event>)
      requires Valid()
      modifies this`events
      ensures Valid()
      ensures q == Failed ==> events == old(events)
      ensures q == Ran ==> events == UpdateWhereId(old(events), id, f)
      ensures q == Ran ==> |events| == |old(events)|
      ensures q == Ran ==> forall i :: 0 <= i < |events| ==>
        events[i] == if old(events)[i].id == id then WithFields(old(events)[i], f) else old(events)[i]
      ensures updated.Some? <==> q == Ran && exists e :: e in old(events) && e.id == id
      ensures updated.Some? ==> updated.value in events && updated.value.id == id
      ensures updated.Some? ==> forall e :: e in old(events) && e.id == id ==> updated.value == WithFields(e, f)
    {
      if q == Failed {
        return None;
      }
      UpdatedRow(events, id, f);
      events := UpdateWhereId(events, id, f);
      updated := SelectOne(events, HasId(id), Ran);
    }

    /** `removeEvent(id)`: delete the event's registrations, then the event,
        as two separate statements; the function returns `null` whatever happens. */
    method RemoveEvent(id: nat, qRegistrations: QueryStatus, qEvent: QueryStatus)
      requires Valid()
      modifies this`events, this`registrations
      ensures Valid()
      ensures registrations == if qRegistrations == Ran then Rows.Reject(old(registrations), ForEvent(id)) else old(registrations)
      ensures events == if qEvent == Ran then Rows.Reject(old(events), HasId(id)) else old(events)
      ensures qRegistrations == Ran ==> forall r :: r in registrations ==> r.event != id
      ensures qEvent == Ran ==> forall e :: e in events ==> e.id != id
    {
      if qRegistrations == Ran {
        Rows.RejectKeepsUniqueKeys(registrations, ForEvent(id), RegistrationId);
        registrations := Rows.Reject(registrations, ForEvent(id));
      }
      if qEvent == Ran {
        Rows.RejectKeepsUniqueKeys(events, HasId(id), EventId);
        events := Rows.Reject(events, HasId(id));
      }
    }

    /** `register({name, comment, event})`: insert one registration and return it. */
    method Register(name: string, comment: string, event: nat, q: QueryStatus) returns (registered: Option<Registration>)
      requires Valid()
      modifies this`registrations, this`nextRegistrationId
      ensures Valid()
      ensures q == Failed ==> registered == None && registrations == old(registrations) && nextRegistrationId == old(nextRegistrationId)
      ensures q == Ran ==>
        && registered == Some(Registration(old(nextRegistrationId), name, comment, event))
        && registrations == old(registrations) + [registered.value]
        && nextRegistrationId == old(nextRegistrationId) + 1
    {
      if q == Failed {
        return None;
      }
      var row := Registration(nextRegistrationId, name, comment, event);
      registrations := registrations + [row];
      nextRegistrationId := nextRegistrationId + 1;
      registered := Some(row);
    }

    /** `removeRegistration(name, event)`: delete every registration with that
        name for that event; nothing is returned. */
    method RemoveRegistration(name: string, event: nat, q: QueryStatus)
      requires Valid()
      modifies this`registrations
      ensures Valid()
      ensures registrations == if q == Ran then Rows.Reject(old(registrations), NameAndEvent(name, event)) else old(registrations)
      ensures q == Ran ==> forall r :: r in registrations <==> r in old(registrations) && !(r.name == name && r.event == event)
    {
      if q == Ran {
        Rows.RejectKeepsUniqueKeys(registrations, NameAndEvent(name, event), RegistrationId);
        registrations := Rows.Reject(registrations, NameAndEvent(name, event));
      }
    }
  }
}
