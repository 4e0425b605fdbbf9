/** The decisions of src/routes/admin-routes.js: the listing with its page
    count, the paging handlers, the name-clash checks before a write, and
    the create, update and remove handlers. Rendering is left out; each
    handler returns what it does as a `Web.Response`. */
module AdminRoutes {
  import opened Wrappers
  import opened Db
  import opened Web
  import Users
  import Pagination
  import Site
  import Rows

  /** The custom error pushed when an event already has the submitted name. */
  const NameTaken: FieldError := FieldError("name", "Viðburður með þessu nafni er til")

  /** No two events share a name. */
  ghost predicate UniqueNames(events: seq<Event>) {
    Rows.UniqueKeys(events, EventName)
  }

  /** `index`: list the page at the admin offset and recount the pages;
      `eventAmount` throws when its query fails. */
  method Index(site: Site.State, qList: QueryStatus, qCount: QueryStatus) returns (r: Response)
    requires site.Valid()
    modifies site.adminPage
    ensures site.Valid()
    ensures unchanged(site.indexPage)
    ensures site.adminPage.pagenumber == old(site.adminPage.pagenumber)
    ensures qCount == Failed ==> r == Raised && site.adminPage.pageamount == old(site.adminPage.pageamount)
    ensures qCount == Ran ==>
      && site.adminPage.pageamount == Pagination.PageCount(|site.db.events|)
      && r == Listing(ListEvents(site.db.events, site.adminPage.pagenumber, Some(Pagination.PageIncrement), qList))
  {
    var events := ListEvents(site.db.events, site.adminPage.pagenumber, Some(Pagination.PageIncrement), qList);
    var amount := EventAmount(site.db.events, qCount);
    if amount.Threw? {
      return Raised;
    }
    site.adminPage.SetPageAmount(amount.value);
    r := Listing(events);
  }

  /** `GET /admin/previouspage`. */
  method PreviousPage(site: Site.State) returns (r: Response)
    requires site.Valid()
    modifies site.adminPage
    ensures site.Valid()
    ensures unchanged(site.indexPage)
    ensures r == Redirect("/admin")
    ensures site.adminPage.pageamount == old(site.adminPage.pageamount)
    ensures site.adminPage.pagenumber ==
      if old(site.adminPage.pagenumber) == 0 then 0 else old(site.adminPage.pagenumber) - Pagination.PageIncrement
  {
    site.adminPage.PreviousPage();
    r := Redirect("/admin");
  }

  /** `GET /admin/nextpage`. */
  method NextPage(site: Site.State) returns (r: Response)
    requires site.Valid()
    modifies site.adminPage
    ensures site.Valid()
    ensures unchanged(site.indexPage)
    ensures r == Redirect("/admin")
    ensures site.adminPage.pageamount == old(site.adminPage.pageamount)
    ensures site.adminPage.pagenumber == Pagination.NextOffset(old(site.adminPage.pagenumber), old(site.adminPage.pageamount))
    ensures old(site.adminPage.OnListedPage()) ==> site.adminPage.OnListedPage()
  {
    site.adminPage.NextPage();
    r := Redirect("/admin");
  }

  /** `validationCheck` before a create: any event that is the one event with
      the submitted name blocks the write with a `name` error; the rendered
      errors are the field errors followed by the custom ones. */
  function ValidationCheck(events: seq<Event>, name: string, fieldErrors: seq<FieldError>, q: QueryStatus): (r: Response)
    ensures r.Next? || r.Rerender?
    ensures r.Next? <==> fieldErrors == [] && !(q == Ran && Rows.ExactlyOne(events, HasName(name)))
    ensures r.Rerender? ==>
      r.errors == fieldErrors + if q == Ran && Rows.ExactlyOne(events, HasName(name)) then [NameTaken] else []
  {
    var byName := ListEventByName(events, name, q);
    var custom := if byName.Some? then [NameTaken] else [];
    if fieldErrors != [] || custom != [] then Rerender(fieldErrors + custom) else Next
  }

  /** `validationCheckUpdate`: a name match blocks only when the matched
      event is not the one being edited; reading the id of a missing edited
      event throws. */
  function ValidationCheckUpdate(events: seq<Event>, slug: string, name: string, fieldErrors: seq<FieldError>,
                                 qEvent: QueryStatus, qName: QueryStatus): (r: Response)
    ensures r.Next? || r.Rerender? || r.Raised?
    ensures r.Raised? <==> ListEventByName(events, name, qName).Some? && ListEvent(events, slug, qEvent).None?
    ensures r.Next? <==>
      && fieldErrors == []
      && (ListEventByName(events, name, qName).Some? ==>
            ListEvent(events, slug, qEvent).Some? &&
            ListEventByName(events, name, qName).value.id == ListEvent(events, slug, qEvent).value.id)
    ensures r.Rerender? ==>
      r.errors == fieldErrors +
        (if ListEventByName(events, name, qName).Some? && ListEvent(events, slug, qEvent).Some? &&
            ListEventByName(events, name, qName).value.id != ListEvent(events, slug, qEvent).value.id
         then [NameTaken] else [])
  {
    var current := ListEvent(events, slug, qEvent);
    var byName := ListEventByName(events, name, qName);
    if byName.Some? && current.None? then Raised
    else
      var custom := if byName.Some? && byName.value.id != current.value.id then [NameTaken] else [];
      if fieldErrors != [] || custom != [] then Rerender(fieldErrors + custom) else Next
  }

  /** The `owner` `registerRoute` inserts: `userInfo.id`, which is
      `undefined` (stored as NULL) when the lookup returned `false`. */
  function OwnerOf(lookup: Users.UserLookup): (owner: Option<nat>)
    requires !lookup.LookupFailed?
    ensures owner.Some? <==> lookup.Found?
    ensures owner.Some? ==> owner.value == lookup.user.id
  {
    if lookup.Found? then Some(lookup.user.id) else None
  }

  /** `registerRoute` (POST /admin): create the event with the slug of its
      name, owned by the signed-in user; redirect on success. */
  method RegisterRoute(db: Database, username: string, name: string, description: string, location: string, url: string,
                       slugify: string -> string, qUser: QueryStatus, qInsert: QueryStatus) returns (r: Response)
    requires db.Valid()
    modifies db`events, db`nextEventId
    ensures db.Valid()
    ensures Users.FindByUsername(db.users, username, qUser).LookupFailed? ==>
      r == Raised && db.events == old(db.events)
    ensures !Users.FindByUsername(db.users, username, qUser).LookupFailed? && qInsert == Failed ==>
      r == ErrorView && db.events == old(db.events)
    ensures !Users.FindByUsername(db.users, username, qUser).LookupFailed? && qInsert == Ran ==>
      && r == Redirect("/admin")
      && db.events == old(db.events) + [Event(old(db.nextEventId), name, slugify(name), description, location, url,
                                              OwnerOf(Users.FindByUsername(db.users, username, qUser)))]
  {
    var slug := slugify(name);
    var userInfo := Users.FindByUsername(db.users, username, qUser);
    if userInfo.LookupFailed? {
      return Raised;
    }
    var created := db.CreateEvent(EventFields(name, slug, description, location, url), OwnerOf(userInfo), qInsert);
    if created.Some? {
      return Redirect("/admin");
    }
    r := ErrorView;
  }

  /** `updateRoute` (POST /admin/:slug): rewrite the event found by its slug
      with the submitted fields and the slug of the new name. */
  method UpdateRoute(db: Database, slug: string, name: string, description: string, location: string, url: string,
                     slugify: string -> string, qEvent: QueryStatus, qUpdate: QueryStatus) returns (r: Response)
    requires db.Valid()
    modifies db`events
    ensures db.Valid()
    ensures ListEvent(old(db.events), slug, qEvent).None? ==> r == Raised && db.events == old(db.events)
    ensures ListEvent(old(db.events), slug, qEvent).Some? && qUpdate == Failed ==>
      r == ErrorView && db.events == old(db.events)
    ensures ListEvent(old(db.events), slug, qEvent).Some? && qUpdate == Ran ==>
      && r == Redirect("/admin")
      && db.events == UpdateWhereId(old(db.events), ListEvent(old(db.events), slug, qEvent).value.id,
                                    EventFields(name, slugify(name), description, location, url))
  {
    var event := ListEvent(db.events, slug, qEvent);
    if event.None? {
      return Raised;
    }
    var newSlug := slugify(name);
    var updated := db.UpdateEvent(event.value.id, EventFields(name, newSlug, description, location, url), qUpdate);
    if updated.Some? {
      return Redirect("/admin");
    }
    r := ErrorView;
  }

  /** `EventRemove` (GET /admin/remove/:slug): remove the event found by its
      slug, with its registrations, and go back to the listing. */
  method EventRemove(db: Database, slug: string, qEvent: QueryStatus, qRegistrations: QueryStatus, qDelete: QueryStatus)
    returns (r: Response)
    requires db.Valid()
    modifies db`events, db`registrations
    ensures db.Valid()
    ensures ListEvent(old(db.events), slug, qEvent).None? ==>
      r == Raised && db.events == old(db.events) && db.registrations == old(db.registrations)
    ensures ListEvent(old(db.events), slug, qEvent).Some? ==>
      var id := ListEvent(old(db.events), slug, qEvent).value.id;
      && r == Redirect("/admin")
      && db.registrations == (if qRegistrations == Ran then Rows.Reject(old(db.registrations), ForEvent(id)) else old(db.registrations))
      && db.events == (if qDelete == Ran then Rows.Reject(old(db.events), HasId(id)) else old(db.events))
  {
    var slugEvent := ListEvent(db.events, slug, qEvent);
    if slugEvent.None? {
      return Raised;
    }
    db.RemoveEvent(slugEvent.value.id, qRegistrations, qDelete);
    r := Redirect("/admin");
  }

  /** A create that passed `validationCheck` on a lookup that ran keeps
      event names unique. */
  lemma CreateKeepsNamesUnique(events: seq<Event>, name: string, fieldErrors: seq<FieldError>, e: Event)
    requires UniqueNames(events)
    requires ValidationCheck(events, name, fieldErrors, Ran).Next?
    requires e.name == name
    ensures UniqueNames(events + [e])
  {
    forall i | 0 <= i < |events|
      ensures events[i].name != name
    {
      if events[i].name == name {
        Rows.UniqueKeyMatch(events, EventName, HasName(name), i);
      }
    }
    var s := events + [e];
    forall i, j | 0 <= i < j < |s|
      ensures EventName(s[i]) != EventName(s[j])
    {
      if j < |events| {
        assert EventName(events[i]) != EventName(events[j]);
      }
    }
  }

  /** An update that passed `validationCheckUpdate` on lookups that ran, and
      writes the checked name over the event found by the slug, keeps event
      names unique. */
  lemma UpdateKeepsNamesUnique(events: seq<Event>, slug: string, name: string, fieldErrors: seq<FieldError>, f: EventFields)
    requires UniqueNames(events) && Rows.UniqueKeys(events, EventId)
    requires ValidationCheckUpdate(events, slug, name, fieldErrors, Ran, Ran).Next?
    requires ListEvent(events, slug, Ran).Some?
    requires f.name == name
    ensures UniqueNames(UpdateWhereId(events, ListEvent(events, slug, Ran).value.id, f))
  {
    var target := ListEvent(events, slug, Ran).value.id;
    var after := UpdateWhereId(events, target, f);
    forall j | 0 <= j < |events| && events[j].name == name
      ensures events[j].id == target
    {
      Rows.UniqueKeyMatch(events, EventName, HasName(name), j);
    }
    forall i, j | 0 <= i < j < |after|
      ensures EventName(after[i]) != EventName(after[j])
    {
      assert EventId(events[i]) != EventId(events[j]);
      assert EventName(events[i]) != EventName(events[j]);
    }
  }
}
