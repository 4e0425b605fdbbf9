/** The decisions of src/routes/index-routes.js: the public listing with
    its own `page` record, the paging handlers, the validation gate and the
    registration toggle. */
module IndexRoutes {
  import opened Wrappers
  import opened Db
  import opened Web
  import Users
  import Pagination
  import Site
  import Rows

  /** `indexRoute`: list the page at the public offset and recount the pages. */
  method IndexRoute(site: Site.State, qList: QueryStatus, qCount: QueryStatus) returns (r: Response)
    requires site.Valid()
    modifies site.indexPage
    ensures site.Valid()
    ensures unchanged(site.adminPage)
    ensures site.indexPage.pagenumber == old(site.indexPage.pagenumber)
    ensures qCount == Failed ==> r == Raised && site.indexPage.pageamount == old(site.indexPage.pageamount)
    ensures qCount == Ran ==>
      && site.indexPage.pageamount == Pagination.PageCount(|site.db.events|)
      && r == Listing(ListEvents(site.db.events, site.indexPage.pagenumber, Some(Pagination.PageIncrement), qList))
  {
    var events := ListEvents(site.db.events, site.indexPage.pagenumber, Some(Pagination.PageIncrement), qList);
    var amount := EventAmount(site.db.events, qCount);
    if amount.Threw? {
      return Raised;
    }
    site.indexPage.SetPageAmount(amount.value);
    r := Listing(events);
  }

  /** `GET /previouspage`. */
  method PreviousPage(site: Site.State) returns (r: Response)
    requires site.Valid()
    modifies site.indexPage
    ensures site.Valid()
    ensures unchanged(site.adminPage)
    ensures r == Redirect("/")
    ensures site.indexPage.pageamount == old(site.indexPage.pageamount)
    ensures site.indexPage.pagenumber ==
      if old(site.indexPage.pagenumber) == 0 then 0 else old(site.indexPage.pagenumber) - Pagination.PageIncrement
  {
    site.indexPage.PreviousPage();
    r := Redirect("/");
  }

  /** `GET /nextpage`. */
  method NextPage(site: Site.State) returns (r: Response)
    requires site.Valid()
    modifies site.indexPage
    ensures site.Valid()
    ensures unchanged(site.adminPage)
    ensures r == Redirect("/")
    ensures site.indexPage.pageamount == old(site.indexPage.pageamount)
    ensures site.indexPage.pagenumber == Pagination.NextOffset(old(site.indexPage.pagenumber), old(site.indexPage.pageamount))
    ensures old(site.indexPage.OnListedPage()) ==> site.indexPage.OnListedPage()
  {
    site.indexPage.NextPage();
    r := Redirect("/");
  }

  /** `validationCheck` before a registration: reading the id of a missing
      event throws; otherwise `next()` exactly when the field validators
      found nothing. */
  function ValidationCheck(events: seq<Event>, slug: string, fieldErrors: seq<FieldError>, qEvent: QueryStatus): (r: Response)
    ensures r.Raised? <==> !(qEvent == Ran && Rows.ExactlyOne(events, HasSlug(slug)))
    ensures r.Next? <==> qEvent == Ran && Rows.ExactlyOne(events, HasSlug(slug)) && fieldErrors == []
    ensures r.Rerender? ==> r.errors == fieldErrors && fieldErrors != []
    ensures qEvent == Ran && Rows.ExactlyOne(events, HasSlug(slug)) && fieldErrors != [] ==> r == Rerender(fieldErrors)
  {
    var event := ListEvent(events, slug, qEvent);
    if event.None? then Raised
    else if fieldErrors != [] then Rerender(fieldErrors)
    else Next
  }

  /** `registerRoute` (POST /:slug): a (name, event) pair that is not yet
      registered is inserted; one that is registered is deleted instead.
      Both successful branches redirect to the event's page. */
  method RegisterRoute(db: Database, slug: string, name: string, comment: string,
                       qEvent: QueryStatus, qExists: QueryStatus, qInsert: QueryStatus, qDelete: QueryStatus)
    returns (r: Response)
    requires db.Valid()
    modifies db`registrations, db`nextRegistrationId
    ensures db.Valid()
    ensures old(OneRegistrationPerPair(db.registrations)) ==> OneRegistrationPerPair(db.registrations)
    ensures ListEvent(db.events, slug, qEvent).None? || qExists == Failed ==>
      r == Raised && db.registrations == old(db.registrations)
    ensures ListEvent(db.events, slug, qEvent).Some? && qExists == Ran ==>
      var e := ListEvent(db.events, slug, qEvent).value;
      if exists x :: x in old(db.registrations) && x.name == name && x.event == e.id then
        && r == Redirect("/" + e.slug)
        && db.registrations == (if qDelete == Ran then Rows.Reject(old(db.registrations), NameAndEvent(name, e.id))
                                else old(db.registrations))
        && (qDelete == Ran ==> Users.UserInEvent(db.registrations, name, e.id, Ran) == Done(false))
      else if qInsert == Ran then
        && r == Redirect("/" + e.slug)
        && db.registrations == old(db.registrations) + [Registration(old(db.nextRegistrationId), name, comment, e.id)]
      else
        r == ErrorView && db.registrations == old(db.registrations)
  {
    var event := ListEvent(db.events, slug, qEvent);
    if event.None? {
      return Raised;
    }
    var e := event.value;
    var userExists := Users.UserInEvent(db.registrations, name, e.id, qExists);
    if userExists.Threw? {
      return Raised;
    }
    if !userExists.value {
      ghost var before := db.registrations;
      var registered := db.Register(name, comment, e.id, qInsert);
      if registered.Some? {
        assert OneRegistrationPerPair(before) ==> OneRegistrationPerPair(db.registrations) by {
          forall x | x in before
            ensures RegistrationPair(x) != RegistrationPair(registered.value)
          {
          }
        }
        return Redirect("/" + e.slug);
      }
    } else {
      if OneRegistrationPerPair(db.registrations) {
        Rows.RejectKeepsUniqueKeys(db.registrations, NameAndEvent(name, e.id), RegistrationPair);
      }
      db.RemoveRegistration(name, e.id, qDelete);
      return Redirect("/" + e.slug);
    }
    r := ErrorView;
  }

  /** Submitting the same (name, event) pair twice, every query running,
      leaves the registrations as they were: the second submission withdraws
      the first, and the event's list of registrations no longer has the name. */
  method ResubmissionWithdraws(db: Database, slug: string, name: string, comment: string, comment2: string)
    returns (first: Response, second: Response)
    requires db.Valid()
    requires ListEvent(db.events, slug, Ran).Some?
    requires forall x :: x in db.registrations ==> !(x.name == name && x.event == ListEvent(db.events, slug, Ran).value.id)
    modifies db`registrations, db`nextRegistrationId
    ensures db.Valid()
    ensures first == second == Redirect("/" + ListEvent(db.events, slug, Ran).value.slug)
    ensures forall x :: x in db.registrations <==> x in old(db.registrations)
    ensures forall x :: x in ListRegistered(db.registrations, ListEvent(db.events, slug, Ran).value.id, Ran).value ==> x.name != name
  {
    var e := ListEvent(db.events, slug, Ran).value;
    ghost var before := db.registrations;
    first := RegisterRoute(db, slug, name, comment, Ran, Ran, Ran, Ran);
    ghost var added := Registration(old(db.nextRegistrationId), name, comment, e.id);
    assert db.registrations == before + [added];
    assert added in db.registrations;
    second := RegisterRoute(db, slug, name, comment2, Ran, Ran, Ran, Ran);
    assert db.registrations == Rows.Reject(before + [added], NameAndEvent(name, e.id));
  }
}
