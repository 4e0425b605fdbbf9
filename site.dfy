/** The process-wide state the route modules share: one database and the
    two `page` records, exported by src/routes/admin-routes.js and by
    src/routes/index-routes.js respectively. */
module Site {
  import Db
  import Pagination

  class State {
    const db: Db.Database
    const adminPage: Pagination.Page
    const indexPage: Pagination.Page

    /** The two `page` records are distinct objects. */
    ghost predicate Valid()
      reads this, db, adminPage, indexPage
    {
      adminPage != indexPage && db.Valid() && adminPage.Valid() && indexPage.Valid()
    }

    constructor ()
      ensures Valid()
      ensures fresh(db) && fresh(adminPage) && fresh(indexPage)
      ensures adminPage.pagenumber == 0 && adminPage.pageamount == 0
      ensures indexPage.pagenumber == 0 && indexPage.pageamount == 0
      ensures db.events == [] && db.registrations == [] && db.users == []
    {
      db := new Db.Database();
      adminPage := new Pagination.Page();
      indexPage := new Pagination.Page();
    }
  }
}
