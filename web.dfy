/** What the route handlers decide, without the rendering: the framework's
    `next()`, a view, a redirect, a sent page, or an exception that escapes
    to the error wrapper `catchErrors`. */
module Web {
  import opened Wrappers
  import Db

  /** One entry of a validation error list: the field and the message.
      Errors of the field validators are taken as given. */
  datatype FieldError = FieldError(param: string, msg: string)

  datatype Response =
    | Next                                  // `next()`: go on to the next middleware
    | Rerender(errors: seq<FieldError>)     // render the form again with these errors
    | Listing(events: Option<seq<Db.Event>>) // render an event listing (`null` when the query failed)
    | Redirect(path: string)                // `res.redirect(path)`
    | ErrorView                             // `res.render('error')`
    | Sent(message: string)                 // `res.send` of a page showing the message
    | Raised                                // an exception escapes the handler
}
