/** The action results the two controllers return, after the ASP.NET Core
    helper that builds each (Ok, BadRequest, Unauthorized, NotFound,
    NoContent, CreatedAtAction), and the status code each one carries. */
module ActionResults {
  import opened Entities
  import opened Identity

  /** The object a result carries, if any. */
  datatype Body =
    | NoBody
    | MessageBody(message: string)             // new { message }
    | UserIdBody(userId: string)               // new { userId }
    | TokenBody(token: JwtToken)               // new { token }
    | ProductBody(product: ProductDto)
    | ProductsBody(products: seq<ProductDto>)

  datatype ActionResult =
    | Ok(body: Body)
    | BadRequest(body: Body)
    | Unauthorized(body: Body)
    | NotFound
    | NoContent
    | CreatedAtAction(actionName: string, id: int)

  function StatusCode(r: ActionResult): (code: int)
    ensures 200 <= code < 300 <==> r.Ok? || r.NoContent? || r.CreatedAtAction?
    ensures code == 200 <==> r.Ok?
    ensures code == 201 <==> r.CreatedAtAction?
    ensures code == 204 <==> r.NoContent?
    ensures code == 400 <==> r.BadRequest?
    ensures code == 401 <==> r.Unauthorized?
    ensures code == 404 <==> r.NotFound?
  {
    match r
    case Ok(_) => 200
    case CreatedAtAction(_, _) => 201
    case NoContent => 204
    case BadRequest(_) => 400
    case Unauthorized(_) => 401
    case NotFound => 404
  }
}
