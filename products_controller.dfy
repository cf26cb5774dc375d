/** ProductsController: each action sends one request to its handler and
    turns the answer into an action result. */
module ProductsController {
  import opened Common
  import opened Entities
  import opened ActionResults
  import opened ExceptionHandling
  import Commands = ProductCommands
  import Queries = ProductQueries

  /** GetProducts: 200 with the handler's list: every product once, newest
      first. */
  function GetProducts(products: map<int, Product>): (r: ActionResult)
    ensures r.Ok? && r.body.ProductsBody?
    ensures r.body.products == Queries.GetProducts(products)
    ensures |r.body.products| == |products|
    ensures Queries.SortedByCreatedAtDescending(r.body.products)
  {
    Ok(ProductsBody(Queries.GetProducts(products)))
  }

  /** GetById: 200 with the product's DTO; a missing product is the
      handler's NotFoundException, which this action does not catch, so it
      never answers 404 itself. */
  function GetById(products: map<int, Product>, id: int): (r: Outcome<ActionResult>)
    ensures r.Threw? <==> id !in products
    ensures r.Threw? ==> r.exception == NotFoundException("Product", id)
    ensures r.Returned? ==> r.value == Ok(ProductBody(ToDto(products[id])))
    ensures r.Returned? ==> StatusCode(r.value) == 200
  {
    match Queries.GetProductById(products, id)
    case Threw(e) => Threw(e)
    case Returned(dto) => Returned(Ok(ProductBody(dto)))
  }

  /** Create: 201 whose location names the GetById action and the id the
      create handler returned (that handler is not part of this model). */
  function Create(productId: int): (r: ActionResult)
    ensures StatusCode(r) == 201
    ensures r.CreatedAtAction? && r.actionName == "GetById" && r.id == productId
  {
    CreatedAtAction("GetById", productId)
  }

  /** Update: 400 without calling the handler when the route id differs
      from the command's Id; otherwise 404 when the handler finds no
      product and 204 when it updated one. */
  function Update(products: map<int, Product>, id: int, command: Commands.UpdateProductCommand, now: Time)
    : (r: (ActionResult, map<int, Product>))
    ensures id != command.id ==> r == (BadRequest(NoBody), products)
    ensures id == command.id ==> (r.0 == NoContent <==> id in products)
    ensures id == command.id ==> (r.0 == NotFound <==> id !in products)
    ensures id == command.id ==> r.1 == Commands.ProductUpdate(products, command, now).1
  {
    if id != command.id then
      (BadRequest(NoBody), products)
    else
      var (found, updated) := Commands.ProductUpdate(products, command, now);
      if !found then (NotFound, updated) else (NoContent, updated)
  }

  /** Delete: 404 when the handler finds no product, 204 when it removed
      one. */
  function Delete(products: map<int, Product>, id: int): (r: (ActionResult, map<int, Product>))
    ensures r.0 == NoContent <==> id in products
    ensures r.0 == NotFound <==> id !in products
    ensures r.1 == Commands.ProductDeletion(products, Commands.DeleteProductCommand(id)).1
  {
    var (found, remaining) := Commands.ProductDeletion(products, Commands.DeleteProductCommand(id));
    if !found then (NotFound, remaining) else (NoContent, remaining)
  }

  /** After a successful Delete, GetById of the same id throws
      NotFoundException. */
  lemma DeleteThenGetById(products: map<int, Product>, id: int)
    requires Delete(products, id).0 == NoContent
    ensures GetById(Delete(products, id).1, id) == Threw(NotFoundException("Product", id))
  {
  }

  /** A missing product reaches the client through the exception middleware
      as 400 when NotFoundException derives from ApplicationException and as
      500 otherwise: never as 404. */
  lemma MissingProductStatus(products: map<int, Product>, id: int, notFound: NotFoundDeclaration)
    requires id !in products
    ensures var r := Invoke(GetById(products, id), notFound);
      && r.Written?
      && r.statusCode != 404
      && (r.statusCode == 400 <==> notFound.derivesFromApplicationException)
  {
  }
}
