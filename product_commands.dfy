/** The two product commands: update a product's editable fields, and
    delete a product. Each handler looks the product up by Id, answers false
    when there is none, and otherwise changes that one row and saves. */
module ProductCommands {
  import opened Common
  import opened Entities
  import opened Persistence

  /** UpdateProductCommand: the target Id and the new field values. */
  datatype UpdateProductCommand = UpdateProductCommand(id: int, name: string, description: string, price: real)

  /** DeleteProductCommand: the Id of the product to remove. */
  datatype DeleteProductCommand = DeleteProductCommand(id: int)

  /** UpdateProductCommandHandler.Handle as a step on the Products table:
      whether a product was found, and the new table. The handler checks
      nothing about the command's values: it writes them as given. */
  function ProductUpdate(products: map<int, Product>, request: UpdateProductCommand, now: Time): (r: (bool, map<int, Product>))
    ensures r.0 <==> request.id in products
    ensures !r.0 ==> r.1 == products
    ensures r.1.Keys == products.Keys
    ensures forall k :: k in products && k != request.id ==> r.1[k] == products[k]
    ensures r.0 ==>
      && r.1[request.id].name == request.name
      && r.1[request.id].description == request.description
      && r.1[request.id].price == request.price
      && r.1[request.id].updatedAt == Some(now)
      && r.1[request.id].id == products[request.id].id
      && r.1[request.id].createdAt == products[request.id].createdAt
    ensures KeyedById(products) ==> KeyedById(r.1)
  {
    if request.id !in products then
      (false, products)
    else
      var entity := products[request.id];
      var updated := entity.(name := request.name, description := request.description,
                             price := request.price, updatedAt := Some(now));
      (true, products[request.id := updated])
  }

  /** DeleteProductCommandHandler.Handle as a step on the Products table:
      whether a product was found, and the new table. */
  function ProductDeletion(products: map<int, Product>, request: DeleteProductCommand): (r: (bool, map<int, Product>))
    ensures r.0 <==> request.id in products
    ensures !r.0 ==> r.1 == products
    ensures r.1.Keys == products.Keys - {request.id}
    ensures forall k :: k in r.1 ==> r.1[k] == products[k]
    ensures r.0 ==> |r.1| == |products| - 1
    ensures KeyedById(products) ==> KeyedById(r.1)
  {
    if request.id !in products then
      (false, products)
    else
      (true, products - {request.id})
  }

  /** Sending the same update twice finds the product both times and leaves
      Name, Description and Price as the first left them; only UpdatedAt
      moves to the second time. At the same time the second is a no-op. */
  lemma UpdateTwice(products: map<int, Product>, request: UpdateProductCommand, first: Time, second: Time)
    ensures var once := ProductUpdate(products, request, first);
      var twice := ProductUpdate(once.1, request, second);
      && twice.0 == once.0
      && (once.0 ==> twice.1 == once.1[request.id := once.1[request.id].(updatedAt := Some(second))])
      && (first == second ==> twice == once)
  {
    var once := ProductUpdate(products, request, first);
    var twice := ProductUpdate(once.1, request, second);
    if once.0 {
      var expected := once.1[request.id := once.1[request.id].(updatedAt := Some(second))];
      assert twice.1[request.id] == expected[request.id];
      assert twice.1 == expected;
      if first == second {
        assert once.1[request.id].(updatedAt := Some(second)) == once.1[request.id];
        assert expected == once.1;
      }
    }
  }

  /** Deleting the same Id a second time finds nothing and changes nothing. */
  lemma DeleteTwice(products: map<int, Product>, request: DeleteProductCommand)
    ensures var once := ProductDeletion(products, request);
      ProductDeletion(once.1, request) == (false, once.1)
  {
  }

  /** UpdateProductCommandHandler: writes the command's values into the
      product it finds. */
  class UpdateProductCommandHandler {
    const context: ApplicationDbContext

    constructor (context: ApplicationDbContext)
      ensures this.context == context
    {
      this.context := context;
    }

    method Handle(request: UpdateProductCommand, now: Time) returns (found: bool)
      requires context.Valid()
      modifies context
      ensures context.Valid()
      ensures (found, context.products) == ProductUpdate(old(context.products), request, now)
      ensures context.users == old(context.users) && context.nextUserId == old(context.nextUserId)
    {
      if request.id !in context.products {
        return false;
      }
      var entity := context.products[request.id];
      entity := entity.(name := request.name);
      entity := entity.(description := request.description);
      entity := entity.(price := request.price);
      entity := entity.(updatedAt := Some(now));
      context.products := context.products[request.id := entity];
      return true;
    }
  }

  /** DeleteProductCommandHandler: removes the product it finds. */
  class DeleteProductCommandHandler {
    const context: ApplicationDbContext

    constructor (context: ApplicationDbContext)
      ensures this.context == context
    {
      this.context := context;
    }

    method Handle(request: DeleteProductCommand) returns (found: bool)
      requires context.Valid()
      modifies context
      ensures context.Valid()
      ensures (found, context.products) == ProductDeletion(old(context.products), request)
      ensures context.users == old(context.users) && context.nextUserId == old(context.nextUserId)
    {
      if request.id !in context.products {
        return false;
      }
      context.products := context.products - {request.id};
      return true;
    }
  }
}
