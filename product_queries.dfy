/** The two product queries: one product by Id, and every product newest
    first. Neither changes the store. */
module ProductQueries {
  import opened Common
  import opened Entities
  import opened Persistence

  /** GetProductByIdQueryHandler.Handle: NotFoundException("Product", id)
      when no product has the Id, otherwise that product as a DTO with every
      field copied. */
  function GetProductById(products: map<int, Product>, id: int): (r: Outcome<ProductDto>)
    ensures r.Threw? <==> id !in products
    ensures r.Threw? ==> r.exception == NotFoundException("Product", id)
    ensures r.Returned? ==> KeyedById(products) ==> r.value.id == id
    ensures r.Returned? ==>
      var p := products[id];
      r.value == ProductDto(p.id, p.name, p.description, p.price, p.createdAt, p.updatedAt)
  {
    if id !in products then Threw(NotFoundException("Product", id))
    else Returned(ToDto(products[id]))
  }

  /** Newest first: CreatedAt never increases along the list. */
  predicate SortedByCreatedAtDescending(s: seq<ProductDto>) {
    forall i, j :: 0 <= i < j < |s| ==> s[i].createdAt >= s[j].createdAt
  }

  /** The DTOs of the rows with the given keys, in the keys' order. */
  function Project(products: map<int, Product>, keys: seq<int>): (r: seq<ProductDto>)
    requires forall i :: 0 <= i < |keys| ==> keys[i] in products
    ensures |r| == |keys|
    ensures forall i :: 0 <= i < |keys| ==> r[i] == ToDto(products[keys[i]])
  {
    if keys == [] then [] else [ToDto(products[keys[0]])] + Project(products, keys[1..])
  }

  /** Every listed key's row appears in the projection, and nothing else. */
  lemma ProjectContents(products: map<int, Product>, keys: seq<int>)
    requires forall i :: 0 <= i < |keys| ==> keys[i] in products
    requires forall k :: k in products ==> k in keys
    ensures forall k :: k in products ==> ToDto(products[k]) in Project(products, keys)
    ensures forall d :: d in Project(products, keys) ==> exists k :: k in products && d == ToDto(products[k])
  {
    var r := Project(products, keys);
    forall k | k in products ensures ToDto(products[k]) in r {
      var i :| 0 <= i < |keys| && keys[i] == k;
      assert r[i] == ToDto(products[k]);
    }
    forall d | d in r ensures exists k :: k in products && d == ToDto(products[k]) {
      var i :| 0 <= i < |r| && r[i] == d;
      var k := keys[i];
      assert k in products && d == ToDto(products[k]);
    }
  }

  /** The table read in ascending key order and projected to DTOs. */
  function Projection(products: map<int, Product>): (r: seq<ProductDto>)
    ensures |r| == |products|
    ensures forall k :: k in products ==> ToDto(products[k]) in r
    ensures forall d :: d in r ==> exists k :: k in products && d == ToDto(products[k])
  {
    var keys := KeysInOrder(products.Keys);
    ProjectContents(products, keys);
    Project(products, keys)
  }

  /** Places `d` before the first element that is not newer than it. */
  function InsertByCreatedAt(d: ProductDto, s: seq<ProductDto>): (r: seq<ProductDto>)
    requires SortedByCreatedAtDescending(s)
    ensures SortedByCreatedAtDescending(r)
    ensures multiset(r) == multiset(s) + multiset{d}
    ensures |r| == |s| + 1
    ensures r[0] == d || (s != [] && r[0] == s[0])
  {
    if s == [] || s[0].createdAt <= d.createdAt then
      [d] + s
    else
      var rest := InsertByCreatedAt(d, s[1..]);
      assert s == [s[0]] + s[1..];
      [s[0]] + rest
  }

  /** `OrderByDescending(x => x.CreatedAt)`: a stable sort, newest first. */
  function OrderByCreatedAtDescending(s: seq<ProductDto>): (r: seq<ProductDto>)
    ensures SortedByCreatedAtDescending(r)
    ensures multiset(r) == multiset(s)
    ensures |r| == |s|
  {
    if s == [] then []
    else
      assert s == [s[0]] + s[1..];
      InsertByCreatedAt(s[0], OrderByCreatedAtDescending(s[1..]))
  }

  /** GetProductsQueryHandler.Handle: every product exactly once, as a DTO,
      newest first. An empty table gives the empty list. Products with equal
      CreatedAt keep the enumeration order, which the store does not fix. */
  function GetProducts(products: map<int, Product>): (r: seq<ProductDto>)
    ensures |r| == |products|
    ensures multiset(r) == multiset(Projection(products))
    ensures SortedByCreatedAtDescending(r)
    ensures forall k :: k in products ==> ToDto(products[k]) in r
    ensures forall d :: d in r ==> exists k :: k in products && d == ToDto(products[k])
    ensures products == map[] ==> r == []
  {
    var projected := Projection(products);
    var r := OrderByCreatedAtDescending(projected);
    assert forall d :: d in r <==> d in multiset(r);
    assert forall d :: d in projected <==> d in multiset(projected);
    r
  }
}
