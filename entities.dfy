/** The records the store holds and the shape products leave the service in. */
module Entities {
  import opened Common

  /** ApplicationUser: a row of the Users table. A fresh user has an empty
      Email, no roles and no LastLogin. */
  datatype User = User(
    id: int,
    username: string,
    email: string,
    passwordHash: string,
    roles: seq<string>,
    createdAt: Time,
    lastLogin: Option<Time>)

  /** Product: a row of the Products table; the decimal price is an exact
      rational number. */
  datatype Product = Product(
    id: int,
    name: string,
    description: string,
    price: real,
    createdAt: Time,
    updatedAt: Option<Time>)

  /** ProductDto: the fields of a product as the service returns them. */
  datatype ProductDto = ProductDto(
    id: int,
    name: string,
    description: string,
    price: real,
    createdAt: Time,
    updatedAt: Option<Time>)

  /** A user as CreateUserAsync builds it before saving: the given name and
      hash and creation time, every other property at its default. */
  function NewUser(id: int, username: string, passwordHash: string, now: Time): (u: User)
    ensures u.id == id && u.username == username && u.passwordHash == passwordHash && u.createdAt == now
    ensures u.email == "" && u.roles == [] && u.lastLogin == None
  {
    User(id, username, "", passwordHash, [], now, None)
  }

  /** The Product to ProductDto mapping: every field is copied. */
  function ToDto(p: Product): (d: ProductDto)
    ensures d.id == p.id && d.name == p.name && d.description == p.description
    ensures d.price == p.price && d.createdAt == p.createdAt && d.updatedAt == p.updatedAt
  {
    ProductDto(p.id, p.name, p.description, p.price, p.createdAt, p.updatedAt)
  }

  /** The mapping loses nothing: different products give different DTOs. */
  lemma ToDtoInjective(p: Product, q: Product)
    ensures ToDto(p) == ToDto(q) <==> p == q
  {
  }
}
