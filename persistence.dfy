/** The application's store: the Products and Users tables keyed by Id, and
    the constraints ApplicationUserConfiguration declares on Users, which the
    store checks whenever it saves. */
module Persistence {
  import opened Common
  import opened Entities

  const UsernameMaxLength: int := 50
  const EmailMaxLength: int := 100

  /** ApplicationUserConfiguration.Configure: Username at most 50 characters,
      Email at most 100, no two rows with the same Username, no two rows with
      the same Email. (Required only excludes null, which no string here is.) */
  function SatisfiesUserConfiguration(users: map<int, User>): (ok: bool)
    ensures users == map[] ==> ok
    ensures ok ==> forall j, k :: j in users && k in users && users[j].username == users[k].username ==> j == k
    ensures ok ==> forall j, k :: j in users && k in users && users[j].email == users[k].email ==> j == k
  {
    && (forall k :: k in users ==> |users[k].username| <= UsernameMaxLength)
    && (forall k :: k in users ==> |users[k].email| <= EmailMaxLength)
    && (forall j, k :: j in users && k in users && j != k ==> users[j].username != users[k].username)
    && (forall j, k :: j in users && k in users && j != k ==> users[j].email != users[k].email)
  }

  /** Whether saving `u` as a new row under key `id` keeps the configuration:
      its own lengths fit, and no existing row shares its Username or Email. */
  predicate RowFits(users: map<int, User>, id: int, u: User) {
    && |u.username| <= UsernameMaxLength
    && |u.email| <= EmailMaxLength
    && (forall k :: k in users && k != id ==> users[k].username != u.username && users[k].email != u.email)
  }

  /** Adding one row to a table that keeps the configuration keeps it exactly
      when the row fits. */
  lemma InsertKeepsConfiguration(users: map<int, User>, id: int, u: User)
    requires SatisfiesUserConfiguration(users)
    requires id !in users
    ensures SatisfiesUserConfiguration(users[id := u]) <==> RowFits(users, id, u)
  {
    var t := users[id := u];
    if RowFits(users, id, u) {
      forall j, k | j in t && k in t && j != k
        ensures t[j].username != t[k].username && t[j].email != t[k].email
      {
        if j == id { assert t[k] == users[k]; }
        else if k == id { assert t[j] == users[j]; }
      }
    }
    if SatisfiesUserConfiguration(t) {
      forall k | k in users && k != id
        ensures users[k].username != u.username && users[k].email != u.email
      {
        assert t[k] == users[k] && t[id] == u;
      }
    }
  }

  /** Removing rows never breaks the configuration. */
  lemma RemoveKeepsConfiguration(users: map<int, User>, id: int)
    ensures SatisfiesUserConfiguration(users) ==> SatisfiesUserConfiguration(users - {id})
  {
    var t := users - {id};
    forall k | k in t ensures k in users && t[k] == users[k] { }
  }

  /** The products table is keyed by each product's own Id. */
  predicate KeyedById(products: map<int, Product>) {
    forall k :: k in products ==> products[k].id == k
  }

  /** The users table is keyed by each user's own Id, and every Id is one the
      identity counter has already handed out. */
  predicate UsersKeyed(users: map<int, User>, nextUserId: int) {
    && 1 <= nextUserId
    && forall k :: k in users ==> users[k].id == k && 1 <= k < nextUserId
  }

  lemma ElementExists(s: set<int>)
    requires s != {}
    ensures exists x :: x in s
  {
    if forall x :: x !in s { assert false; }
  }

  predicate IsLeast(m: int, s: set<int>) {
    m in s && forall x :: x in s ==> m <= x
  }

  lemma MinimumExists(s: set<int>)
    requires s != {}
    ensures exists m :: IsLeast(m, s)
  {
    ElementExists(s);
    var x :| x in s;
    var rest := s - {x};
    if rest == {} {
      assert s == {x};
      assert IsLeast(x, s);
    } else {
      MinimumExists(rest);
      var m :| IsLeast(m, rest);
      var least := if x < m then x else m;
      forall y | y in s ensures least <= y {
        if y != x { assert y in rest; }
      }
      assert IsLeast(least, s);
    }
  }

  /** The least key of a non-empty set of keys. */
  function Minimum(s: set<int>): (m: int)
    requires s != {}
    ensures m in s && forall x :: x in s ==> m <= x
  {
    MinimumExists(s);
    var m :| IsLeast(m, s);
    m
  }

  /** The keys of a table in ascending order: the order in which the model
      enumerates rows. */
  function KeysInOrder(s: set<int>): (r: seq<int>)
    ensures |r| == |s|
    ensures forall k :: k in r <==> k in s
    ensures forall i, j :: 0 <= i < j < |r| ==> r[i] < r[j]
    decreases |s|
  {
    if s == {} then []
    else
      var m := Minimum(s);
      var rest := KeysInOrder(s - {m});
      PrependMinimum(s, m, rest);
      [m] + rest
  }

  /** The least key followed by the other keys in order lists the whole set
      in order. */
  lemma PrependMinimum(s: set<int>, m: int, rest: seq<int>)
    requires m in s && forall x :: x in s ==> m <= x
    requires |rest| == |s - {m}|
    requires forall k :: k in rest <==> k in s - {m}
    requires forall i, j :: 0 <= i < j < |rest| ==> rest[i] < rest[j]
    ensures |[m] + rest| == |s|
    ensures forall k :: k in [m] + rest <==> k in s
    ensures forall i, j :: 0 <= i < j < |[m] + rest| ==> ([m] + rest)[i] < ([m] + rest)[j]
  {
    var r := [m] + rest;
    forall k | k in s ensures k in r {
      if k != m { assert k in s - {m}; assert k in rest; }
    }
    forall i, j | 0 <= i < j < |r| ensures r[i] < r[j] {
      if i == 0 {
        assert r[j] == rest[j - 1];
        assert rest[j - 1] in rest;
      } else {
        assert r[i] == rest[i - 1] && r[j] == rest[j - 1];
      }
    }
  }

  /** The application's DbContext: both tables and the Users identity
      counter. */
  class ApplicationDbContext {
    var products: map<int, Product>
    var users: map<int, User>
    var nextUserId: int

    ghost predicate Valid()
      reads this
    {
      && KeyedById(products)
      && UsersKeyed(users, nextUserId)
      && SatisfiesUserConfiguration(users)
    }

    constructor (products: map<int, Product>)
      requires KeyedById(products)
      ensures Valid()
      ensures this.products == products && users == map[] && nextUserId == 1
    {
      this.products := products;
      users := map[];
      nextUserId := 1;
    }
  }
}
