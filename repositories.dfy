/** The JPA repositories the services share, gathered into one mutable store,
    and the derived queries `existsByUsername` and `findByUsername`. */
module Repositories {
  import opened Domain

  /** Some stored user has this username. */
  predicate UsernameExists(users: seq<User>, name: string)
  {
    exists i | 0 <= i < |users| :: users[i].username == name
  }

  /** No two stored users share a username. */
  ghost predicate UniqueUsernames(users: seq<User>)
  {
    forall i, j | 0 <= i < j < |users| :: users[i].username != users[j].username
  }

  /** findByUsername: the first stored user with this name, if any. */
  function FindUser(users: seq<User>, name: string): (r: Option<User>)
    ensures r.Some? <==> UsernameExists(users, name)
    ensures r.Some? ==> r.value.username == name && r.value in users
  {
    if users == [] then None
    else if users[0].username == name then Some(users[0])
    else
      var rest := FindUser(users[1..], name);
      assert rest.Some? ==> users[1..][0] == users[1];
      assert forall i | 0 < i < |users| :: users[i] == users[1..][i - 1];
      rest
  }

  /** In a table with unique usernames, the user found by name is the only one
      holding it. */
  lemma {:induction false} FindUserUnique(users: seq<User>, i: nat)
    requires UniqueUsernames(users)
    requires i < |users|
    ensures FindUser(users, users[i].username) == Some(users[i])
  {
    if i > 0 {
      assert users[0].username != users[i].username;
      assert users[1..][i - 1] == users[i];
      FindUserUnique(users[1..], i - 1);
    }
  }

  /** Appending a user whose name is new keeps usernames unique, and the new
      user is then the one found by that name. */
  lemma {:induction false} AppendedUserIsFound(users: seq<User>, u: User)
    requires UniqueUsernames(users)
    requires !UsernameExists(users, u.username)
    ensures UniqueUsernames(users + [u])
    ensures FindUser(users + [u], u.username) == Some(u)
  {
    var users' := users + [u];
    forall i, j | 0 <= i < j < |users'|
      ensures users'[i].username != users'[j].username
    {
      if j == |users| {
        assert users'[i] == users[i];
      }
    }
    FindUserUnique(users', |users|);
  }

  /** Products are stored under their own id, below the identity counter,
      with a positive price, a stock of at least zero and a category that
      exists. */
  ghost predicate ValidProducts(products: map<Id, Product>, categories: map<Id, Category>, nextProductId: Id)
  {
    forall id | id in products ::
      && products[id].id == id
      && id < nextProductId
      && products[id].price > 0
      && products[id].stockQuantity >= 0
      && (products[id].categoryId.Some? ==> products[id].categoryId.value in categories)
  }

  /** Every stored sale is consistent. */
  ghost predicate ValidSales(sales: seq<Sale>)
  {
    forall i | 0 <= i < |sales| :: WellFormedSale(sales[i])
  }

  /** All tables of the backend. */
  class Database {
    var products: map<Id, Product>
    var categories: map<Id, Category>
    var users: seq<User>
    var sales: seq<Sale>
    /** The next identity value the product table hands out. */
    var nextProductId: Id

    /** Consistency of the tables: see ValidProducts, UniqueUsernames and
        ValidSales. */
    ghost predicate Valid()
      reads this
    {
      && ValidProducts(products, categories, nextProductId)
      && UniqueUsernames(users)
      && ValidSales(sales)
    }

    /** An empty database with the given categories. */
    constructor (categories: map<Id, Category>)
      ensures Valid()
      ensures this.categories == categories
      ensures products == map[] && users == [] && sales == [] && nextProductId == 1
    {
      this.categories := categories;
      products := map[];
      users := [];
      sales := [];
      nextProductId := 1;
    }
  }
}
