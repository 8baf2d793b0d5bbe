/** The stationery store and its users: the catalog and order queue the store
    keeps, the cart and action log each user keeps, and the cart and checkout
    steps of the customer menu with the console left out. */
module Shop {
  import opened Wrappers
  import opened Catalog
  import opened History

  /** A session of one customer or employee. */
  class User {
    const name: string
    const kind: string
    var cart: seq<Product>
    var actions: seq<string>

    /** The action log never holds more than five entries. */
    ghost predicate Valid()
      reads this
    {
      |actions| <= Capacity
    }

    constructor (name: string, kind: string)
      ensures Valid()
      ensures this.name == name && this.kind == kind
      ensures cart == [] && actions == []
    {
      this.name := name;
      this.kind := kind;
      cart := [];
      actions := [];
    }

    /** Writes `action`, stamped with `timestamp`, at the end of the log,
        first dropping the oldest entry when the log is full. */
    method RecordAction(action: string, timestamp: string)
      modifies this
      ensures actions == Recorded(old(actions), Entry(timestamp, action))
      ensures cart == old(cart)
      ensures old(Valid()) ==> Valid()
    {
      if |actions| >= Capacity {
        actions := actions[1..];
      }
      actions := actions + [Entry(timestamp, action)];
    }

    /** The log, newest entry first; the log itself is left as it is. */
    function ViewActions(): (r: seq<string>)
      reads this
      ensures |r| == |actions|
      ensures forall i :: 0 <= i < |r| ==> r[i] == actions[|actions| - 1 - i]
    {
      Reversed(actions)
    }
  }

  /** The store: its catalog and the queue of placed orders, oldest first. */
  class Store {
    var products: seq<Product>
    var orders: seq<seq<Product>>

    /** No two catalog products share an identifier. */
    ghost predicate Valid()
      reads this
    {
      DistinctIds(products)
    }

    constructor ()
      ensures Valid()
      ensures products == InitialCatalog() && orders == []
    {
      products := InitialCatalog();
      orders := [];
    }

    /** Appends `p` unless some product already has its identifier. */
    method AddProduct(p: Product) returns (added: bool)
      modifies this
      ensures added == !HasId(old(products), p.id)
      ensures products == if added then old(products) + [p] else old(products)
      ensures orders == old(orders)
      ensures old(Valid()) ==> Valid()
    {
      var found := FindFirstById(products, p.id);
      added := found.None?;
      if added {
        if DistinctIds(products) {
          AppendKeepsDistinct(products, p);
        }
        products := products + [p];
      }
    }

    /** Applies the truthy new values to the first product with identifier
        `id` and returns it; returns None and changes nothing when there is none. */
    method EditProduct(id: int, name: Option<string>, price: Option<int>, category: Option<string>)
      returns (r: Option<Product>)
      modifies this
      ensures match FirstIndexOf(old(products), id)
        case None => r == None && products == old(products)
        case Some(k) =>
          && products == old(products)[k := Applied(old(products)[k], name, price, category)]
          && r == Some(products[k])
      ensures orders == old(orders)
      ensures old(Valid()) ==> Valid()
    {
      var i := 0;
      while i < |products|
        invariant 0 <= i <= |products|
        invariant products == old(products)
        invariant forall k :: 0 <= k < i ==> products[k].id != id
      {
        if products[i].id == id {
          var edited := Applied(products[i], name, price, category);
          if DistinctIds(products) {
            SameIdKeepsDistinct(products, i, edited);
          }
          products := products[i := edited];
          return Some(edited);
        }
        i := i + 1;
      }
      return None;
    }

    /** Drops every product with identifier `id`. */
    method RemoveProduct(id: int)
      modifies this
      ensures products == RemoveById(old(products), id)
      ensures orders == old(orders)
      ensures old(Valid()) ==> Valid()
    {
      if DistinctIds(products) {
        RemoveByIdKeepsDistinct(products, id);
      }
      products := RemoveById(products, id);
    }

    /** The categories present in the catalog. */
    function ListCategories(): (r: set<string>)
      reads this
      ensures forall c :: c in r <==> exists i :: 0 <= i < |products| && products[i].category == c
    {
      Categories(products)
    }

    /** The catalog products of category `c`, in catalog order. */
    function Recommendations(c: string): (r: seq<Product>)
      reads this
      ensures forall p :: p in r <==> p in products && p.category == c
    {
      Recommend(products, c)
    }
  }

  /** Customer option 2: puts the first catalog product with identifier `id`
      into the cart and logs it; reports None when there is no such product. */
  method AddToCart(store: Store, user: User, id: int, timestamp: string) returns (r: Option<Product>)
    modifies user
    ensures r == match FirstIndexOf(store.products, id)
      case None => None
      case Some(k) => Some(store.products[k])
    ensures r.Some? ==>
      && user.cart == old(user.cart) + [r.value]
      && user.actions == Recorded(old(user.actions), Entry(timestamp, "Adicionou " + r.value.name + " ao carrinho"))
    ensures r.None? ==> user.cart == old(user.cart) && user.actions == old(user.actions)
    ensures old(user.Valid()) ==> user.Valid()
  {
    var found := FindFirstById(store.products, id);
    match found {
      case None =>
        r := None;
      case Some(k) =>
        var p := store.products[k];
        user.cart := user.cart + [p];
        user.RecordAction("Adicionou " + p.name + " ao carrinho", timestamp);
        r := Some(p);
    }
  }

  /** Customer option 4: takes the first cart item with identifier `id` out of
      the cart and logs it; reports None and changes nothing when there is none. */
  method RemoveFromCart(user: User, id: int, timestamp: string) returns (r: Option<Product>)
    modifies user
    ensures r == match FirstIndexOf(old(user.cart), id)
      case None => None
      case Some(k) => Some(old(user.cart)[k])
    ensures user.cart == RemoveFirstById(old(user.cart), id)
    ensures r.Some? ==>
      user.actions == Recorded(old(user.actions), Entry(timestamp, "Removeu " + r.value.name + " do carrinho"))
    ensures r.None? ==> user.actions == old(user.actions)
    ensures old(user.Valid()) ==> user.Valid()
  {
    var found := FindFirstById(user.cart, id);
    match found {
      case None =>
        r := None;
      case Some(k) =>
        var p := user.cart[k];
        RemoveFirstByIdAt(user.cart, id);
        user.cart := user.cart[..k] + user.cart[k + 1..];
        user.RecordAction("Removeu " + p.name + " do carrinho", timestamp);
        r := Some(p);
    }
  }

  /** Customer option 7: a non-empty cart joins the end of the order queue as
      one order and the cart is emptied; an empty cart changes nothing. */
  method PlaceOrder(store: Store, user: User, timestamp: string) returns (placed: bool)
    modifies store, user
    ensures placed == (old(user.cart) != [])
    ensures placed ==>
      && store.orders == old(store.orders) + [old(user.cart)]
      && user.cart == []
      && user.actions == Recorded(old(user.actions), Entry(timestamp, "Realizou pedido"))
    ensures !placed ==>
      && store.orders == old(store.orders)
      && user.cart == old(user.cart)
      && user.actions == old(user.actions)
    ensures store.products == old(store.products)
    ensures old(user.Valid()) ==> user.Valid()
  {
    placed := user.cart != [];
    if placed {
      store.orders := store.orders + [user.cart];
      user.cart := [];
      user.RecordAction("Realizou pedido", timestamp);
    }
  }
}
