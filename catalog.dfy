/** Products and the list operations the store runs over its catalog and over a
    shopping cart: lookup by identifier, filtering, categories, single edits and
    single removals. */
module Catalog {
  import opened Wrappers

  /** A product record. The price is an integer number of cents; the store
      itself keeps it as a floating-point amount. */
  datatype Product = Product(id: int, name: string, price: int, category: string)

  /** Some product in `s` has identifier `id`. */
  predicate HasId(s: seq<Product>, id: int) {
    exists i :: 0 <= i < |s| && s[i].id == id
  }

  /** No two products in `s` share an identifier. */
  predicate DistinctIds(s: seq<Product>) {
    forall i, j :: 0 <= i < j < |s| ==> s[i].id != s[j].id
  }

  /** The five products a new store starts with, numbered 1 to 5. */
  function InitialCatalog(): (r: seq<Product>)
    ensures |r| == 5 && DistinctIds(r)
    ensures forall i :: 0 <= i < |r| ==> r[i].id == i + 1
  {
    [ Product(1, "Caneta Azul", 250, "Escrita"),
      Product(2, "Caderno 100 folhas", 1000, "Cadernos"),
      Product(3, "Mochila Escolar", 12000, "Mochilas"),
      Product(4, "Lápis de Cor", 1500, "Arte"),
      Product(5, "Borracha", 150, "Escrita") ]
  }

  // ---------------------------------------------------------------------------
  // Lookup by identifier

  /** The position of the first product with identifier `id`, or None. */
  function FirstIndexOf(s: seq<Product>, id: int): (r: Option<nat>)
    ensures r.None? <==> !HasId(s, id)
    ensures r.Some? ==> r.value < |s| && s[r.value].id == id
    ensures r.Some? ==> forall k :: 0 <= k < r.value ==> s[k].id != id
  {
    if s == [] then None
    else if s[0].id == id then Some(0)
    else match FirstIndexOf(s[1..], id)
      case None => None
      case Some(k) => Some(k + 1)
  }

  /** The front-to-back scan that stops at the first product with identifier `id`. */
  method FindFirstById(s: seq<Product>, id: int) returns (r: Option<nat>)
    ensures r == FirstIndexOf(s, id)
  {
    var i := 0;
    while i < |s|
      invariant 0 <= i <= |s|
      invariant forall k :: 0 <= k < i ==> s[k].id != id
    {
      if s[i].id == id {
        return Some(i);
      }
      i := i + 1;
    }
    return None;
  }

  /** Appending a product whose identifier is new keeps identifiers distinct. */
  lemma AppendKeepsDistinct(s: seq<Product>, p: Product)
    requires DistinctIds(s) && !HasId(s, p.id)
    ensures DistinctIds(s + [p])
  {
  }

  // ---------------------------------------------------------------------------
  // Filtering, as written with list comprehensions

  /** The elements of `s` that satisfy `keep`, in their original order. */
  function Filter<T(!new)>(s: seq<T>, keep: T -> bool): (r: seq<T>)
    ensures |r| <= |s|
    ensures forall x :: x in r <==> x in s && keep(x)
  {
    if s == [] then []
    else if keep(s[0]) then [s[0]] + Filter(s[1..], keep)
    else Filter(s[1..], keep)
  }

  /** Filtering distributes over concatenation: the kept elements stay in order. */
  lemma {:induction false} FilterAppend<T(!new)>(a: seq<T>, b: seq<T>, keep: T -> bool)
    ensures Filter(a + b, keep) == Filter(a, keep) + Filter(b, keep)
  {
    if a == [] {
      assert a + b == b;
    } else {
      assert (a + b)[0] == a[0];
      assert (a + b)[1..] == a[1..] + b;
      FilterAppend(a[1..], b, keep);
    }
  }

  /** Filtering leaves `s` as it is exactly when every element is kept. */
  lemma {:induction false} FilterUnchanged<T(!new)>(s: seq<T>, keep: T -> bool)
    ensures Filter(s, keep) == s <==> forall x :: x in s ==> keep(x)
  {
    if s != [] {
      FilterUnchanged(s[1..], keep);
      if forall x :: x in s ==> keep(x) {
        assert keep(s[0]);
        assert forall x :: x in s[1..] ==> x in s;
      }
    }
  }

  /** Filtering keeps identifiers distinct. */
  lemma {:induction false} FilterKeepsDistinct(s: seq<Product>, keep: Product -> bool)
    requires DistinctIds(s)
    ensures DistinctIds(Filter(s, keep))
  {
    if s != [] {
      var rest := Filter(s[1..], keep);
      FilterKeepsDistinct(s[1..], keep);
      if keep(s[0]) {
        forall j | 0 <= j < |rest|
          ensures rest[j].id != s[0].id
        {
          assert rest[j] in s[1..];
        }
        assert forall i, j :: 0 <= i < j < |[s[0]] + rest| ==>
          ([s[0]] + rest)[i].id != ([s[0]] + rest)[j].id by {
          forall i, j | 0 <= i < j < |[s[0]] + rest|
            ensures ([s[0]] + rest)[i].id != ([s[0]] + rest)[j].id
          {
            if i > 0 {
              assert ([s[0]] + rest)[i] == rest[i - 1];
            }
            assert ([s[0]] + rest)[j] == rest[j - 1];
          }
        }
      }
    }
  }

  // ---------------------------------------------------------------------------
  // Removal of every product with an identifier

  /** The catalog without any product whose identifier is `id`. */
  function RemoveById(s: seq<Product>, id: int): (r: seq<Product>)
    ensures forall p :: p in r <==> p in s && p.id != id
  {
    Filter(s, (p: Product) => p.id != id)
  }

  /** Removal keeps the remaining products in their original relative order. */
  lemma RemoveByIdKeepsOrder(a: seq<Product>, b: seq<Product>, id: int)
    ensures RemoveById(a + b, id) == RemoveById(a, id) + RemoveById(b, id)
  {
    FilterAppend(a, b, (p: Product) => p.id != id);
  }

  /** Removal changes nothing exactly when no product has the identifier. */
  lemma RemoveByIdAbsent(s: seq<Product>, id: int)
    ensures RemoveById(s, id) == s <==> !HasId(s, id)
  {
    FilterUnchanged(s, (p: Product) => p.id != id);
    if HasId(s, id) {
      var i :| 0 <= i < |s| && s[i].id == id;
      assert s[i] in s;
    }
  }

  /** Removing twice gives the same catalog as removing once. */
  lemma RemoveByIdIdempotent(s: seq<Product>, id: int)
    ensures RemoveById(RemoveById(s, id), id) == RemoveById(s, id)
  {
    RemoveByIdAbsent(RemoveById(s, id), id);
  }

  /** Removal keeps identifiers distinct. */
  lemma RemoveByIdKeepsDistinct(s: seq<Product>, id: int)
    requires DistinctIds(s)
    ensures DistinctIds(RemoveById(s, id))
  {
    FilterKeepsDistinct(s, (p: Product) => p.id != id);
  }

  // ---------------------------------------------------------------------------
  // Categories and recommendations

  /** The set of categories of the products in `s`. */
  function Categories(s: seq<Product>): (r: set<string>)
    ensures forall c :: c in r <==> exists i :: 0 <= i < |s| && s[i].category == c
    ensures |r| <= |s|
  {
    if s == [] then {}
    else
      var rest := Categories(s[1..]);
      assert forall i :: 1 <= i < |s| ==> s[i] == s[1..][i - 1];
      {s[0].category} + rest
  }

  /** The products of `s` in category `c`, in catalog order. */
  function Recommend(s: seq<Product>, c: string): (r: seq<Product>)
    ensures forall p :: p in r <==> p in s && p.category == c
  {
    Filter(s, (p: Product) => p.category == c)
  }

  /** Recommendations keep catalog order. */
  lemma RecommendKeepsOrder(a: seq<Product>, b: seq<Product>, c: string)
    ensures Recommend(a + b, c) == Recommend(a, c) + Recommend(b, c)
  {
    FilterAppend(a, b, (p: Product) => p.category == c);
  }

  /** A category is listed exactly when it has some recommendation. */
  lemma CategoryIffRecommended(s: seq<Product>, c: string)
    ensures c in Categories(s) <==> Recommend(s, c) != []
  {
  }

  // ---------------------------------------------------------------------------
  // Editing one product

  /** The new value is applied only when it is truthy: a non-empty string. */
  predicate NonEmpty(s: Option<string>) {
    s.Some? && s.value != ""
  }

  /** The new price is applied only when it is truthy: non-zero. */
  predicate NonZero(x: Option<int>) {
    x.Some? && x.value != 0
  }

  /** `p` with each truthy new value in place of the old one; the identifier never changes. */
  function Applied(p: Product, name: Option<string>, price: Option<int>, category: Option<string>): (r: Product)
    ensures r.id == p.id
    ensures NonEmpty(name) ==> r.name == name.value
    ensures !NonEmpty(name) ==> r.name == p.name
    ensures NonZero(price) ==> r.price == price.value
    ensures !NonZero(price) ==> r.price == p.price
    ensures NonEmpty(category) ==> r.category == category.value
    ensures !NonEmpty(category) ==> r.category == p.category
  {
    Product(p.id,
            if NonEmpty(name) then name.value else p.name,
            if NonZero(price) then price.value else p.price,
            if NonEmpty(category) then category.value else p.category)
  }

  /** An edit leaves the product as it was exactly when each truthy new value
      equals the old one; in particular an edit whose values are all falsy. */
  lemma AppliedIsIdentityIff(p: Product, name: Option<string>, price: Option<int>, category: Option<string>)
    ensures Applied(p, name, price, category) == p <==>
      && (!NonEmpty(name) || name.value == p.name)
      && (!NonZero(price) || price.value == p.price)
      && (!NonEmpty(category) || category.value == p.category)
  {
  }

  /** Replacing one product by one with the same identifier keeps identifiers distinct. */
  lemma SameIdKeepsDistinct(s: seq<Product>, k: nat, p: Product)
    requires DistinctIds(s) && k < |s| && p.id == s[k].id
    ensures DistinctIds(s[k := p])
  {
  }

  // ---------------------------------------------------------------------------
  // Removing one product from a cart

  /** `s` without its first product whose identifier is `id`, as a list's
      remove-first-occurrence does; `s` itself when there is none. */
  function RemoveFirstById(s: seq<Product>, id: int): (r: seq<Product>)
    ensures HasId(s, id) ==> |r| == |s| - 1
    ensures !HasId(s, id) ==> r == s
    ensures multiset(r) <= multiset(s)
  {
    if s == [] then []
    else
      assert s == [s[0]] + s[1..];
      if s[0].id == id then s[1..]
      else [s[0]] + RemoveFirstById(s[1..], id)
  }

  /** The product removed from a cart is the first one with the identifier. */
  lemma {:induction false} RemoveFirstByIdAt(s: seq<Product>, id: int)
    requires HasId(s, id)
    ensures var k := FirstIndexOf(s, id).value;
            RemoveFirstById(s, id) == s[..k] + s[k + 1..]
  {
    if s[0].id != id {
      assert HasId(s[1..], id) by {
        var i :| 0 <= i < |s| && s[i].id == id;
        assert s[1..][i - 1] == s[i];
      }
      RemoveFirstByIdAt(s[1..], id);
      var k := FirstIndexOf(s[1..], id).value;
      assert FirstIndexOf(s, id).value == k + 1;
      assert s[..k + 1] == [s[0]] + s[1..][..k];
      assert s[k + 2..] == s[1..][k + 1..];
    }
  }
}
