# Stationery store: catalog, cart, order queue and action log

This project models the sequential core of a console stationery-store simulator, in its list-based form (`main.py`). The parts are:

- **Product catalog.** The store (`LojaPapelaria`) keeps an ordered list of products. Each product (`Produto`) has an identifier, name, price and category.
  - A new store starts with five products, numbered 1 to 5.
  - Adding a product is refused when its identifier is already taken.
  - Editing changes only the first product with the given identifier. It applies only the new values that are truthy.
  - Removing a product drops every product with that identifier.
  - The store can list the set of categories.
  - It can recommend the products of one category, in catalog order.
- **Action log.** Each user (`Usuario`) keeps a list of at most five stamped actions. When the list is full, the oldest entry is dropped. The log is shown newest entry first.
- **Cart and order queue.** The customer menu adds the first catalog product with an identifier to the cart. It removes the first cart item with an identifier. It places an order by appending the whole cart, as one order, to the end of the store's order queue (`fila_compras`) and emptying the cart. Each successful step is logged in the action log.

Layout:

- `wrappers.dfy`: module `Wrappers`, the `Option` type for "a product or None".
- `catalog.dfy`: module `Catalog`, the product record `Catalog.Product` (`Produto`, `main.py:3-8`: identifier, name, price, category) and the list functions over catalog and cart, with their lemmas.
- `history.dfy`: module `History`, the capped log, its newest-first view and the lemma that the log is always the window of the newest five entries.
- `shop.dfy`: module `Shop`.
  - Classes `Store` and `User`, whose fields the methods update in place.
  - The three customer-menu steps as methods `AddToCart`, `RemoveFromCart` and `PlaceOrder`.

Both classes have a `Valid()` invariant. For `Store`, identifiers are pairwise distinct. For `User`, the log holds at most five entries. Every method preserves it (`old(Valid()) ==> Valid()`). No method requires it, because the source code does not.

Modelling choices:

- **Price.** It is an integer number of cents. The source uses a float, whose only behaviour used here is truthiness: 0 is falsy.
- **Timestamp.** It is a string parameter. The source reads the clock and formats it.
- **Text fields.** Names and categories are `string`s. An empty string is falsy.
- **Edit arguments.** The optional arguments of `editar_produto` are `Option` values. A value is applied only when it is `Some` and truthy.

## Model

| member | source | states |
|---|---|---|
| Catalog.InitialCatalog | main.py:33-39 | the starting catalog has five products with identifiers 1..5 in order, so identifiers are distinct |
| Catalog.FirstIndexOf | main.py:54-55 | the first position whose product has the identifier: None exactly when no product has it; otherwise that product has the identifier and none before it does |
| Catalog.FindFirstById | main.py:96 | the front-to-back scan returns exactly the first matching position, or None when there is none |
| Catalog.AppendKeepsDistinct | main.py:46-51 | appending a product whose identifier is not yet present keeps identifiers pairwise distinct |
| Shop.Store.AddProduct | main.py:46-51 | refuses (catalog unchanged) exactly when the identifier is present; otherwise appends the product at the end; keeps identifiers distinct; order queue unchanged |
| Catalog.Applied | main.py:56-61 | the edited product keeps its identifier; name, price and category each equal the new value when it is truthy (non-empty text, non-zero price) and keep the old value otherwise |
| Catalog.AppliedIsIdentityIff | main.py:56-61 | an edit leaves the product unchanged exactly when every truthy new value equals the old one; so an edit with only falsy values is a no-op |
| Catalog.SameIdKeepsDistinct | main.py:54-62 | replacing one product by one with the same identifier keeps identifiers distinct |
| Shop.Store.EditProduct | main.py:53-63 | absent identifier: returns None and changes nothing; present: only the first match is replaced by its edited version, which is returned; every other product and the order queue unchanged; distinct identifiers kept |
| Catalog.Filter | main.py:66 | the kept elements are exactly the elements of the input that satisfy the test, and there are no more of them than in the input |
| Catalog.FilterAppend | main.py:72 | filtering distributes over concatenation, so the kept elements stay in their original relative order |
| Catalog.FilterUnchanged | main.py:66 | filtering returns its input unchanged exactly when every element passes the test |
| Catalog.FilterKeepsDistinct | main.py:66 | filtering a catalog with distinct identifiers keeps them distinct |
| Catalog.RemoveById | main.py:65-66 | a product remains exactly when it was in the catalog and its identifier differs from the removed one |
| Catalog.RemoveByIdKeepsOrder | main.py:65-66 | removal distributes over concatenation: the products that remain keep their relative order |
| Catalog.RemoveByIdAbsent | main.py:65-66 | removal leaves the catalog unchanged exactly when no product has the identifier |
| Catalog.RemoveByIdIdempotent | main.py:65-66 | removing the same identifier twice gives the same catalog as removing it once |
| Catalog.RemoveByIdKeepsDistinct | main.py:65-66 | removal keeps identifiers distinct |
| Shop.Store.RemoveProduct | main.py:65-66 | the catalog becomes the catalog without that identifier; the order queue is unchanged; distinct identifiers kept |
| Catalog.Categories | main.py:68-69 | a category is in the set exactly when some product has it; the set is no larger than the catalog |
| Shop.Store.ListCategories | main.py:68-69 | a category is listed exactly when some catalog product has it; the catalog is only read |
| Catalog.Recommend | main.py:71-72 | a product is recommended exactly when it is in the catalog and has the category |
| Catalog.RecommendKeepsOrder | main.py:71-72 | recommendations distribute over concatenation, so they come in catalog order |
| Catalog.CategoryIffRecommended | main.py:68-72 | a category is listed exactly when it has at least one recommendation |
| Shop.Store.Recommendations | main.py:71-72 | a product is returned exactly when it is in the catalog and has the category; the catalog is only read |
| Catalog.RemoveFirstById | main.py:114-116 | when an item has the identifier, the cart loses exactly one element; otherwise it is unchanged; nothing is added |
| Catalog.RemoveFirstByIdAt | main.py:114-116 | the removed item is the first one with the identifier, and the items before and after it keep their order |
| History.Entry | main.py:25 | an entry is `[`, then the timestamp, then `] `, then the action text, and nothing else |
| History.Recorded | main.py:21-25 | the log stays within five entries; the new entry is last; below capacity the old entries are all kept in order; at capacity exactly the oldest is dropped and the rest keep their order |
| History.RecordedKeepsNewest | main.py:23-25 | recording one entry into the window of the newest five entries gives the window of the newest five entries after it |
| History.ReplayKeepsNewest | main.py:19-25 | starting from the empty log, any run of recordings leaves exactly the newest five entries (or all, if fewer), oldest first |
| History.Reversed | main.py:28 | the reversed log has the same length and position i holds the entry i places from the end |
| History.ReversedTwice | main.py:28 | reversing the shown log gives back the log |
| Shop.User.constructor | main.py:15-19 | a new user has an empty cart and an empty log |
| Shop.User.RecordAction | main.py:21-25 | the log becomes the log with the stamped entry recorded; the cart is unchanged; the five-entry bound is kept |
| Shop.User.ViewActions | main.py:27-28 | the log newest first, of the same length, without changing it |
| Shop.Store.constructor | main.py:32-40 | a new store holds the starting catalog, with distinct identifiers, and an empty order queue |
| Shop.AddToCart | main.py:94-102 | appends the first catalog product with the identifier to the cart and logs it; when none has it, reports None and changes nothing |
| Shop.RemoveFromCart | main.py:112-120 | removes exactly the first cart item with the identifier and logs it; when none has it, reports None and the cart and log are unchanged |
| Shop.PlaceOrder | main.py:145-157 | a non-empty cart is appended as one order at the end of the queue and the cart becomes empty, and the order is logged; an empty cart changes nothing; the catalog is unchanged |

## Left out

- The menu loops, console input and output, and the parsing of typed numbers (`main.py:76-238`). The three cart steps are taken out of the customer menu as methods.
- The other menu branches are not separate steps of the model. Each of their log writes is a call of the modelled `Shop.User.RecordAction`.
  - Customer options 1 and 3 and employee option 1 record a fixed text (`main.py:91`, `105`, `178`).
  - Customer option 5 records a text that contains the category the user typed (`main.py:127`). It also queries the modelled `Shop.Store.ListCategories` and `Shop.Store.Recommendations` (`main.py:123`, `126`).
  - Employee option 2 calls the modelled `AddProduct` and always records an entry after it (`main.py:187-188`).
  - Employee option 3 calls `EditProduct`. It records `Editou o produto <id>` only when the edit found a product (`main.py:196-201`).
  - Employee option 4 calls `RemoveProduct` and always records an entry after it (`main.py:205-206`).
- `visualizar_produtos` and `Produto.__str__`. Both only print or format text.
- The order totals, printed by customer options 6 and 7, and the currency formatting. These use floating-point sums and text formatting. Option 6 changes nothing but the log.
- Reading the clock for the timestamp. The formatted timestamp is a parameter.
- Shop.Store.EditProduct: edits a value datatype, not a shared object. In the source, a product in the catalog is the same object as the one placed in a cart or queued order, so editing it also changes those copies. The model does not capture that aliasing.
- Shop.PlaceOrder: queues a copy of the cart. In the source, the queued order is the cart's list object itself. After checkout the source gives the user a fresh empty list, so no difference can be observed.
- The employee menu's logging: the source logs an add even when the add was refused, and logs a removal even when nothing was removed. Those calls live in the menu, which is left out. The log operation itself is modelled.
- The later rewrites of the store, built on a doubly linked list, a stack, a queue and an AVL tree, are not part of this model. The list-based version modelled here contains none of them.
