# pizzaconstructor: the ordering core, modelled in Dafny

pizzaconstructor is a small Django storefront. A customer composes a pizza
on a form that lists the ingredient catalogue grouped by ingredient group,
posts the amount wanted of each ingredient, gets an order for that pizza,
fills in contact details, and receives an e-mail with a confirmation link.
Opening the link confirms the order. Staff see the submitted orders, newest
first.

This project models the domain layer underneath the views:

- `Tables` holds a table of rows keyed by primary key, kept in key order.
  The model reads `.all()` and `.filter()` in that order (see "Left out").
  The module also has the lookups a view does (`get_object_or_404`, a
  filter) and the row `save()`.
- `Models` holds the records of `engine/models.py` and the integrity of a
  store of them. Integrity means unique keys, resolving foreign keys and
  many-to-many links, no line item linked twice to one pizza, non-negative
  costs, and a confirmed order carrying its confirmation time. The module also covers the two `price` properties and
  the `on_delete=CASCADE` chains
  group → ingredient → pizza-ingredient → link, and pizza → order.
- `PyInt` is Python's `int()` on text, the way the create view applies it to
  posted amounts. It strips surrounding whitespace (the six ASCII
  whitespace characters and the non-ASCII ones `str.isspace()` accepts, but
  not U+001C to U+001F), and accepts one optional sign and ASCII digits
  grouped by single underscores. Everything else raises `ValueError`. This is
  `int()` as CPython 3.6 and later have it, without the digit limit some
  versions add (see "## Left out").
- `Utils` is `generate_confirm_code`. It hashes the secret key, then the
  text of the order's creation time, then the text of its e-mail address.
- `Views` holds the decisions of the views as functions:
  - which line items a posted form yields, and where the walk stops;
  - the catalogue dictionary of the pizza form;
  - the order list;
  - the submit and confirm transitions of an order.
- `Engine.Store` is the database: a class whose five tables and key counter
  the view methods update in place. The create view is an imperative walk
  over the catalogue that saves rows one by one. Each method is proved to
  leave the store in the state the `Views`/`Models` functions describe, and
  to keep the store's integrity (`Valid`).

Some behaviours of the code worth knowing, all modelled as the code has them:

- The confirmation code is a hash of the secret key, `created_date` and the
  e-mail address; the order's key does not enter it.
- A second visit to a confirmation link answers "Invalid token!" and
  changes nothing.
- Creating a pizza is not all-or-nothing. When an amount is not an integer,
  the view answers 400, but the pizza row and the line items saved before
  the bad field stay stored, without an order.
- Confirming does not require the order to have been submitted.
- The dough is stored as posted, unchecked against the dough choices. A
  form without it stores "0".

The outside world enters as parameters:

- the current time (`now`);
- SHA-256 together with the `str()` of a datetime and the secret key (the
  fields of `Utils.CodeEnv`);
- the posted form (a map from field names to their last values).

## Model

| member | source | states |
|---|---|---|
| Tables.Get | engine/views.py:98 | the lookup finds a row exactly when the key is stored, and the row it returns is stored under that key |
| Tables.GetUnique | engine/views.py:98 | with unique keys the lookup returns the one row carrying the key |
| Tables.Put | engine/views.py:104 | `save()` of one row: same keys in the same order, only the row with that key replaced |
| Tables.Filter | engine/views.py:116 | a filter keeps exactly the rows satisfying the condition, never more rows than before |
| Tables.FilterIncreasing | engine/views.py:116 | filtering a key-ordered table keeps it key-ordered |
| Tables.NoDuplicatesIff | engine/models.py:41 | the scan for repeated links agrees with "no two positions hold the same key", both directions |
| Tables.FilterNoDuplicates | engine/models.py:41 | a filtered link list still holds each key once |
| Tables.FilterAppend | engine/views.py:116 | filtering distributes over appending rows |
| PyInt.ParseInt | engine/views.py:51 | `int()` on a posted text: the number, or `None` for `ValueError`; the lemmas below pin down which texts are numbers |
| PyInt.SeparatorRejected | engine/views.py:51 | the separators U+001C to U+001F in front of a number make `int()` raise, as they are not whitespace to it |
| PyInt.ParseDecimal | engine/views.py:51 | `int()` reads back the decimal text of every non-negative number |
| PyInt.ParseNegated | engine/views.py:51 | `int()` reads "-" followed by a decimal text as the negative number |
| PyInt.ParseRejects | engine/views.py:51 | a character that is neither digit, whitespace, sign nor underscore makes `int()` raise |
| PyInt.ParseRejectsBlank | engine/views.py:51 | blank text and a bare sign make `int()` raise |
| PyInt.GroupingIff | engine/views.py:51 | the digit-group scan accepts exactly digits and underscores with no two underscores in a row |
| PyInt.TrimKeeps | engine/views.py:51 | stripping whitespace never drops a character that is not whitespace |
| PyInt.TrimSubset | engine/views.py:51 | stripping whitespace only removes characters |
| Views.DoughOf | engine/views.py:47 | the posted dough, or the text "0" of the default 0 when the field is absent |
| Views.Classify | engine/views.py:50-51 | one field's decision: no line item for an absent, empty, zero or negative amount, a line item for a positive one, and an abort where `int()` raises |
| Views.ClassifyDecimal | engine/views.py:50-51 | a field holding the decimal text of n yields a line item of amount n when n > 0, and none for "0" |
| Views.ClassifyNegative | engine/views.py:50-51 | a negative amount yields no line item and no error |
| Views.ClassifyMissing | engine/views.py:50-51 | an absent or empty field yields no line item (the default 0 is falsy) |
| Views.ClassifyGarbage | engine/views.py:50-51 | a field with any non-numeric character aborts the request |
| Views.Compose | engine/views.py:49-53 | the walk yields no more line items than the catalogue has ingredients, keyed consecutively in creation order (`Views.ComposeOrdered` proves at most one per ingredient) |
| Views.ComposeCompleteIff | engine/views.py:46-60 | the walk completes exactly when no ingredient's field makes `int()` raise |
| Views.ComposeSound | engine/views.py:49-53 | every line item comes from a catalogue ingredient whose field holds a positive amount, with that amount |
| Views.ComposeCovers | engine/views.py:49-53 | a completed walk has a line item for every ingredient whose field holds a positive amount |
| Views.ComposeIngredientsBelow | engine/views.py:49-53 | line items only name ingredients of the catalogue |
| Views.ComposeOrdered | engine/views.py:49-53 | line items follow catalogue order with strictly increasing ingredient keys, so no ingredient gets two |
| Views.ComposeStopsAtFirstMalformed | engine/views.py:46-60 | an aborted walk keeps exactly the line items of the ingredients before the first bad field |
| Views.ComposeStopsHere | engine/views.py:49-60 | once `int()` raises, the rest of the catalogue adds nothing |
| Views.GroupEntries | engine/views.py:38 | the `(pk, name, cost)` list of one group's ingredients, in query order |
| Views.GroupEntriesMembers | engine/views.py:38 | a group's list holds exactly the `(pk, name, cost)` of that group's ingredients |
| Views.GroupEntriesOrdered | engine/views.py:38 | a group's list is in query (key) order |
| Views.GroupEntriesAbove | engine/views.py:38 | list entries only come from the queried ingredients |
| Views.CatalogueOf | engine/views.py:36-38 | the dictionary after the loop has visited the groups in query order, each assignment replacing an earlier one of the same name |
| Views.CatalogueKeys | engine/views.py:36-38 | the dictionary has exactly one key per distinct group name |
| Views.CatalogueLastWins | engine/views.py:37-38 | under each name stands the list of the last group with that name |
| Views.InsertByDate | engine/views.py:116 | inserting a row into a newest-first list keeps it newest-first and adds exactly that row |
| Views.SortNewestFirst | engine/views.py:116 | `order_by('-created_date')` yields a permutation in non-increasing creation time |
| Views.OrderList | engine/views.py:115-116 | the list holds exactly the submitted orders, each once, newest first |
| Views.NewOrderUnlisted | engine/views.py:115-116 | an order just made by the create view does not appear in the list |
| Views.SubmittedListed | engine/views.py:71-75 | a submitted order appears in the list with its new contact fields |
| Views.Submit | engine/views.py:71-75 | submitting sets e-mail, phone and name from the form and `is_created`, leaving `is_confirm`, `confirmed_date`, pizza and creation time alone |
| Views.ConfirmAccepts | engine/views.py:100-101 | the confirm view's test: the order is not confirmed yet and the code recomputed from its current fields equals the one in the link |
| Views.Confirmed | engine/views.py:102-104 | confirming sets `is_confirm` and stamps `confirmed_date` with now, changing nothing else |
| Views.EmailedCodeAccepted | engine/views.py:80-101 | the code e-mailed on submission confirms the order unless it is confirmed already |
| Views.ConfirmOnlyOnce | engine/views.py:100-107 | a confirmed order accepts no code again, so `confirmed_date` keeps its first value |
| Views.ConfirmWithoutSubmit | engine/views.py:97-105 | an unsubmitted order can be confirmed with its own code, and stays unsubmitted |
| Views.ResubmitVoidsEarlierLink | engine/views.py:101 | after a second submission with another address, the first link works only if SHA-256 collides |
| Models.NewOrder | engine/models.py:47-56 | a new order has its pizza and creation time, both flags false, and no confirmation time or contacts |
| Models.LinePrice | engine/models.py:34-36 | a line price is zero for a zero amount and non-negative for a non-negative cost; `Models.ItemPrice` applies it to a stored line item through its ingredient's row |
| Models.ItemsPrice | engine/models.py:60 | `sum` of the line prices over a list of line-item keys, 0 for none |
| Models.ItemsPriceAppend | engine/models.py:58-60 | the sum over two lists of line items is the sum of the sums |
| Models.ItemsPriceNonNegative | engine/models.py:24-60 | with costs validated non-negative, every sum of line prices is non-negative |
| Models.ConsistentResolves | engine/models.py:31-41 | in a consistent store every link of a pizza resolves to a line item and its ingredient |
| Models.OrderPrice | engine/models.py:58-60 | an order price is non-negative, and 0 for a pizza without line items |
| Models.LinesResolve | engine/models.py:41-60 | stored line items resolve through their keys to their own column values |
| Models.ItemsPriceOfLines | engine/models.py:58-60 | the key-based sum equals the sum of cost × amount over the line items' values |
| Models.OrderPriceOfLines | engine/models.py:58-60 | `Order.price` is the sum of `cost * amount` over the pizza's line items |
| Models.AddedOrderPrice | engine/models.py:58-60 | the order the create view makes costs exactly the sum of the prices of the line items it saved |
| Models.Unlink | engine/models.py:41 | removing links keeps every pizza and its key and drops exactly the links into the removed rows |
| Models.UnlinkUnique | engine/models.py:41 | removing links never makes a pizza list a line item twice |
| Models.UnlinkKeeps | engine/models.py:41 | unlinking keeps pizza keys and their order, and leaves no link into the removed rows |
| Models.UnlinkedLinks | engine/models.py:41 | after unlinking every remaining link points at a kept line item |
| Models.UnlinkedResolve | engine/models.py:41 | after unlinking every link still resolves |
| Models.CascadeGroup | engine/models.py:23 | `IngredientGroup.delete()`: the group, the ingredients of that group, their line items and the links to those go |
| Models.CascadeIngredient | engine/models.py:31 | `Ingredient.delete()`: the ingredient, its line items and the links to those go |
| Models.CascadePizza | engine/models.py:52 | `Pizza.delete()`: the pizza and the orders of that pizza go |
| Models.CascadeGroupIngredients | engine/models.py:23 | the ingredients left after a group cascade are exactly those of other groups |
| Models.CascadeGroupConsistent | engine/models.py:23-41 | deleting a group keeps the store consistent: no pizza links a removed line item |
| Models.CascadeGroupSpec | engine/models.py:23-41 | deleting a group removes it, its ingredients and their line items, and keeps every pizza and order |
| Models.CascadeIngredientItems | engine/models.py:31 | the line items left after an ingredient cascade are exactly those of other ingredients |
| Models.CascadeIngredientConsistent | engine/models.py:31-41 | deleting an ingredient keeps the store consistent |
| Models.CascadeIngredientSpec | engine/models.py:31-41 | deleting an ingredient removes it and its line items and keeps groups, pizzas and orders |
| Models.CascadePizzaSpec | engine/models.py:52 | deleting a pizza removes it and exactly its orders; no other record is removed |
| Models.CascadeKeysBelow | engine/models.py:23-52 | deletions never introduce a key |
| Models.AppendIncreasing | engine/models.py:14-24 | a row keyed above every stored key keeps the table key-ordered |
| Models.AppendConsecutive | engine/views.py:52 | line items keyed from the next key on keep the table key-ordered |
| Models.AddPizza | engine/views.py:47-55 | the rows the create view writes: the pizza under the next key, its line items under the keys after it and linked to it in that order, then the order when the walk completed |
| Models.AddPizzaKeys | engine/views.py:47-55 | the rows the create view writes keep keys unique and below the next key |
| Models.AddPizzaReferences | engine/views.py:47-55 | the rows the create view writes keep every reference resolving |
| Models.AddPizzaConsistent | engine/views.py:47-55 | the rows the create view writes keep the store consistent |
| Models.PutOrderConsistent | engine/views.py:72-104 | saving an order that keeps its pizza and lifecycle keeps the store consistent |
| Utils.EmailText | engine/utils.py:6 | `str()` of the e-mail column: the address, or "None" for NULL |
| Utils.ConfirmKey | engine/utils.py:6 | the hashed text is the secret, then the creation-time text, then the e-mail text, with nothing between |
| Utils.GenerateConfirmCode | engine/utils.py:5-7 | the code is 64 lowercase hexadecimal characters |
| Utils.CodeDependsOnDateAndEmail | engine/utils.py:6 | orders with the same creation time and e-mail get the same code, whatever their key, contacts, flags or pizza |
| Utils.KeySeparatesEmails | engine/utils.py:6 | with secret and time fixed, different e-mail texts give different hashed texts |
| Utils.EmailTextCollisions | engine/utils.py:6 | two addresses read alike only when equal, or when one is NULL and the other is the text "None" |
| Engine.Store.constructor | engine/models.py:14-56 | an empty database is consistent |
| Engine.Store.AddGroup | engine/models.py:14-15 | storing a group appends it under a fresh key and keeps the store consistent |
| Engine.Store.AddIngredient | engine/models.py:21-24 | an unknown group or a negative cost is refused; otherwise the ingredient is appended under a fresh key |
| Engine.Store.DeleteGroup | engine/models.py:23 | deleting a stored group runs its cascade; an unknown key changes nothing |
| Engine.Store.DeleteIngredient | engine/models.py:31 | deleting a stored ingredient runs its cascade; an unknown key changes nothing |
| Engine.Store.DeletePizza | engine/models.py:52 | deleting a stored pizza runs its cascade; an unknown key changes nothing |
| Engine.Store.CreatePizza | engine/views.py:44-60 | the create view leaves the store as the walk describes, answers the new order's key or 400, and keeps the store consistent |
| Engine.Store.WriteComposition | engine/views.py:46-57 | the pizza, then its line items, then (when no field raised) the order are written under consecutive fresh keys |
| Engine.Store.SaveLines | engine/views.py:49-53 | the loop saves and links exactly the walk's line items and stops at the first bad field |
| Engine.Store.LinkLine | engine/views.py:52-53 | one iteration saves a line item and links it to the new pizza |
| Engine.Store.Catalogue | engine/views.py:33-41 | the context loop builds the catalogue dictionary group by group |
| Engine.Store.SubmitContact | engine/views.py:71-88 | submitting saves the contacts and `is_created` and answers the code for the link; an unknown key answers 404 and changes nothing |
| Engine.Store.Confirm | engine/views.py:97-107 | an unconfirmed order with a matching code is confirmed and redirected; any other known order answers "Invalid token!" unchanged; an unknown key answers 404 |
| Engine.CreationConsistent | engine/views.py:47-55 | the rows of any posted form's walk keep the store consistent |
| Engine.LinesFromCatalogue | engine/views.py:49-53 | every line item of a walk names a stored ingredient |

## Left out

- Views.SortNewestFirst: orders with equal creation times keep their table order. The database's order for ties is unspecified, and the list is only promised to be a newest-first permutation.
- Models.LinePrice: `cost` is a `FloatField`; the model uses exact reals, so the rounding of Python floats is not modelled.
- PyInt.ParseInt: the model reads text as CPython 3.6 and later do, without their limit on the number of digits. Digits outside ASCII, which Python's `int()` also accepts, are not modelled; the model reads such text as a `ValueError`.
- PyInt.ParseInt: the limit of 4300 digits (by default) on `int()` of a text is not modelled. CPython has it from 3.11, and the security releases 3.7.14, 3.8.14, 3.9.14 and 3.10.7 added it to the older lines. Under those versions a longer amount makes `int()` raise `ValueError` and the view answer 400, while the model reads the text as its number. The repository's URL configuration points to the Django 2.1 documentation, and Django 2.1 runs on Python 3.5 to 3.7, so a deployment on 3.7.14 or later has the limit.
- PyInt.ParseInt: underscores between digits are accepted only from Python 3.6 on. Python 3.5, which Django 2.1 also supports, rejects `"1_0"`: there the view answers 400 after storing the pizza, while the model reads the amount as 10.
- The `UUIDValidatorMixin` dispatch check (engine/views.py:17-23) and the parsing of order keys. They rely on Python's `uuid` module and on `UUIDField`, which are not part of this model; order keys are plain numbers. In the code, `OrderView` answers 400 for a key that is not a UUID, through the mixin. `OrderConfirmView` has no mixin, so there such a key makes the field's conversion raise `ValidationError`, which `get_object_or_404` does not catch, and the answer is a server error (500). The model has only well-formed keys, and a well-formed key that is not stored is answered 404.
- Form validation of the contact fields (e-mail syntax, `max_length`): the submitted values are stored as given.
- The dough choice list and the `PizzaForm` declaration: the create view does not use them.
- `send_mail`, `render_to_string`, `get_current_site`, `json.dumps`, `reverse()` and HTTP response objects: I/O and framework calls. `Store.SubmitContact` returns the code the e-mail would carry, and `Store.CreatePizza` returns the order key the JSON answer would carry.
- `PizzaFormView.get_context_data` returns the dictionary, not its JSON text. The dictionary is a `map`, so the key order of the Python dict (the order in which each group name was first inserted), which `json.dumps` writes out, is not modelled.
- The generic admin list, create, update and delete views for groups and ingredients (engine/views.py:130-213), including their `confirm_delete` guard. As written, the `post` of both delete views reads `self.object`, which nothing has set at that point (engine/views.py:162, engine/views.py:206), so every POST to them fails with `AttributeError` before any lookup or deletion. The store's `DeleteGroup`, `DeleteIngredient` and `DeletePizza` model the models' `delete()` and its cascades, not those views; `AddGroup` and `AddIngredient` stand for the create views' `save()`.
- `OrderDetailView` and the GET pages: they only render.
- `__str__` methods and the `strftime` of `Order.__str__`: presentation only.
- `uuid4()` order keys: every new row, order or not, takes the next value of one counter, which is enough for freshness.
- The query-dictionary semantics of `request.POST` with repeated fields: the form is a map holding the last value of each field.
- A many-to-many relation holds each (pizza, line item) pair once; the model keeps a pizza's links as a list without repeats (`Models.LinksUnique`, part of `Models.Consistent`), in the order they were added. The database's order of `pizza.ingredients.all()` is unspecified; with exact reals the order does not affect a price, and it never affects a cascade.
- Query order. `IngredientGroup.objects.all()`, `Ingredient.objects.all()` and `.filter()` carry no `order_by`, and the models declare no `Meta.ordering`, so the database promises no order. The model assumes these queries return rows in primary-key order. That assumption decides which line items survive an aborted walk (`Views.ComposeStopsAtFirstMalformed`), which group wins when two share a name (`Views.CatalogueLastWins`), and the order of a group's entries (`Views.GroupEntriesOrdered`).
- Column limits. `PizzaIngredient.amount` is a `PositiveIntegerField`, whose safe range in every database Django supports is 0 to 2147483647, and `Pizza.dough` has `max_length=1`. A larger posted amount, or on some databases a longer posted dough, can make the database layer raise an error that is not a `ValueError` (an overflow or a data error, depending on the database). The view then answers 500, not 400, and the pizza row already created stays. The model stores any natural amount and any dough text.
- Concurrency and transactions: every view runs on its own against the store.
