# Consumer favourites backend — a Dafny model

This project models the domain logic of a small consumer-favourites backend.
Authenticated users manage consumer profiles. Consumers mark products of an
external catalogue as favourites.

The model treats the service as a pure state machine over an abstract store:

- consumers: a sequence of `(id, name, email)` records, in the order a plain
  `SELECT` returns them;
- favourites: a sequence of `(consumer id, product id)` rows, in insertion order;
- users: a map from email to `(id, password hash, active flag)`;
- a counter that hands out fresh ids, standing in for `uuid4`.

The upstream catalogue is a map from the requested path segment to a product.
Each store operation returns the new store together with a value or an error.
Errors are the outcomes the source reports as HTTP errors: 400, 404 and 422
for the domain checks, 500 for an integrity failure and a refused response.

Modules follow the source files:

- `Domain` (consumers/models.py and users/models.py): the records and the
  schema invariants. These are unique consumer ids and emails, unique
  (consumer, product) pairs, favourites owned by an existing consumer, and users
  keyed by a unique email.
- `Repositories` (consumers/repositories.py): the consumer and favourite
  repositories as store transitions.
- `Reconciler` (the loop of `add_favorites`/`update_favorites`): batch
  classification and its properties.
- `ConsumerRoutes` (consumers/routers.py): the batch endpoints, `remove_favorite`
  and consumer creation behind its request checks.
- `ConsumerSchemas` and `ProductSchemas` (the schema files): request constraints
  and the `from_domain` enrichment.
- `ConsumerService` (consumers/services.py): the paginated listing and the
  single-consumer view.
- `ProductService` (products/services.py): catalogue pagination.
- `Auth` (users/services.py, users/routers.py): registration and login. `hash`,
  `verify`, the token issuer and the `EmailStr` check of the response model are
  function parameters.
- `Paging` and `Decimal`: the page arithmetic, and the `isdigit`/`int`/`str`
  handling of product ids.

Notes on the code:

- `update_consumer` rejects a consumer's own email (see Findings).
- The duplicate-registration message is "Email já cadastrado". The unit test
  expects "Email already registered".
- `remove_favorite` asks the catalogue for `str(int(id))` but looks the
  favourite up with the id as sent. "007" is therefore checked as product "7"
  and as favourite "007".
- Favourites are added only in batches; the routers define no single-item
  add endpoint.

## Model

| member | source | states |
|---|---|---|
| Domain.FavoritesOf | src/domains/consumers/models.py:28-33 | a consumer's favourites are the product ids of the rows it owns, one entry per owned row (equal multiset counts), so no repeats when the rows are distinct |
| Repositories.GetConsumerById | src/domains/consumers/repositories.py:38-45 | finds a consumer iff one with that id exists, and returns that consumer |
| Repositories.GetConsumerByEmail | src/domains/consumers/repositories.py:31-36 | finds a consumer iff one has exactly that email, and returns that consumer |
| Repositories.CreateConsumer | src/domains/consumers/repositories.py:10-29 | a taken email is refused and the store is unchanged; otherwise exactly one consumer with a fresh id, the given name and email is appended, favourites and users untouched; the invariants are kept |
| Repositories.UpdateConsumer | src/domains/consumers/repositories.py:47-73 | unknown id: `None`, store unchanged; a new email is refused iff ANOTHER consumer holds it, and that refusal is the only error; an existing consumer otherwise always gets `Some` of the updated row, only that consumer changes, and only in the fields present; the invariants are kept |
| Repositories.UpdateConsumerAsWritten | src/domains/consumers/repositories.py:59-65 | as written, a new email is refused iff any consumer holds it, the updated consumer included, and a refusal is the only error and changes nothing; except when the consumer re-submits its own email, it answers exactly as `Repositories.UpdateConsumer` does |
| Repositories.OwnEmailRejectedAsWritten | src/domains/consumers/repositories.py:59-65 | re-submitting a consumer's own email: refused as written, accepted as a no-op by the intended check |
| Repositories.UpdateWithOwnFieldsIsNoOp | src/domains/consumers/repositories.py:67-69 | writing back a consumer's own name and email leaves the store unchanged |
| Repositories.DeleteConsumer | src/domains/consumers/repositories.py:75-86 | unknown id: `None`, store unchanged; otherwise the stored row is returned and removed from its position, nothing else is added or reordered, its favourites are removed by the cascade and all others kept; the invariants are kept |
| Repositories.CountConsumers | src/domains/consumers/repositories.py:102-105 | with the primary key in force, the row count equals the number of distinct consumer ids |
| Repositories.ConsumersPage | src/domains/consumers/repositories.py:88-100 | the page is rows `skip .. skip+limit` of the consumer sequence, clamped to its end |
| Repositories.CreateFavorite | src/domains/consumers/repositories.py:109-123 | inserts exactly one row; a duplicate pair or an unknown consumer is an integrity error that changes nothing |
| Repositories.GetFavoriteByProduct | src/domains/consumers/repositories.py:125-139 | finds the row iff the pair is stored |
| Repositories.DeleteFavorite | src/domains/consumers/repositories.py:148-151 | removes exactly that pair (one row fewer), all else unchanged; the invariants are kept |
| Reconciler.Reconcile | src/domains/consumers/routers.py:141-165 | each id lands in one list, so the list lengths add up to the request; each added id adds one favourite row; consumers and users are untouched |
| Reconciler.ReconcileInterleaves | src/domains/consumers/routers.py:141-165 | the three lists interleave to the request: each id goes to exactly one list, each list keeps input order |
| Reconciler.InterleavingPartitions | src/domains/consumers/routers.py:141-165 | the three lists together are the request as a multiset, so their lengths add up |
| Reconciler.ReconcileNotFound | src/domains/consumers/routers.py:142-145 | `not_found` is exactly the ids the catalogue does not resolve, in input order |
| Reconciler.ReconcileStore | src/domains/consumers/routers.py:147-162 | the store afterwards is the store before plus one row per `added` id, in order; consumers, users and other rows untouched |
| Reconciler.ReconcileAddedFresh | src/domains/consumers/routers.py:147-162 | every added id was requested, resolves and was not a favourite, and none is added twice |
| Reconciler.ReconcileAddedComplete | src/domains/consumers/routers.py:147-162 | every requested id that resolves and was not a favourite is added |
| Reconciler.ReconcileSaturated | src/domains/consumers/routers.py:141-165 | once every resolvable requested id is a favourite, a batch adds nothing and changes nothing |
| Reconciler.ReconcileIdempotent | tests/unit/consumers/test_favorities.py:142-162 | a repeated batch adds nothing, lists every resolvable id (all earlier additions included) as existing, repeats `not_found`, leaves the store as is |
| Reconciler.ReconcileRepeats | src/domains/consumers/routers.py:147-162 | counts for an id repeated in one batch: added at most once (exactly once if it was new), its other occurrences are all `already_exists` |
| Reconciler.ReconcileMatchesReference | src/domains/consumers/routers.py:147-162 | `added` is, in order, each new resolvable id at its first occurrence; `already_exists` is each resolvable id that was a favourite or occurred earlier in the batch |
| Reconciler.RepeatedIdAddedFirst | src/domains/consumers/routers.py:147-162 | for `[p, q, p]` with both new: `added` is `[p, q]`, `already_exists` is `[p]` |
| Reconciler.ReconcileKeepsValid | src/domains/consumers/models.py:54-56 | the batch keeps the store invariants, pair uniqueness included |
| ConsumerRoutes.AddFavorites | src/domains/consumers/routers.py:125-172 | an empty request fails validation and an unknown consumer fails not-found, both before any lookup and with the store unchanged; otherwise the report interleaves the request, `not_found` is the unresolvable ids, `added` and `already_exists` are the first-occurrence accounts of `Reconciler.ReconcileMatchesReference`, and the store gains exactly the added rows |
| ConsumerRoutes.UpdateFavorites | src/domains/consumers/routers.py:214-261 | the same store effect and lists as `add_favorites`; only the message differs |
| ConsumerRoutes.AddFavoritesTwice | tests/unit/consumers/test_favorities.py:142-162 | sending the same batch twice: the second response adds nothing and lists the resolvable ids as existing |
| ConsumerRoutes.RemoveFavorite | src/domains/consumers/routers.py:179-207 | non-numeric id: 422 whatever the store and catalogue; then consumer, product (as `str(int(id))`), favourite are checked in that order, each failure leaving the store unchanged; when all four checks pass the pair is deleted and the answer is success |
| ConsumerRoutes.AddThenRemove | src/domains/consumers/routers.py:193-206 | for an id in canonical decimal form (digits, no superfluous leading zero, so `str(int(id))` is the id itself), removing a favourite a batch just added restores the store |
| ConsumerRoutes.CreateConsumerRoute | src/domains/consumers/routers.py:40-50 | a name outside 1..255 characters fails validation with the store unchanged; otherwise it is `create_consumer` |
| ConsumerRoutes.CreateThenRead | src/domains/consumers/repositories.py:21-29 | a created consumer reads back by id with the same name and email and no favourites |
| ConsumerRoutes.CreateTwiceConflicts | src/domains/consumers/repositories.py:12-19 | a second creation with the same email fails; exactly the first consumer holds that email |
| ConsumerRoutes.ExampleBatchTwice | tests/unit/consumers/test_favorities.py:113-162 | ids "1", "2": first response adds both, second lists both as existing |
| ConsumerRoutes.ExampleUnknownProduct | tests/unit/consumers/test_favorities.py:87-110 | an unresolvable id is reported in `not_found` and stores nothing |
| ConsumerRoutes.ExampleNonNumericRemoval | tests/unit/consumers/test_favorities.py:200-206 | removing "abc" answers 422, "Product ID must be a numeric value", and changes nothing |
| ConsumerSchemas.ValidateConsumerCreate | src/domains/consumers/schemas.py:10-12 | a consumer name is accepted iff it has 1 to 255 characters |
| ConsumerSchemas.ValidateFavoriteCreate | src/domains/consumers/schemas.py:56-57 | a batch is accepted iff it names at least one id |
| ConsumerSchemas.Enrich | src/domains/consumers/schemas.py:43-47 | at most one entry per favourite, one for each iff all resolve (then pointwise in order); every resolvable favourite shows, and every entry is the details of a resolvable favourite; a single favourite gives its details or nothing |
| ConsumerSchemas.EnrichAppend | src/domains/consumers/schemas.py:43-47 | enrichment distributes over concatenation: an order-preserving filter |
| ConsumerSchemas.FromDomain | src/domains/consumers/schemas.py:39-53 | id, name and email copied; the favourites are the enriched list: every resolvable one shown, unresolvable ones dropped, none invented, pointwise when all resolve |
| ProductSchemas.Details | src/domains/products/schemas.py:10-15 | every modelled field of the details is the product's field of the same name |
| ConsumerSchemas.EnrichLocal | src/domains/consumers/schemas.py:43-47 | the result depends only on the map's entries for the favourites themselves |
| ConsumerService.PageProductIds | src/domains/consumers/services.py:23-27 | the looked-up ids are exactly the favourite ids of the page's consumers |
| ConsumerService.ProductsMapFor | src/domains/consumers/services.py:29-33 | the products map holds exactly the looked-up ids the catalogue resolves, with their products |
| ConsumerService.ListWithFavorites | src/domains/consumers/services.py:12-44 | echoes total (the consumer count), page and page size; page count is the ceiling with minimum 1; one entry per consumer of rows `(page-1)*size ..`, in order, with their id, name and email |
| ConsumerService.RetrieveConsumer | src/domains/consumers/services.py:46-54 | id, name and email copied; the favourites are the consumer's favourites enriched against the whole catalogue, so restricting the map to them changes nothing; every favourite shows iff every one resolves |
| ConsumerService.ListAgreesWithRetrieve | src/domains/consumers/services.py:29-54 | each listed consumer equals its single-consumer view: the shared deduplicated map changes nothing |
| ConsumerService.LookupsAtMostRows | src/domains/consumers/services.py:23-33 | the listing makes at most one catalogue lookup per favourite row of the page |
| Paging.Slice | src/domains/products/services.py:14-16 | the window has length max(0, min(limit, n - offset)) and holds rows `offset + i` in order |
| Paging.TotalPages | src/domains/consumers/services.py:43 | at least 1, exactly 1 for no rows, otherwise the least page count that covers every row |
| Paging.PastLastPageEmpty | src/domains/products/services.py:14-16 | a page after the last one is empty |
| ProductService.Listed | src/domains/products/services.py:18-27 | id, title and image are copied; the rating is never set |
| ProductService.GetAvailableProducts | src/domains/products/services.py:8-35 | total is the catalogue length, page and size echoed, page count as in `Paging.TotalPages`, data is the catalogue slice `[(page-1)*size, page*size)` in order |
| ProductService.PastLastPage | tests/unit/products/test_products.py:53-64 | a page beyond the page count yields no data |
| ProductService.TwentyItemsFivePerPage | tests/unit/products/test_products.py:26-50 | 20 products, 5 a page: 4 pages, page 2 holds 5 items starting with product 6 |
| ProductService.OneItemSecondPage | tests/unit/products/test_products.py:62-64 | 1 product, 10 a page: page 2 is empty and there is 1 page |
| ProductService.EmptyCatalogue | src/domains/products/services.py:28 | an empty catalogue gives empty data and 1 page |
| Auth.Register | src/domains/users/routers.py:38-65 | short password: validation error; taken email: refused, no user added; otherwise one active user with the hash of the password is stored under that email, and the answer is that user if the `EmailStr` response model accepts the email, a 500 otherwise |
| Auth.Authenticate | src/domains/users/services.py:12-17 | returns the user stored under exactly that email iff it exists and the password verifies |
| Auth.Login | src/domains/users/routers.py:21-35 | succeeds iff authentication does, with a bearer token for the user's id; every failure is the one "Incorrect email or password" error |
| Auth.LoginFailureIsUniform | tests/unit/users/test_login.py:37-50 | an unknown email and a wrong password get the identical 400 answer, "Incorrect email or password" |
| Auth.RegisterThenLogin | src/domains/users/routers.py:57-61 | the password just registered logs in as the stored user when verify accepts a password against its own hash, whatever the registration answered |
| Auth.RegisterTwice | src/domains/users/routers.py:47-56 | a second registration of an email fails with "Email já cadastrado" and the first user's hash stays |
| Auth.RejectedEmailStillStored | src/domains/users/routers.py:38-65 | an email the response model refuses is answered 500 yet the user is committed, so a retry is refused as a duplicate |
| Decimal.Render | src/domains/consumers/routers.py:193-194 | `str(n)` is a digit string without a leading zero |
| Decimal.ValueOfRender | src/domains/consumers/routers.py:193-194 | `int(str(n)) == n` |
| Decimal.RenderOfValue | src/domains/consumers/routers.py:184-200 | a digit string without a superfluous leading zero survives `str(int(s))` unchanged |
| Decimal.LeadingZerosDropped | src/domains/consumers/routers.py:193-194 | "007" is requested from the catalogue as "7" |

## Left out

- HTTP and framework wiring: routers' status plumbing, `Depends`/`Security`, the
  app factory and the route table. Errors are tagged outcomes; `Domain.StatusCode`
  gives the status the source uses. The route path typo of `update_favorites`
  is a routing matter.
- The routes `retrieve_consumer`, `update_consumer` and `delete_consumer` wrap
  the modelled repository and service functions: `None` becomes 404, and
  `update_consumer` turns the email `ValueError` into 400 (`Domain.StatusCode`
  of `ConsumerEmailTaken`).
- Malformed consumer ids. Consumer ids are abstract naturals, so every id in
  the model is well formed. These three routes take the id as a plain `str`
  and compare it with a `UUID` column, so a path id that is not a UUID fails
  the query with a 500, not the model's 404. The batch and removal routes type
  the id as `UUID`, so FastAPI answers 422 for it.
- Token validation (`get_current_user`) and the bcrypt/JWT calls. These are
  library code; hash, verify and token issue are parameters of `Auth`, and the
  issue function absorbs the expiry clock.
- Upstream failures of the product gateway (HTTP 500). Network errors abort a
  request; the catalogue here always answers, with a product or a 404.
- The `IntegrityError` branch of the batch loop. It only matters for concurrent
  inserts, and in a sequential model the preceding existence check makes it
  unreachable. It also catches `sqlite3.IntegrityError`, not the exception
  SQLAlchemy raises.
- Sessions, commits, rollbacks and the migrations, which repeat the models.
- `UserRepository.create_user` and `UserService.create_user`, which are unused,
  and `FavoriteRepository.get_favorites_by_consumer_id`, which no route calls.
- Float prices and ratings, `created_at` timestamps and favourite row ids. No
  decision depends on them.
- Decimal.IsDigits: ASCII digits only; Python's `isdigit` also accepts other
  Unicode digits.
- Repositories.ConsumersPage: a `SELECT` without `ORDER BY` has no guaranteed
  order; the model fixes it as the store's sequence order. The offset is an
  unbounded `nat` here. The route puts no upper bound on `page`, and PostgreSQL
  takes at most a `bigint` OFFSET (less if the driver binds it as `integer`).
  A larger `(page - 1) * page_size` makes the query fail with a 500, where the
  model answers an empty page.
- ConsumerService.ListWithFavorites and ProductService.GetAvailableProducts
  require page and page size of at least 1. The routes enforce these bounds
  (page size at most 1000 and 100 respectively). With page size 0 the service
  divides by zero.
- Domain.FavoritesOf: the `favorites` relationship loads without `order_by`, so
  the database gives no order; the model fixes insertion order.
- Decimal.Value and Decimal.Render: unbounded. Current CPython refuses `int()`
  and `str()` on numbers over 4300 digits, which would answer 500.
- The address syntax `EmailStr` accepts (email-validator library code) is the
  parameter `isAddress` of `Auth.Register`.
- The consumer email format is not checked by the source (`email: str`) and is
  not checked here.

## Findings

| source | as written | input that shows it | evidently intended | confidence | as-written member | corrected member |
|---|---|---|---|---|---|---|
| src/domains/consumers/repositories.py:64 | `existing_consumer.id != consumer_id` compares the stored `uuid.UUID` with the raw `str` path parameter; the two are never equal, so every holder of the email blocks the update | a consumer updating its own email to its current value is refused with 400 (`Repositories.OwnEmailRejectedAsWritten`) | refuse only when the email belongs to a different consumer | medium, not executed (depends on SQLAlchemy 2's postgresql `UUID` type returning `uuid.UUID`) | Repositories.UpdateConsumerAsWritten | Repositories.UpdateConsumer |
