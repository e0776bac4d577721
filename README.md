# Order workflow and user directory: a Dafny model

This project models two gRPC services and the HTTP gateway in front of them.

- **Order service.** Before it writes an order, the order service asks the user service whether the user exists. It sums quantity × price over the requested items and stores the order, with status PENDING and a snapshot of the user's name and email. The order row and its item rows are written in one transaction. Later calls read orders back, change their status, list them a page at a time, list one user's orders, and cancel them.
- **User service.** It owns the user records. It creates, reads, updates (merging only the non-empty fields), deletes and lists users. It answers the validation question the order service asks.
- **Gateway.** Before calling the order service, the gateway checks the request bodies. It maps status names to enum numbers, fills in default paging values, and turns gRPC errors into HTTP statuses.

The relational tables are maps keyed by row id. Each `SERIAL` sequence is a counter. A repository that the Go code holds as an object becomes a Dafny `class` whose methods update those maps. Every repository call takes an injected `Fault` saying whether the database fails during that call. `Create` instead takes a `CreateFault` naming which step of its transaction fails. With the faults as inputs, every error branch of the handlers can be stated. The user-service validation call the order service makes is an input too: a `ValidationReply` is either a transport error or the service's answer `(isValid, user?)`.

Modules, one per source file, plus two shared ones:

- `Common`: Option/Result/Outcome, gRPC codes, store errors, faults, int32 wrap-around.
- `Paging`: the page/limit normalisation and offset, the `LIMIT`/`OFFSET` window, and the `ORDER BY created_at DESC` arrangement. Both repositories use them.
- `OrderModels`: `order-service/models/order.go`.
- `OrderService`: `order-service/service/order_service.go`.
- `UserModels`: `user-service/models/user.go`.
- `UserService`: `user-service/service/user_service.go`.
- `GatewayOrders`: `api-gateway/routes/orders.js`.

Money is integer cents. A timestamp is the abstract value `now` that the database clock has when a write runs. The order service's wire form of the statuses uses PENDING=0 … CANCELLED=4. `order.proto` is not part of this model. These numbers come from the gateway's `OrderStatus` table. `GatewayOrders.StatusTableMatchesService` proves that the table and the Go switch agree.

Three behaviours of the code are kept as written:

- `CreateOrder` accepts an empty item list. Only the gateway refuses one.
- `UpdateOrderStatus` accepts any target status from any current status.
- A failed validation call gives Internal, the same code as a failed store write. It does not get a separate upstream code.

## Model

| member | source | states |
|---|---|---|
| `Paging.NormalizePage` | order-service/models/order.go:157-159 | a page below 1 becomes 1; a positive page is kept |
| `Paging.NormalizeLimit` | order-service/models/order.go:160-162 | a limit below 1 becomes 10; a positive limit is kept |
| `Paging.NormalizeIdempotent` | user-service/models/user.go:93-98 | normalising an already normal page/limit changes nothing |
| `Paging.Offset` | order-service/models/order.go:164 | the offset of a normalised page is non-negative and is 0 for page 1 (computed without overflow) |
| `Paging.PagesAdjacent` | order-service/models/order.go:164 | page p+1 starts exactly `limit` rows after page p, so pages tile the ordered rows |
| `Paging.OffsetAsWritten` | order-service/models/order.go:164 | the Go int32 offset: in int32 range and congruent to (page-1)*limit modulo 2^32 |
| `Paging.OffsetWrapsToFirstPage` | order-service/models/order.go:164 | page 1073741825 with limit 4 wraps to offset 0 although 4294967296 rows precede it |
| `Paging.OffsetWrapsNegative` | user-service/models/user.go:100 | page 1073741825 with limit 2 wraps to a negative offset |
| `Paging.Window` | order-service/models/order.go:175-181 | `LIMIT`/`OFFSET`: the window has min(limit, rows after offset) elements, element i being row offset+i |
| `Paging.RankNewestFirst` | order-service/models/order.go:178 | `ORDER BY created_at DESC`: every given row exactly once, in non-increasing creation time |
| `OrderModels.ExactItemsAgree` | order-service/models/order.go:120-143 | any two readings of an order's items hold the same items (as sets), the same ids and the same count |
| `OrderModels.CreatedItemsExact` | order-service/models/order.go:83-92 | after a commit the new order's stored items are exactly the items just inserted |
| `OrderModels.OrderRepository.constructor` | order-service/models/order.go:53-55 | a new store has empty tables and both sequences at 1 |
| `OrderModels.OrderRepository.Create` | order-service/models/order.go:57-93 | all or nothing: on any failure neither table changes; on success one order row and one row per item, the order id stamped on every item, fresh item ids in order, the sequences advanced |
| `OrderModels.OrderRepository.GetOrderItems` | order-service/models/order.go:120-143 | exactly the item rows whose order_id matches, each once |
| `OrderModels.OrderRepository.GetByID` | order-service/models/order.go:95-118 | NoRows for an absent id, DbError on failure, else the row with exactly its items |
| `OrderModels.OrderRepository.LoadOrders` | order-service/models/order.go:187-206 | each listed id read back as its stored order, in the same order |
| `OrderModels.OrderRepository.Update` | order-service/models/order.go:145-154 | overwrites name, email, total and status and stamps updated_at; owner, created_at, items and other rows stay; NoRows when absent |
| `OrderModels.OrderRepository.List` | order-service/models/order.go:156-209 | total counts every order row; the page is the normalised window of a newest-first arrangement of all rows, at most `limit` long |
| `OrderModels.OrderRepository.GetByUserID` | order-service/models/order.go:211-246 | exactly the user's orders, each once, newest first, with their items |
| `OrderModels.OrderRepository.UpdateStatus` | order-service/models/order.go:248-269 | NoRows and no change when no row has the id; otherwise only that row's status and updated_at change |
| `OrderModels.OrderRepository.Cancel` | order-service/models/order.go:271-273 | the same outcome and new state as UpdateStatus with CANCELLED |
| `OrderService.ModelStatusToProto` | order-service/service/order_service.go:217-232 | a wire value in 0..4, PENDING exactly for PENDING and unknown names; the five names round-trip through ProtoStatusToModel |
| `OrderService.ProtoStatusToModel` | order-service/service/order_service.go:234-249 | always one of the five names, PENDING exactly for 0 and unknown numbers |
| `OrderService.WireStatusRoundTrip` | order-service/service/order_service.go:217-249 | the five wire values round-trip through the stored name |
| `OrderService.LineTotalAppend` | order-service/service/order_service.go:44-48 | the total of concatenated item lists is the sum of their totals |
| `OrderService.LineTotalSingle` | order-service/service/order_service.go:48 | one item contributes price × quantity |
| `OrderService.WidgetGadgetTotal` | order-service/service/order_service.go:44-48 | 2 × 9.99 + 1 × 5.00 = 24.98 |
| `OrderService.BuildOrder` | order-service/service/order_service.go:44-64 | the loop's total is the sum of price × quantity; items copied in order and count; PENDING; the user's name/email |
| `OrderService.ItemToProto` | order-service/service/order_service.go:196-201 | an item's id, name, quantity and price copied to the wire |
| `OrderService.ToProto` | order-service/service/order_service.go:193-215 | every order field copied, items in order, status converted |
| `OrderService.ToProtoAll` | order-service/service/order_service.go:128-131 | one wire order per stored order, in the same order |
| `OrderService.OrderServiceServer.constructor` | order-service/service/order_service.go:23-28 | the server uses the given store |
| `OrderService.OrderServiceServer.CreateOrder` | order-service/service/order_service.go:30-75 | transport error → Internal and nothing written; invalid user → NotFound and nothing written; store failure → Internal with no row left; success → stored PENDING order with the exact total, the requested user id, the user's snapshot and the items copied; the other orders and all earlier item rows stay, and every new item row belongs to the new order |
| `OrderService.OrderServiceServer.GetOrder` | order-service/service/order_service.go:77-92 | NotFound for an absent id, Internal on failure, else the stored order with its items |
| `OrderService.OrderServiceServer.UpdateOrderStatus` | order-service/service/order_service.go:94-117 | NotFound for an absent id; any target status is accepted; only status and updated_at change; the response is the wire form of the order read back, with exactly its stored items, the new status and the unchanged total and snapshot |
| `OrderService.OrderServiceServer.ListOrders` | order-service/service/order_service.go:119-137 | Internal on failure; else the store's page in wire form with the total of all rows |
| `OrderService.OrderServiceServer.GetUserOrders` | order-service/service/order_service.go:139-168 | transport error → Internal; invalid user → NotFound whatever is stored; else all of the user's orders newest first, with Total equal to their number |
| `OrderService.OrderServiceServer.CancelOrder` | order-service/service/order_service.go:170-191 | NotFound for an absent id; otherwise status CANCELLED and Success=true, also for an order already cancelled |
| `OrderService.CreateShipAndRead` | order-service/service/order_service.go:30-117 | right after CreateOrder, GetOrder of the new id returns it PENDING with the created items (as a set), their count, the total and the owner; after SHIPPED it reads back SHIPPED with the same items (as a set), item count, owner, total and snapshot |
| `UserModels.UserAt` | user-service/models/user.go:52-55 | a scanned user carries the row's id and columns |
| `UserModels.UserRepository.constructor` | user-service/models/user.go:31-33 | a new store has no users and its sequence at 1 |
| `UserModels.UserRepository.Create` | user-service/models/user.go:35-43 | exactly one new row with the given name, email, phone and address; the returned user has the assigned id |
| `UserModels.UserRepository.GetByID` | user-service/models/user.go:45-60 | NoRows for an absent id, DbError on failure, else that row |
| `UserModels.UserRepository.Update` | user-service/models/user.go:62-71 | overwrites the four mutable fields of that row and stamps updated_at; no other row changes; NoRows when absent |
| `UserModels.UserRepository.Delete` | user-service/models/user.go:73-90 | NoRows and no change when absent; otherwise exactly that row is removed |
| `UserModels.UserRepository.LoadUsers` | user-service/models/user.go:123-134 | each listed id read back as its stored user, in order |
| `UserModels.UserRepository.List` | user-service/models/user.go:92-137 | the same normalisation and window as orders; total counts every user row; at most `limit` users, newest first |
| `UserModels.UserRepository.GetByEmail` | user-service/models/user.go:139-154 | a stored user with that email, or NoRows exactly when no row has it |
| `UserService.ToProto` | user-service/service/user_service.go:162-172 | every user field copied to the wire |
| `UserService.ToProtoAll` | user-service/service/user_service.go:130-133 | one wire user per stored user, in order |
| `UserService.UserServiceServer.constructor` | user-service/service/user_service.go:21-23 | the server uses the given store |
| `UserService.UserServiceServer.CreateUser` | user-service/service/user_service.go:25-48 | an empty name or email → InvalidArgument and the store untouched; store failure → Internal; else one new row |
| `UserService.UserServiceServer.GetUser` | user-service/service/user_service.go:50-65 | NoRows → NotFound, any other failure → Internal, else the stored user |
| `UserService.UserServiceServer.UpdateUser` | user-service/service/user_service.go:67-102 | NotFound when absent; each field takes the request value if non-empty and keeps the stored one if empty; other rows unchanged |
| `UserService.UserServiceServer.DeleteUser` | user-service/service/user_service.go:104-119 | NoRows → NotFound; success → Success=true and exactly that row gone |
| `UserService.UserServiceServer.ListUsers` | user-service/service/user_service.go:121-139 | Internal on failure; else the store's page in wire form with the total of all users |
| `UserService.UserServiceServer.ValidateUser` | user-service/service/user_service.go:141-160 | absent → IsValid=false, no user, no error; present → IsValid=true with that user; other failure → Internal |
| `UserService.EmptyUpdateKeepsUser` | user-service/service/user_service.go:79-91 | an update with all fields empty keeps name, email, phone and address |
| `GatewayOrders.CheckItems` | api-gateway/routes/orders.js:26-33 | all items OK → forwarded; the first bad item decides: null → 500 (TypeError), otherwise → 400 |
| `GatewayOrders.CheckCreateBody` | api-gateway/routes/orders.js:18-33 | a falsy user_id or missing/non-array/empty items → 400; forwarded exactly when user_id is truthy and every item is OK; 500 exactly when the first item that is not OK is null, 400 exactly when it is some other value |
| `GatewayOrders.ZeroQuantityRefused` | api-gateway/routes/orders.js:28 | an item with quantity 0 is refused |
| `GatewayOrders.UpperChar` | api-gateway/routes/orders.js:115 | ASCII a–z become A–Z; other characters stay |
| `GatewayOrders.Upper` | api-gateway/routes/orders.js:115 | upper-casing works character by character and keeps the length |
| `GatewayOrders.UpperIdempotent` | api-gateway/routes/orders.js:115 | upper-casing twice is upper-casing once |
| `GatewayOrders.StatusNumber` | api-gateway/routes/orders.js:7-13 | a number in 0..4 exactly when the upper-cased name is one of the five |
| `GatewayOrders.StatusNumberIgnoresCase` | api-gateway/routes/orders.js:114-116 | the lookup gives the same answer for a name and its upper-cased form |
| `GatewayOrders.ShippedLowerCase` | api-gateway/routes/orders.js:115 | "shipped" maps to 2 |
| `GatewayOrders.StatusTableMatchesService` | api-gateway/routes/orders.js:7-13 | the gateway's number for a name is the service's wire value for that status |
| `GatewayOrders.Truncate` | api-gateway/routes/orders.js:122 | `parseInt` of a number truncates toward zero |
| `GatewayOrders.ParseStatus` | api-gateway/routes/orders.js:108-123 | a missing status → 400; a string is looked up case-insensitively, an unknown name → 400; a number is passed on truncated; anything else is NaN |
| `GatewayOrders.CheckStatusRequest` | api-gateway/routes/orders.js:101-123 | a non-numeric id → 400; otherwise the status decides, as in ParseStatus |
| `GatewayOrders.ErrorStatus` | api-gateway/routes/orders.js:52-62 | gRPC code 5 → 404; every other error, including one with no code, → 500 |
| `GatewayOrders.ListErrorStatus` | api-gateway/routes/orders.js:169-175 | the list route answers 500 for every failure |
| `GatewayOrders.ServiceErrorsToHttp` | api-gateway/routes/orders.js:84-94 | NotFound from the service → 404; Internal and InvalidArgument → 500 |
| `GatewayOrders.PageDefault` | api-gateway/routes/orders.js:155 | NaN or 0 → 1; any other number, negatives included, is kept |
| `GatewayOrders.LimitDefault` | api-gateway/routes/orders.js:156 | NaN or 0 → 10; any other number is kept |
| `GatewayOrders.DefaultsThenNormalize` | api-gateway/routes/orders.js:155-158 | after the gateway defaults and the store normalisation, a non-positive page is served as page 1 and a non-positive limit as 10 |

## Findings

| source | as written | input that shows it | evidently intended | confidence | as-written member | corrected member |
|---|---|---|---|---|---|---|
| order-service/models/order.go:164 (and user-service/models/user.go:100) | `offset := (page - 1) * limit` in int32, which wraps around | page 1073741825, limit 4: offset 0, so the first page comes back; limit 2: a negative offset, which the database refuses | the offset (page-1)*limit without overflow (so such a page is empty) | not executed | `Paging.OffsetAsWritten`, `Paging.OffsetWrapsToFirstPage` | `Paging.Offset`, `Paging.PagesAdjacent` |

The two `List` methods use the corrected `Paging.Offset`.

## Left out

- Floating point: prices and totals are exact integer cents. Neither `float64` nor the `DECIMAL(10,2)` rounding is modelled.
- Timestamps are the abstract `now` of a write. Their `2006-01-02 15:04:05` formatting is left out.
- SQL text, `database/sql`, `Scan` and connections are left out. A transaction is modelled as local copies of the maps, published at commit.
- Database failures are injected faults. The two queries of one `GetByID` share a single fault. A sequence value handed out inside a rolled-back transaction stays used, as with database sequences.
- `order-service/client/user_client.go` is not part of this model. Its 5-second dial timeout and connection reuse become the `ValidationReply` input.
- `order-service/database/db.go`, both `main.go` files, `api-gateway/server.js`, `api-gateway/grpc-clients.js` and `api-gateway/routes/users.js` are not part of this model. They cover configuration, schema creation, listeners, shutdown and RPC plumbing.
- Concurrency is left out. Each handler runs as one atomic step, so the read-then-write race in `UpdateOrderStatus`/`CancelOrder` and the resulting last-writer-wins behaviour are not modelled.
- `OrderModels.OrderRepository.Create`: Go writes ids into the caller's struct in place. The model returns the updated order as a value. On failure, Go leaves the partial ids in the struct, which the model does not show; `CreateOrder` discards that struct anyway.
- `OrderService.OrderServiceServer.CreateOrder` requires that a valid reply carries the user. The Go code dereferences `user.Name`, so a nil user would panic. `UserService.UserServiceServer.ValidateUser` always supplies the user when it answers valid.
- The int32 widths of ids, quantities, the row count and `int32(len(orders))` are left out; values are unbounded. The offset is modelled both ways (see Findings). Both `List` methods use the unbounded `Paging.Offset`, so when (page-1)·limit goes past the int32 range the model returns an empty page. The program returns an earlier page or fails instead.
- `ORDER BY created_at DESC` with equal creation times may return tied rows in any order. The item query has no `ORDER BY`. The model states these orders as the SQL promises them, not as one fixed order.
- `UserModels.UserRepository.GetByEmail` promises some row with that email. The `users` schema is not part of this model, so whether emails are unique is not known.
- The constant `Message` texts of the responses (for example order_service.go:73, 115 and 188, and user_service.go:46, 100 and 116) are not modelled. Neither are the error detail strings or the `log.Printf` calls. None of them affects the stored state or the returned codes.
- Order deletion and its `ON DELETE CASCADE` are left out: no shipped code path deletes an order.
- Gateway: `parseInt`/`parseFloat` of `user_id`, `quantity` and `price` is left out, as is how responses are shaped.
- Gateway: the `isNaN(id)` checks of the get, cancel and user-orders routes are left out. Only the status route's check is modelled.
- Gateway: a missing request body is left out.
- `GatewayOrders.Upper`: only ASCII letters are upper-cased. JavaScript's `toUpperCase` also maps `ß`, `ı` and `ſ` into ASCII letters, so for example `"proceßing"` upper-cases to `"PROCESSING"`. The model does not cover this.
- `GatewayOrders.ParseStatus`: every status that is neither a string nor a number is modelled as NaN. In JavaScript, an array such as `[2]` would parse to 2. What gRPC sends for NaN is not modelled.
- `GatewayOrders.Truncate`: `parseInt` reads the number's decimal string, so a number written with an exponent (`1e21`, or `1e-7`, both of which give 1) is not truncated. This case is not modelled.
