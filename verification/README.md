# Noodle-shop order store, modelled in Dafny

The model covers the data layer of a small noodle-shop ordering system. Customers register by name.

The menu has two kinds of items ("principles"):
- main items (MAIN_PRINCIPLE);
- side items (VICE_PRINCIPLE).

Customers place orders for menu items. A single cook account (COOK) opens and closes the shop. The cook also sees the queue of orders that are neither paid nor canceled.

In the original, every operation is a Cypher statement sent to a Neo4j graph through one query runner. The model follows the same structure:

- **`QuerySession`** (`session.dfy`) models the query runner that `useNeo4jDB` builds. It is a class with:
  - the current scope (the plain session or a transaction);
  - the remembered last transaction;
  - a log of the statements sent.

  `Run` covers three things:
  - the three-valued transaction switch;
  - the empty-query call that only switches modes;
  - the mapping of a store reply to NO_RESULT, the records, or a rejection.
- **`Graph`** (`graph.dfy`) holds the nodes and edges as values:
  - `Principle`, `UserNode` (a customer or the cook), `Order` and `Use` (an ORDER→PRINCIPLE edge);
  - the views the reads return.

  It also holds the pure specification functions, with lemmas that say what they mean:
  - the count of active orders;
  - the sum of an order's prices, where an absent price absorbs the sum;
  - edge deletion;
  - the line items;
  - the start-time sorting and numbering of the queue.
- **`TextOrder`** (`text_order.dfy`) is the string order that `ORDER BY` applies to the start times, which are stored as strings. It is proved to be a total order.
- **`Shop`** (`store.dfy`) is the graph itself: a class `Store` that holds the nodes in maps keyed by uuid. It also keeps the creation order of the nodes and a sequence of edges. There is one method per exported operation. Each method changes the maps exactly as its statement changes the graph, and states the whole new state. A statement that makes a list by looping over result rows is modelled as a read-only method with a loop. That loop is proved against the specification function in `Graph`.

How failures are modelled:
- A failure the source raises on purpose (`Promise.reject('NO_RESULT in …')`) is `NotFound(op)`.
- A failure that comes from reading the rows of NO_RESULT is `NoRecords(op)`. This happens through `results[0]`, `.pop()` or `.map`.

How the code is followed where it might be read otherwise:
- `updateOrderPrice` fails for an existing order that has no item edges. Its statement returns no row, and `.pop()` is then called on NO_RESULT. The price stored in that case is still the empty sum, 0.
- `getOrderDetail` and `getQueue` fail in the same case.
- In `useNeo4jDB`, the empty-query call with an explicit mode resolves with the remembered transaction. The empty statement is still dispatched after that, because nothing returns after `resolve`. `Session.sent` records it.
- The error of `finishOrder` names `cancelOrder`, as in the source.
- `addOrder` makes one edge for each listed id that names a menu item, because its statements run concurrently. It then fails if any id names none. The order and the edges that were made are kept.

## Model

| member | source | states |
|---|---|---|
| QuerySession.ToAnswer | api/connect-neo4j.js:50-58 | The answer is NO_RESULT exactly when the store returned no record or an empty first record. Otherwise it is the records unchanged, and a first record is present. |
| QuerySession.Session.constructor | api/connect-neo4j.js:32-33 | Both scopes start as the plain session, no transaction has been begun and nothing has been sent. |
| QuerySession.Session.Run | api/connect-neo4j.js:36-60 | Mode true begins a new transaction, makes it current and remembers it. Mode false returns to the plain session and keeps the remembered transaction. No mode changes nothing. The statement is logged in the resulting scope in every case. An empty query with a mode settles with the remembered transaction; every other call settles with the mapped answer or the store's error. |
| TextOrder.LexLeReflexive | api/connect-neo4j.js:342-354 | The string order used by `ORDER BY o.startTime` is reflexive. |
| TextOrder.LexLeTotal | api/connect-neo4j.js:342-354 | Any two start times are comparable. |
| TextOrder.LexLeTransitive | api/connect-neo4j.js:342-354 | The order is transitive. |
| TextOrder.LexLeAntisymmetric | api/connect-neo4j.js:342-354 | Two strings ordered both ways are equal. |
| Graph.ActiveIsWaiting | api/connect-neo4j.js:232-264 | Canceling and paying both also finish an order. So an order that is not finished and not canceled is neither paid nor canceled: it is in the queue. |
| Graph.OccurrencesBounds | api/connect-neo4j.js:517-526 | An edge's multiplicity is at most the number of edges, and positive exactly when the edge exists. |
| Graph.CountActiveCountsActiveIds | api/connect-neo4j.js:167-173 | Counting the unfinished, uncanceled orders over the store gives the size of the set of such orders (`count(ao)`). |
| Graph.ActiveAmongWaiting | api/connect-neo4j.js:167-173 | Because paying and canceling also finish an order, every order that the queue-position count includes is in the active listing. So there are at most as many of them as queued orders. |
| Graph.CountActiveAmong | api/connect-neo4j.js:167-173 | Over any duplicate-free list of ids, the count is the number of active orders among them. |
| Graph.SumPricesDefined | api/connect-neo4j.js:221-229 | The summed price is defined exactly when every summed item has a price. One item without a price makes the order's price absent. |
| Graph.WithoutRemovesExactly | api/connect-neo4j.js:517-526 | Deleting the edges between an order and an item removes every copy of that edge and keeps every other edge as often as before. |
| Graph.DeletionSubtracts | api/connect-neo4j.js:517-526 | When the item has a price, an order's recomputed price before the deletion equals its price after the deletion plus that price times the number of deleted edges. |
| Graph.LinksCount | api/connect-neo4j.js:176-196 | After `addOrder`, the order has as many edges to an item as the item occurs in the list, and none to an id that names no item. |
| Graph.LineItemsCount | api/connect-neo4j.js:384-419 | An order's line items of a kind list each item of that kind once per edge, and items of the other kind not at all. |
| Graph.Shown | api/connect-neo4j.js:372 | A price is shown exactly when it is set and nonzero (`price || NaN`, also in getPrinciple and the menu lists), and then unchanged. |
| Graph.ShownTip | api/connect-neo4j.js:373 | The note is shown when set, and as the empty string otherwise. |
| Graph.PrincipleViewsExact | api/connect-neo4j.js:471-505 | A kind's listing contains exactly the views of the items of that kind, and nothing else. |
| Graph.PrincipleViewsOnce | api/connect-neo4j.js:471-505 | Over a duplicate-free list of ids, a kind's listing holds the view of each item of that kind exactly once, and no view of an item of the other kind. |
| Graph.Repriced | api/connect-neo4j.js:437-440 | Recomputing prices keeps the set of orders. Each chosen order gets its summed price, and every other order is unchanged. |
| Graph.IdsOfMembers | api/connect-neo4j.js:437-440 | An id is among a listing's ids exactly when some entry carries it. |
| Graph.ListingCoversWaiting | api/connect-neo4j.js:437-440 | A listing of exactly the queued orders lists the set of queued orders. All of its orders can be detailed exactly when every queued order has an item. |
| Graph.QueueDetailsIndexwise | api/connect-neo4j.js:437-440 | When every listed id names an order, the queue has one detail per listing entry: the k-th detail is that of the k-th entry's order, with the entry's ordinal. |
| Graph.QueueDetailsUnlisted | api/connect-neo4j.js:437-440 | The details of a listing do not depend on an order the listing does not contain. |
| Graph.WaitingStampsExact | api/connect-neo4j.js:342-354 | The rows of `MATCH (o:ORDER) WHERE paid=false AND canceled=false` carry each unpaid, uncanceled order exactly once, with its own start time. |
| Graph.InsertByStart | api/connect-neo4j.js:342-354 | Inserting a row adds exactly that row. |
| Graph.SortByStart | api/connect-neo4j.js:342-354 | Sorting is a permutation of the rows. |
| Graph.InsertKeepsSorted | api/connect-neo4j.js:342-354 | Inserting into a list sorted by start time keeps it sorted. |
| Graph.SortByStartSorted | api/connect-neo4j.js:342-354 | The sorted rows are ordered by start time. |
| Graph.ListingFacts | api/connect-neo4j.js:342-354 | The sorted rows are sorted. Every row is a queued order with its own start time. No order occurs twice, and no queued order is missing. |
| Graph.Ordinals | api/connect-neo4j.js:346-353 | The k-th row gets ordinal k and keeps its id and start time. |
| Graph.ActiveListingFacts | api/connect-neo4j.js:342-354 | The listing is numbered 0, 1, ... and sorted by start time. It holds exactly the orders neither paid nor canceled, each once, with its start time. |
| Shop.Store.FindCook | api/connect-neo4j.js:86-93 | Finds the cook account, or reports that there is none. |
| Shop.Store.FindCustomer | api/connect-neo4j.js:145-164 | Finds the customer with the name, or reports that there is none. |
| Shop.Store.FindPrinciple | api/connect-neo4j.js:97-140 | Finds the menu item with the kind and name, or reports that there is none. |
| Shop.Store.InitMetaData | api/connect-neo4j.js:86-93 | An existing cook is returned unchanged. Otherwise one cook, with the shop closed, is created under the new id. Nothing else changes, and there is never more than one cook. |
| Shop.Store.RegisterPrinciple | api/connect-neo4j.js:97-140 | Upsert keyed by kind and name. An existing item keeps its id, price and usedUp flag. A new item has no price and is not used up. Names stay unique per kind. |
| Shop.Store.AddMainPrinciple | api/connect-neo4j.js:97-116 | The upsert for main items. |
| Shop.Store.AddVicePrinciple | api/connect-neo4j.js:121-140 | The upsert for side items. |
| Shop.Store.AddUser | api/connect-neo4j.js:145-164 | Upsert keyed by name. A new customer has one login. A returning one keeps its id and counts one more login. Both record the login time. Names stay unique. |
| Shop.Store.CountActiveOrders | api/connect-neo4j.js:167-173 | The number of orders that are not finished and not canceled. |
| Shop.Store.PlaceOrderFor | api/connect-neo4j.js:167-173 | The order is created exactly when the user exists. It is fresh and unfinished, and its queue position is one more than the number of active orders. That position is at most one past the number of queued orders. Nothing else changes. |
| Shop.Store.AddOrder | api/connect-neo4j.js:176-196 | The order belongs to the user, or to the cook account (created if missing) when the user is unknown. It gets one edge per listed id that names an item, in list order. It resolves with the list exactly when every id names an item. |
| Shop.Store.LinksFor | api/connect-neo4j.js:180-195 | The edges that the per-item statements create, and whether every listed id named an item. |
| Shop.Store.SetPriceOfPrinciple | api/connect-neo4j.js:208-217 | Sets or clears one item's price. It fails when the item is unknown. |
| Shop.Store.UpdateOrderPrice | api/connect-neo4j.js:221-229 | The order's price becomes the sum over its edges of the items' prices. It resolves with that sum when the order exists and has an edge, and fails otherwise. |
| Shop.Store.SetOrderPrice | api/connect-neo4j.js:223 | Replaces one order's price and keeps everything else. |
| Shop.Store.SumLinkedPrices | api/connect-neo4j.js:221-229 | The running sum equals the specified total, and the row count equals the number of edges. |
| Shop.Store.CancelOrder | api/connect-neo4j.js:232-240 | Marks the order canceled and finished, or fails when it is unknown. |
| Shop.Store.FinishOrder | api/connect-neo4j.js:245-253 | Marks the order finished and leaves every order's canceled flag alone, or fails when it is unknown. |
| Shop.Store.PaidOrder | api/connect-neo4j.js:256-264 | Marks the order paid and finished, or fails when it is unknown. |
| Shop.Store.SetOrderTip | api/connect-neo4j.js:268-277 | Sets the order's note, or removes it when the note given is null. Fails when the order is unknown. |
| Shop.Store.SetUsedUp | api/connect-neo4j.js:280-299 | Sets one item's usedUp flag, or fails naming the operation. |
| Shop.Store.UsedUpPrinciple | api/connect-neo4j.js:280-288 | Marks one item sold out, or fails when it is unknown. |
| Shop.Store.RewindPrinciple | api/connect-neo4j.js:291-299 | Makes one item available, or fails when it is unknown. |
| Shop.Store.SetAllUsedUp | api/connect-neo4j.js:302-315 | Sets the flag on every item and changes nothing else. Answers with every item's id. |
| Shop.Store.RewindAllPrinciples | api/connect-neo4j.js:302-307 | Every item becomes available. |
| Shop.Store.UsedUpAllPrinciples | api/connect-neo4j.js:310-315 | Every item becomes sold out. |
| Shop.Store.SetShopOpen | api/connect-neo4j.js:318-330 | Sets the cook's flag and answers with the cook's id. Gives NO_RESULT when there is no cook. |
| Shop.Store.ShopClose | api/connect-neo4j.js:318-322 | Closes the shop. |
| Shop.Store.ShopOpen | api/connect-neo4j.js:325-330 | Opens the shop, then makes every item available. The second step happens even when there is no cook. |
| Shop.Store.GetActiveOrder | api/connect-neo4j.js:342-354 | Every order neither paid nor canceled, each exactly once, with its start time. Sorted by start time and numbered 0, 1, .... |
| Shop.Store.GetPrinciple | api/connect-neo4j.js:451-466 | The item's name, flag and shown price. Fails exactly when the item is unknown. |
| Shop.Store.CollectPrinciples | api/connect-neo4j.js:471-505 | The loop that pushes each row equals the specified listing of a kind. |
| Shop.Store.GetPrincipleList | api/connect-neo4j.js:471-505 | The main list and the side list each hold exactly the views of that kind's items, each exactly once, in the store's row order. |
| Shop.Store.GetCookMetaData | api/connect-neo4j.js:423-434 | Resolves with the cook's shopOpen flag exactly when there is a cook. |
| Shop.Store.CollectLineItems | api/connect-neo4j.js:384-419 | The loop that pushes each row equals the specified line items. |
| Shop.Store.GetOrderDetail | api/connect-neo4j.js:359-420 | Recomputes the order's price. It fails exactly when the recomputation fails. Otherwise it returns the order's fields and the owner's name (none for the cook). It also returns the shown price and note, and the main and side items per edge. |
| Shop.Store.GetQueue | api/connect-neo4j.js:437-440 | Recomputes the price of every queued order and changes nothing else. It fails exactly when some queued order has no item. Otherwise it returns one detail per entry of the active listing, in listing order: the k-th detail has the k-th entry's id and ordinal k. |
| Shop.Store.DetailEach | api/connect-neo4j.js:437-440 | The details of a listing of distinct orders: each listed order is repriced, and the result follows listing order. |
| Shop.Store.GetAll | api/connect-neo4j.js:442-447 | The queue, the menu lists and the cook's flag. It fails with the queue's error, or else with the cook lookup's error. |
| Shop.Store.DeletePrincipleFromOrder | api/connect-neo4j.js:517-526 | Removes every copy of the edge from the order to the item and keeps every other edge as often as before. It fails exactly when the edge occurred zero times. |
| Shop.Store.KeptEdges | api/connect-neo4j.js:517-526 | The edges the deletion leaves, and whether it matched any. |

## Left out

- The driver, its connection settings, the session object and the transaction's commit and rollback are not modelled. Each Cypher statement is an atomic change of the maps, and a transaction is only a scope label.
- Concurrency of promises is not modelled. `addOrder` (its edge statements) and `getQueue` (its `getOrderDetail` calls) start their statements together and wait with `Promise.all`. The model runs them one after another. All of them still run, and the call fails as `Promise.all` does. The interleaving order of edge creation is not captured: edges are appended in list order.
- Generated uuids (`uuid.v4()`) and the timestamps that Cypher's `timestamp()` gives inside the statements are parameters. A generated id is required to name no node. Ids are an abstract type with equality only.
- `NaN` in a shown price is rendered as an absent price. JavaScript numbers are unbounded integers here.
- `cleanNodeAndRelationships` (api/connect-neo4j.js:70-74) is an exported function that deletes every node and edge of the graph. It is not part of this model.
- The `ordinaryCookTime` and `shopOpen` parameters of `initMetaData` are unused by the source and are not modelled.
- QuerySession.Session.Run: a transaction mode that is truthy but not `true` is not modelled; the mode is an optional boolean.
- TextOrder.LexLe: compares by character code. The store's own collation of strings is not modelled beyond that.
- Shop.Store.GetActiveOrder: orders with equal start times keep their creation order (a stable sort). The store leaves the order of such ties unspecified.
- Shop.Store.AddOrder: the error is a generic `NoRecords("addOrder")`. The message of the JavaScript TypeError is not modelled.
- Rows of a statement without `ORDER BY` come in creation order in the model: the menu lists, the usedUp-for-all answers, the line items, and the rows the queue listing sorts. The store promises no order for them. So the member contracts that name `principleIds` or `uses` order pin an order that the source leaves open. Those members are Shop.Store.GetPrincipleList, Shop.Store.CollectPrinciples, Shop.Store.SetAllUsedUp, Shop.Store.RewindAllPrinciples, Shop.Store.UsedUpAllPrinciples, Shop.Store.ShopOpen, Shop.Store.CollectLineItems and Shop.Store.GetOrderDetail. The order-free facts are stated separately: Graph.PrincipleViewsExact, Graph.PrincipleViewsOnce and Graph.LineItemsCount.
