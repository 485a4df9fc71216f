/**
 * The shop's store: the graph the Cypher statements act on, held in maps
 * keyed by uuid, with one method per exported operation. Each method
 * changes the maps exactly as its statement changes the graph, as one
 * atomic step.
 */
module Shop {
  import opened Wrappers
  import opened TextOrder
  import opened Graph
  import QuerySession

  class Store {
    var users: map<Id, UserNode>
    /** The USER nodes in creation order. */
    var userIds: seq<Id>
    var principles: map<Id, Principle>
    /**
     * The PRINCIPLE nodes in creation order. A statement without ORDER BY
     * is taken to return its rows in this order.
     */
    var principleIds: seq<Id>
    var orders: map<Id, Order>
    /** The ORDER nodes in creation order. */
    var orderIds: seq<Id>
    /** The USE edges in creation order; the same pair may occur more than once. */
    var uses: seq<Use>

    ghost predicate Valid()
      reads this
    {
      && Indexes(userIds, users.Keys)
      && Indexes(principleIds, principles.Keys)
      && Indexes(orderIds, orders.Keys)
      && UniqueCook(users)
      && UniqueCustomerNames(users)
      && UniquePrincipleKeys(principles)
      && (forall id :: id in orders ==> orders[id].user in users && Consistent(orders[id]))
      && (forall e :: e in uses ==> e.order in orders && e.principle in principles)
    }

    /** A generated uuid: it names no node yet. */
    predicate Fresh(id: Id)
      reads this
    {
      id !in users && id !in principles && id !in orders
    }

    constructor ()
      ensures Valid()
      ensures users == map[] && principles == map[] && orders == map[] && uses == []
    {
      users, userIds := map[], [];
      principles, principleIds := map[], [];
      orders, orderIds := map[], [];
      uses := [];
    }

    // ----- the MATCH half of the MERGE statements -----

    /** `MATCH (c:COOK)`: the cook account, if there is one. */
    method FindCook() returns (c: Option<Id>)
      requires Valid()
      ensures c.Some? ==> c.value in users && users[c.value].Cook?
      ensures c.None? <==> !HasCook(users)
    {
      var i := 0;
      while i < |userIds|
        invariant 0 <= i <= |userIds|
        invariant forall k :: 0 <= k < i ==> !users[userIds[k]].Cook?
      {
        if users[userIds[i]].Cook? {
          return Some(userIds[i]);
        }
        i := i + 1;
      }
      return None;
    }

    /** `MATCH (u:USER {userName})`: the customer with that name, if there is one. */
    method FindCustomer(name: string) returns (c: Option<Id>)
      requires Valid()
      ensures c.Some? ==> c.value in users && users[c.value].Customer? && users[c.value].userName == name
      ensures c.None? <==> !HasCustomer(users, name)
    {
      var i := 0;
      while i < |userIds|
        invariant 0 <= i <= |userIds|
        invariant forall k :: 0 <= k < i ==> !(users[userIds[k]].Customer? && users[userIds[k]].userName == name)
      {
        var u := users[userIds[i]];
        if u.Customer? && u.userName == name {
          return Some(userIds[i]);
        }
        i := i + 1;
      }
      return None;
    }

    /** `MATCH (n:PRINCIPLE :<kind> {chineseName})`: the menu item with that key, if there is one. */
    method FindPrinciple(kind: Kind, name: string) returns (c: Option<Id>)
      requires Valid()
      ensures c.Some? ==> c.value in principles && principles[c.value].kind == kind &&
                          principles[c.value].chineseName == name
      ensures c.None? <==> !HasPrinciple(principles, kind, name)
    {
      var i := 0;
      while i < |principleIds|
        invariant 0 <= i <= |principleIds|
        invariant forall k :: 0 <= k < i ==>
          !(principles[principleIds[k]].kind == kind && principles[principleIds[k]].chineseName == name)
      {
        var p := principles[principleIds[i]];
        if p.kind == kind && p.chineseName == name {
          return Some(principleIds[i]);
        }
        i := i + 1;
      }
      return None;
    }

    // ----- registration -----

    /**
     * `initMetaData`: the single cook account, created with shop closed only
     * when there is none; the id returned is the cook's.
     */
    method InitMetaData(newId: Id) returns (cookId: Id)
      requires Valid() && Fresh(newId)
      modifies this
      ensures Valid()
      ensures cookId in users && users[cookId].Cook?
      ensures old(HasCook(users)) ==>
        cookId in old(users) && users == old(users) && userIds == old(userIds)
      ensures !old(HasCook(users)) ==>
        cookId == newId && users == old(users)[newId := Cook(false)] && userIds == old(userIds) + [newId]
      ensures principles == old(principles) && principleIds == old(principleIds)
      ensures orders == old(orders) && orderIds == old(orderIds) && uses == old(uses)
    {
      var found := FindCook();
      if found.Some? {
        cookId := found.value;
      } else {
        DistinctSnoc(userIds, newId);
        users := users[newId := Cook(false)];
        userIds := userIds + [newId];
        cookId := newId;
      }
    }

    /** The MERGE shared by the two principle registrations, keyed by (kind, chineseName). */
    method RegisterPrinciple(kind: Kind, name: string, newId: Id) returns (r: Registered)
      requires Valid() && Fresh(newId)
      modifies this
      ensures Valid()
      ensures r.name == name && r.id in principles
      ensures principles[r.id].kind == kind && principles[r.id].chineseName == name
      ensures old(HasPrinciple(principles, kind, name)) ==>
        r.id in old(principles) && principles == old(principles) && principleIds == old(principleIds)
      ensures !old(HasPrinciple(principles, kind, name)) ==>
        r.id == newId && principles == old(principles)[newId := Principle(kind, name, None, false)] &&
        principleIds == old(principleIds) + [newId]
      ensures users == old(users) && userIds == old(userIds)
      ensures orders == old(orders) && orderIds == old(orderIds) && uses == old(uses)
    {
      var found := FindPrinciple(kind, name);
      if found.Some? {
        r := Registered(found.value, name);
      } else {
        DistinctSnoc(principleIds, newId);
        principles := principles[newId := Principle(kind, name, None, false)];
        principleIds := principleIds + [newId];
        r := Registered(newId, name);
      }
    }

    /** `addMainPrinciple`: registering a main item twice returns the same id and keeps its flags. */
    method AddMainPrinciple(name: string, newId: Id) returns (r: Registered)
      requires Valid() && Fresh(newId)
      modifies this
      ensures Valid()
      ensures r.name == name && r.id in principles
      ensures principles[r.id].kind == Main && principles[r.id].chineseName == name
      ensures old(HasPrinciple(principles, Main, name)) ==>
        r.id in old(principles) && principles == old(principles) && principleIds == old(principleIds)
      ensures !old(HasPrinciple(principles, Main, name)) ==>
        r.id == newId && principles == old(principles)[newId := Principle(Main, name, None, false)] &&
        principleIds == old(principleIds) + [newId]
      ensures users == old(users) && userIds == old(userIds)
      ensures orders == old(orders) && orderIds == old(orderIds) && uses == old(uses)
    {
      r := RegisterPrinciple(Main, name, newId);
    }

    /** `addVicePrinciple`: the same upsert for side items. */
    method AddVicePrinciple(name: string, newId: Id) returns (r: Registered)
      requires Valid() && Fresh(newId)
      modifies this
      ensures Valid()
      ensures r.name == name && r.id in principles
      ensures principles[r.id].kind == Vice && principles[r.id].chineseName == name
      ensures old(HasPrinciple(principles, Vice, name)) ==>
        r.id in old(principles) && principles == old(principles) && principleIds == old(principleIds)
      ensures !old(HasPrinciple(principles, Vice, name)) ==>
        r.id == newId && principles == old(principles)[newId := Principle(Vice, name, None, false)] &&
        principleIds == old(principleIds) + [newId]
      ensures users == old(users) && userIds == old(userIds)
      ensures orders == old(orders) && orderIds == old(orderIds) && uses == old(uses)
    {
      r := RegisterPrinciple(Vice, name, newId);
    }

    /**
     * `addUser`: a customer keyed by name. A new one starts with one login;
     * a returning one keeps its id and counts one more login. Either way the
     * last login time is `now`.
     */
    method AddUser(name: string, newId: Id, now: string) returns (r: Registered)
      requires Valid() && Fresh(newId)
      modifies this
      ensures Valid()
      ensures r.name == name && r.id in users
      ensures old(HasCustomer(users, name)) ==>
        r.id in old(users) && old(users[r.id]).Customer? && old(users[r.id]).userName == name &&
        users == old(users)[r.id := Customer(name, old(users[r.id]).loginTrys + 1, now)] &&
        userIds == old(userIds)
      ensures !old(HasCustomer(users, name)) ==>
        r.id == newId && users == old(users)[newId := Customer(name, 1, now)] &&
        userIds == old(userIds) + [newId]
      ensures principles == old(principles) && principleIds == old(principleIds)
      ensures orders == old(orders) && orderIds == old(orderIds) && uses == old(uses)
    {
      var found := FindCustomer(name);
      if found.Some? {
        var id := found.value;
        users := users[id := Customer(name, users[id].loginTrys + 1, now)];
        r := Registered(id, name);
      } else {
        DistinctSnoc(userIds, newId);
        users := users[newId := Customer(name, 1, now)];
        userIds := userIds + [newId];
        r := Registered(newId, name);
      }
    }

    // ----- order placement -----

    /** `count(ao)` over the active orders, read in store order. */
    method CountActiveOrders() returns (n: nat)
      requires Valid()
      ensures n == |ActiveIds(orders)|
    {
      n := 0;
      var i := 0;
      while i < |orderIds|
        invariant 0 <= i <= |orderIds|
        invariant n == CountActive(orderIds[..i], orders)
      {
        assert orderIds[..i + 1][..i] == orderIds[..i];
        var o := orders[orderIds[i]];
        if Active(o) {
          n := n + 1;
        }
        i := i + 1;
      }
      assert orderIds[..|orderIds|] == orderIds;
      CountActiveCountsActiveIds(orderIds, orders);
    }

    /**
     * `getActiveOrderByUser`: when `userId` names a USER node, a new order
     * ordered by it, not finished, paid or canceled, whose queue position is
     * one more than the number of active orders before it.
     */
    method PlaceOrderFor(userId: Id, newId: Id, now: string) returns (placed: bool)
      requires Valid() && Fresh(newId)
      modifies this
      ensures Valid()
      ensures placed <==> userId in users
      ensures placed ==>
        orders == old(orders)[newId := Order(userId, now, |ActiveIds(old(orders))| + 1,
                                              false, false, false, None, None)] &&
        orderIds == old(orderIds) + [newId]
      ensures placed ==>
        orders[newId].startedQueuePos <= |set id | id in old(orders) && Waiting(old(orders)[id])| + 1
      ensures !placed ==> orders == old(orders) && orderIds == old(orderIds)
      ensures users == old(users) && userIds == old(userIds)
      ensures principles == old(principles) && principleIds == old(principleIds) && uses == old(uses)
    {
      if userId !in users {
        return false;
      }
      ActiveAmongWaiting(orders);
      var active := CountActiveOrders();
      DistinctSnoc(orderIds, newId);
      orders := orders[newId := Order(userId, now, active + 1, false, false, false, None, None)];
      orderIds := orderIds + [newId];
      placed := true;
    }

    /**
     * `addOrder`: places an order for `userId`, or for the cook account when
     * `userId` names no user (creating the cook with `cookId` if there is
     * none), then adds one USE edge per listed id that names a menu item.
     * It resolves with the list when every id names one and fails otherwise;
     * the order and the edges that could be made stay in either case.
     */
    method AddOrder(principleList: seq<Id>, userId: Id, newId: Id, cookId: Id, now: string)
      returns (r: Result<seq<Id>, Failure>)
      requires Valid() && Fresh(newId) && Fresh(cookId) && newId != cookId
      modifies this
      ensures Valid()
      ensures newId in orders && orderIds == old(orderIds) + [newId]
      ensures orders == old(orders)[newId := Order(orders[newId].user, now, |ActiveIds(old(orders))| + 1,
                                                    false, false, false, None, None)]
      ensures userId in old(users) ==>
        orders[newId].user == userId && users == old(users) && userIds == old(userIds)
      ensures userId !in old(users) ==> users[orders[newId].user].Cook?
      ensures userId !in old(users) && old(HasCook(users)) ==>
        orders[newId].user in old(users) && users == old(users) && userIds == old(userIds)
      ensures userId !in old(users) && !old(HasCook(users)) ==>
        orders[newId].user == cookId && users == old(users)[cookId := Cook(false)] &&
        userIds == old(userIds) + [cookId]
      ensures uses == old(uses) + Links(newId, principleList, principles)
      ensures principles == old(principles) && principleIds == old(principleIds)
      ensures r == if forall k :: 0 <= k < |principleList| ==> principleList[k] in principles
                   then Ok(principleList) else Err(NoRecords("addOrder"))
    {
      var placed := PlaceOrderFor(userId, newId, now);
      if !placed {
        var cook := InitMetaData(cookId);
        placed := PlaceOrderFor(cook, newId, now);
      }
      var links, allFound := LinksFor(newId, principleList);
      uses := uses + links;
      r := if allFound then Ok(principleList) else Err(NoRecords("addOrder"));
    }

    /**
     * The loop of `addOrder` that issues one edge-creating statement per
     * listed id: the edges those statements create, and whether every one
     * of them found its menu item.
     */
    method LinksFor(orderId: Id, principleList: seq<Id>) returns (links: seq<Use>, allFound: bool)
      ensures links == Links(orderId, principleList, principles)
      ensures forall e :: e in links ==> e.order == orderId && e.principle in principles
      ensures allFound <==> forall k :: 0 <= k < |principleList| ==> principleList[k] in principles
    {
      links, allFound := [], true;
      var i := 0;
      while i < |principleList|
        invariant 0 <= i <= |principleList|
        invariant links == Links(orderId, principleList[..i], principles)
        invariant forall e :: e in links ==> e.order == orderId && e.principle in principles
        invariant allFound <==> forall k :: 0 <= k < i ==> principleList[k] in principles
      {
        assert principleList[..i + 1][..i] == principleList[..i];
        var p := principleList[i];
        if p in principles {
          links := links + [Use(orderId, p)];
        } else {
          allFound := false;
        }
        i := i + 1;
      }
      assert principleList[..|principleList|] == principleList;
    }

    // ----- price -----

    /** `setPriceOfPrinciple`: sets (or, with None, removes) a menu item's price. */
    method SetPriceOfPrinciple(id: Id, price: Option<int>) returns (r: Result<Id, Failure>)
      requires Valid()
      modifies this
      ensures Valid()
      ensures id in old(principles) ==>
        r == Ok(id) && principles == old(principles)[id := old(principles)[id].(price := price)]
      ensures id !in old(principles) ==> r == Err(NoRecords("setPriceOfPrinciple")) && principles == old(principles)
      ensures users == old(users) && userIds == old(userIds) && principleIds == old(principleIds)
      ensures orders == old(orders) && orderIds == old(orderIds) && uses == old(uses)
    {
      if id !in principles {
        return Err(NoRecords("setPriceOfPrinciple"));
      }
      principles := principles[id := principles[id].(price := price)];
      r := Ok(id);
    }

    /**
     * `updateOrderPrice`: stores as the order's price the sum of its items'
     * prices, one term per USE edge (0 with no edge, absent when an item has
     * no price), and resolves with it. With no order, or no edge, the
     * statement yields no row and the call fails.
     */
    method UpdateOrderPrice(id: Id) returns (r: Result<Option<int>, Failure>)
      requires Valid()
      modifies this
      ensures Valid()
      ensures id in old(orders) ==>
        orders == old(orders)[id := old(orders)[id].(price := Total(uses, id, principles))]
      ensures id !in old(orders) ==> orders == old(orders)
      ensures r == if id in old(orders) && |LinkedPrices(uses, id, principles)| > 0
                   then Ok(Total(uses, id, principles)) else Err(NoRecords("updateOrderPrice"))
      ensures users == old(users) && userIds == old(userIds) && orderIds == old(orderIds)
      ensures principles == old(principles) && principleIds == old(principleIds) && uses == old(uses)
    {
      if id !in orders {
        return Err(NoRecords("updateOrderPrice"));
      }
      var acc, rows := SumLinkedPrices(id);
      SetOrderPrice(id, acc);
      r := if rows > 0 then Ok(acc) else Err(NoRecords("updateOrderPrice"));
    }

    /** The `SET o.price=…` step: one order's price replaced, everything else kept. */
    method SetOrderPrice(id: Id, price: Option<int>)
      requires Valid() && id in orders
      modifies this
      ensures Valid()
      ensures orders == old(orders)[id := old(orders)[id].(price := price)]
      ensures users == old(users) && userIds == old(userIds) && orderIds == old(orderIds)
      ensures principles == old(principles) && principleIds == old(principleIds) && uses == old(uses)
    {
      orders := orders[id := orders[id].(price := price)];
      assert orders.Keys == old(orders).Keys;
    }

    /**
     * The running sum of `SET o.price=o.price+p.price`, one step per row of
     * `MATCH (o)-->(p:PRINCIPLE)`, and the number of rows.
     */
    method SumLinkedPrices(id: Id) returns (acc: Option<int>, rows: nat)
      requires Valid()
      ensures acc == Total(uses, id, principles)
      ensures rows == |LinkedPrices(uses, id, principles)|
    {
      acc, rows := Some(0), 0;
      var i := 0;
      while i < |uses|
        invariant 0 <= i <= |uses|
        invariant acc == SumPrices(LinkedPrices(uses[..i], id, principles))
        invariant rows == |LinkedPrices(uses[..i], id, principles)|
      {
        assert uses[..i + 1][..i] == uses[..i];
        var e := uses[i];
        if e.order == id {
          SumPricesSnoc(LinkedPrices(uses[..i], id, principles), principles[e.principle].price);
          acc := AddPrice(acc, principles[e.principle].price);
          rows := rows + 1;
        }
        i := i + 1;
      }
      assert uses[..|uses|] == uses;
    }

    // ----- order flags -----

    /** `cancelOrder`: marks the order canceled and finished. */
    method CancelOrder(id: Id) returns (r: Result<Id, Failure>)
      requires Valid()
      modifies this
      ensures Valid()
      ensures id in old(orders) ==>
        r == Ok(id) && orders == old(orders)[id := old(orders)[id].(canceled := true, finished := true)]
      ensures id !in old(orders) ==> r == Err(NotFound("cancelOrder")) && orders == old(orders)
      ensures users == old(users) && userIds == old(userIds) && orderIds == old(orderIds)
      ensures principles == old(principles) && principleIds == old(principleIds) && uses == old(uses)
    {
      if id !in orders {
        return Err(NotFound("cancelOrder"));
      }
      orders := orders[id := orders[id].(canceled := true, finished := true)];
      r := Ok(id);
    }

    /**
     * `finishOrder`: marks the order finished and nothing else, so a
     * canceled order stays canceled. Its failure names cancelOrder.
     */
    method FinishOrder(id: Id) returns (r: Result<Id, Failure>)
      requires Valid()
      modifies this
      ensures Valid()
      ensures id in old(orders) ==>
        r == Ok(id) && orders == old(orders)[id := old(orders)[id].(finished := true)]
      ensures id !in old(orders) ==> r == Err(NotFound("cancelOrder")) && orders == old(orders)
      ensures forall x :: x in old(orders) ==> old(orders)[x].canceled == orders[x].canceled
      ensures users == old(users) && userIds == old(userIds) && orderIds == old(orderIds)
      ensures principles == old(principles) && principleIds == old(principleIds) && uses == old(uses)
    {
      if id !in orders {
        return Err(NotFound("cancelOrder"));
      }
      orders := orders[id := orders[id].(finished := true)];
      r := Ok(id);
    }

    /** `paidOrder`: marks the order paid and finished; a canceled order stays canceled. */
    method PaidOrder(id: Id) returns (r: Result<Id, Failure>)
      requires Valid()
      modifies this
      ensures Valid()
      ensures id in old(orders) ==>
        r == Ok(id) && orders == old(orders)[id := old(orders)[id].(paid := true, finished := true)]
      ensures id !in old(orders) ==> r == Err(NotFound("paidOrder")) && orders == old(orders)
      ensures forall x :: x in old(orders) ==> old(orders)[x].canceled == orders[x].canceled
      ensures users == old(users) && userIds == old(userIds) && orderIds == old(orderIds)
      ensures principles == old(principles) && principleIds == old(principleIds) && uses == old(uses)
    {
      if id !in orders {
        return Err(NotFound("paidOrder"));
      }
      orders := orders[id := orders[id].(paid := true, finished := true)];
      r := Ok(id);
    }

    /** `setOrderTip`: sets the order's note (or, with None, removes it) and nothing else. */
    method SetOrderTip(id: Id, tip: Option<string>) returns (r: Result<Id, Failure>)
      requires Valid()
      modifies this
      ensures Valid()
      ensures id in old(orders) ==>
        r == Ok(id) && orders == old(orders)[id := old(orders)[id].(tip := tip)]
      ensures id !in old(orders) ==> r == Err(NotFound("setOrderTip")) && orders == old(orders)
      ensures forall x :: x in old(orders) ==> old(orders)[x].canceled == orders[x].canceled
      ensures users == old(users) && userIds == old(userIds) && orderIds == old(orderIds)
      ensures principles == old(principles) && principleIds == old(principleIds) && uses == old(uses)
    {
      if id !in orders {
        return Err(NotFound("setOrderTip"));
      }
      orders := orders[id := orders[id].(tip := tip)];
      r := Ok(id);
    }

    // ----- menu availability and the shop switch -----

    /** Sets one item's usedUp flag; fails naming `op` when the id names no item. */
    method SetUsedUp(id: Id, flag: bool, op: string) returns (r: Result<Id, Failure>)
      requires Valid()
      modifies this
      ensures Valid()
      ensures id in old(principles) ==>
        r == Ok(id) && principles == old(principles)[id := old(principles)[id].(usedUp := flag)]
      ensures id !in old(principles) ==> r == Err(NotFound(op)) && principles == old(principles)
      ensures users == old(users) && userIds == old(userIds) && principleIds == old(principleIds)
      ensures orders == old(orders) && orderIds == old(orderIds) && uses == old(uses)
    {
      if id !in principles {
        return Err(NotFound(op));
      }
      principles := principles[id := principles[id].(usedUp := flag)];
      r := Ok(id);
    }

    /** `usedUpPrinciple`: marks one item sold out. */
    method UsedUpPrinciple(id: Id) returns (r: Result<Id, Failure>)
      requires Valid()
      modifies this
      ensures Valid()
      ensures id in old(principles) ==>
        r == Ok(id) && principles == old(principles)[id := old(principles)[id].(usedUp := true)]
      ensures id !in old(principles) ==> r == Err(NotFound("usedUpPrinciple")) && principles == old(principles)
      ensures users == old(users) && userIds == old(userIds) && principleIds == old(principleIds)
      ensures orders == old(orders) && orderIds == old(orderIds) && uses == old(uses)
    {
      r := SetUsedUp(id, true, "usedUpPrinciple");
    }

    /** `rewindPrinciple`: makes one item available again. */
    method RewindPrinciple(id: Id) returns (r: Result<Id, Failure>)
      requires Valid()
      modifies this
      ensures Valid()
      ensures id in old(principles) ==>
        r == Ok(id) && principles == old(principles)[id := old(principles)[id].(usedUp := false)]
      ensures id !in old(principles) ==> r == Err(NotFound("rewindPrinciple")) && principles == old(principles)
      ensures users == old(users) && userIds == old(userIds) && principleIds == old(principleIds)
      ensures orders == old(orders) && orderIds == old(orderIds) && uses == old(uses)
    {
      r := SetUsedUp(id, false, "rewindPrinciple");
    }

    /** Sets every item's usedUp flag and answers with every item's id (none: the empty list). */
    method SetAllUsedUp(flag: bool) returns (ids: seq<Id>)
      requires Valid()
      modifies this
      ensures Valid()
      ensures principles.Keys == old(principles).Keys
      ensures forall id :: id in principles ==> principles[id] == old(principles)[id].(usedUp := flag)
      ensures ids == principleIds
      ensures users == old(users) && userIds == old(userIds) && principleIds == old(principleIds)
      ensures orders == old(orders) && orderIds == old(orderIds) && uses == old(uses)
    {
      principles := map id | id in principles :: principles[id].(usedUp := flag);
      ids := principleIds;
    }

    /** `rewindAllPrinciples`: every item available again. */
    method RewindAllPrinciples() returns (ids: seq<Id>)
      requires Valid()
      modifies this
      ensures Valid()
      ensures principles.Keys == old(principles).Keys
      ensures forall id :: id in principles ==> principles[id] == old(principles)[id].(usedUp := false)
      ensures ids == principleIds
      ensures users == old(users) && userIds == old(userIds) && principleIds == old(principleIds)
      ensures orders == old(orders) && orderIds == old(orderIds) && uses == old(uses)
    {
      ids := SetAllUsedUp(false);
    }

    /** `usedUpAllPrinciples`: every item sold out. */
    method UsedUpAllPrinciples() returns (ids: seq<Id>)
      requires Valid()
      modifies this
      ensures Valid()
      ensures principles.Keys == old(principles).Keys
      ensures forall id :: id in principles ==> principles[id] == old(principles)[id].(usedUp := true)
      ensures ids == principleIds
      ensures users == old(users) && userIds == old(userIds) && principleIds == old(principleIds)
      ensures orders == old(orders) && orderIds == old(orderIds) && uses == old(uses)
    {
      ids := SetAllUsedUp(true);
    }

    /** Sets the cook's shopOpen flag, answering with the cook's id or NO_RESULT when there is no cook. */
    method SetShopOpen(open: bool) returns (a: QuerySession.Answer<Id>)
      requires Valid()
      modifies this
      ensures Valid()
      ensures !old(HasCook(users)) ==> a == QuerySession.NoResult && users == old(users)
      ensures old(HasCook(users)) ==>
        a.Records? && |a.records| == 1 && a.records[0] in old(users) && old(users)[a.records[0]].Cook? &&
        users == old(users)[a.records[0] := Cook(open)]
      ensures userIds == old(userIds) && principles == old(principles) && principleIds == old(principleIds)
      ensures orders == old(orders) && orderIds == old(orderIds) && uses == old(uses)
    {
      var cook := FindCook();
      if cook.None? {
        return QuerySession.NoResult;
      }
      users := users[cook.value := Cook(open)];
      a := QuerySession.Records([cook.value]);
    }

    /** `shopClose`: closes the shop. */
    method ShopClose() returns (a: QuerySession.Answer<Id>)
      requires Valid()
      modifies this
      ensures Valid()
      ensures !old(HasCook(users)) ==> a == QuerySession.NoResult && users == old(users)
      ensures old(HasCook(users)) ==>
        a.Records? && |a.records| == 1 && a.records[0] in old(users) && old(users)[a.records[0]].Cook? &&
        users == old(users)[a.records[0] := Cook(false)]
      ensures userIds == old(userIds) && principles == old(principles) && principleIds == old(principleIds)
      ensures orders == old(orders) && orderIds == old(orderIds) && uses == old(uses)
    {
      a := SetShopOpen(false);
    }

    /**
     * `shopOpen`: opens the shop, then makes every item available again
     * (also when there is no cook) and answers with every item's id.
     */
    method ShopOpen() returns (ids: seq<Id>)
      requires Valid()
      modifies this
      ensures Valid()
      ensures !old(HasCook(users)) ==> users == old(users)
      ensures old(HasCook(users)) ==>
        exists c :: c in old(users) && old(users)[c].Cook? && users == old(users)[c := Cook(true)]
      ensures principles.Keys == old(principles).Keys
      ensures forall id :: id in principles ==> principles[id] == old(principles)[id].(usedUp := false)
      ensures ids == principleIds
      ensures userIds == old(userIds) && principleIds == old(principleIds)
      ensures orders == old(orders) && orderIds == old(orderIds) && uses == old(uses)
    {
      var a := SetShopOpen(true);
      ids := RewindAllPrinciples();
    }

    // ----- reads -----

    /**
     * `getActiveOrder`: every order neither paid nor canceled, exactly once,
     * sorted by start time (as strings), numbered 0, 1, ... in that order.
     */
    function GetActiveOrder(): (r: seq<OrderSummary>)
      reads this
      requires Valid()
      ensures forall k :: 0 <= k < |r| ==> r[k].ordinal == k
      ensures forall k :: 0 <= k < |r| ==>
        r[k].id in orders && Waiting(orders[r[k].id]) && r[k].startTime == orders[r[k].id].startTime
      ensures forall j, k :: 0 <= j < k < |r| ==> LexLe(r[j].startTime, r[k].startTime)
      ensures forall j, k :: 0 <= j < k < |r| ==> r[j].id != r[k].id
      ensures forall id :: id in orders && Waiting(orders[id]) ==> exists k :: 0 <= k < |r| && r[k].id == id
    {
      ActiveListingFacts(orderIds, orders);
      ActiveListing(orderIds, orders)
    }

    /** `getPrinciple`: one item's view; fails when the id names no item. */
    function GetPrinciple(id: Id): (r: Result<PrincipleView, Failure>)
      reads this
      ensures r.Ok? <==> id in principles
      ensures r.Ok? ==> r.value.id == id && r.value.chineseName == principles[id].chineseName &&
                        r.value.usedUp == principles[id].usedUp && r.value.price == Shown(principles[id].price)
      ensures r.Err? ==> r.error == NoRecords("getPrinciple")
    {
      if id in principles then Ok(ViewOf(id, principles[id])) else Err(NoRecords("getPrinciple"))
    }

    /** One statement of `getPrincipleList`: the items of one kind, pushed in store order. */
    method CollectPrinciples(kind: Kind) returns (views: seq<PrincipleView>)
      requires Valid()
      ensures views == PrincipleViews(principleIds, principles, kind)
    {
      views := [];
      var i := 0;
      while i < |principleIds|
        invariant 0 <= i <= |principleIds|
        invariant views == PrincipleViews(principleIds[..i], principles, kind)
      {
        assert principleIds[..i + 1][..i] == principleIds[..i];
        var id := principleIds[i];
        if principles[id].kind == kind {
          views := views + [ViewOf(id, principles[id])];
        }
        i := i + 1;
      }
      assert principleIds[..|principleIds|] == principleIds;
    }

    /** `getPrincipleList`: the main items and the side items, each listing every item of its kind. */
    method GetPrincipleList() returns (lists: PrincipleLists)
      requires Valid()
      ensures forall v :: v in lists.mainPrinciples <==>
                v.id in principles && principles[v.id].kind == Main && v == ViewOf(v.id, principles[v.id])
      ensures forall v :: v in lists.vicePrinciples <==>
                v.id in principles && principles[v.id].kind == Vice && v == ViewOf(v.id, principles[v.id])
      ensures forall id :: id in principles ==>
                Occurrences(lists.mainPrinciples, ViewOf(id, principles[id])) == if principles[id].kind == Main then 1 else 0
      ensures forall id :: id in principles ==>
                Occurrences(lists.vicePrinciples, ViewOf(id, principles[id])) == if principles[id].kind == Vice then 1 else 0
      ensures lists == PrincipleLists(PrincipleViews(principleIds, principles, Main),
                                      PrincipleViews(principleIds, principles, Vice))
    {
      var mains := CollectPrinciples(Main);
      var vices := CollectPrinciples(Vice);
      PrincipleViewsExact(principleIds, principles, Main);
      PrincipleViewsExact(principleIds, principles, Vice);
      forall id | id in principles
        ensures Occurrences(mains, ViewOf(id, principles[id])) == if principles[id].kind == Main then 1 else 0
        ensures Occurrences(vices, ViewOf(id, principles[id])) == if principles[id].kind == Vice then 1 else 0
      {
        PrincipleViewsOnce(principleIds, principles, Main, id);
        PrincipleViewsOnce(principleIds, principles, Vice, id);
      }
      lists := PrincipleLists(mains, vices);
    }

    /** `getCookMetaData`: whether the shop is open; fails when there is no cook. */
    method GetCookMetaData() returns (r: Result<bool, Failure>)
      requires Valid()
      ensures r.Ok? <==> HasCook(users)
      ensures r.Ok? ==> exists c :: c in users && users[c] == Cook(r.value)
      ensures r.Err? ==> r.error == NoRecords("getCookMetaData")
    {
      var cook := FindCook();
      if cook.None? {
        return Err(NoRecords("getCookMetaData"));
      }
      r := Ok(users[cook.value].shopOpen);
    }

    /** One line-item statement of `getOrderDetail`: the order's items of one kind, pushed in edge order. */
    method CollectLineItems(id: Id, kind: Kind) returns (items: seq<LineItem>)
      requires Valid()
      ensures items == LineItems(uses, id, kind, principles)
    {
      items := [];
      var i := 0;
      while i < |uses|
        invariant 0 <= i <= |uses|
        invariant items == LineItems(uses[..i], id, kind, principles)
      {
        assert uses[..i + 1][..i] == uses[..i];
        var e := uses[i];
        if e.order == id && principles[e.principle].kind == kind {
          items := items + [LineItem(e.principle, principles[e.principle].chineseName)];
        }
        i := i + 1;
      }
      assert uses[..|uses|] == uses;
    }

    /**
     * `getOrderDetail`: recomputes the order's price, then reads its fields,
     * its owner and its main and side items. Fails when the recomputation
     * fails: for an unknown order, and for an order without items.
     */
    method GetOrderDetail(id: Id, ordinal: nat) returns (r: Result<OrderDetail, Failure>)
      requires Valid()
      modifies this
      ensures Valid()
      ensures id in old(orders) ==>
        orders == old(orders)[id := old(orders)[id].(price := Total(uses, id, principles))]
      ensures id !in old(orders) ==> orders == old(orders)
      ensures r.Ok? <==> id in old(orders) && |LinkedPrices(uses, id, principles)| > 0
      ensures r.Err? ==> r.error == NoRecords("updateOrderPrice")
      ensures r.Ok? ==> r.value == DetailOf(id, ordinal, orders[id], users, uses, principles)
      ensures users == old(users) && userIds == old(userIds) && orderIds == old(orderIds)
      ensures principles == old(principles) && principleIds == old(principleIds) && uses == old(uses)
    {
      var priced := UpdateOrderPrice(id);
      if priced.Err? {
        return Err(priced.error);
      }
      var o := orders[id];
      var u := users[o.user];
      var userName := if u.Customer? then Some(u.userName) else None;
      var mains := CollectLineItems(id, Main);
      var vices := CollectLineItems(id, Vice);
      r := Ok(OrderDetail(id, ordinal, o.user, userName, o.startTime,
                          o.finished, o.canceled, o.paid, Shown(o.price), ShownTip(o.tip), mains, vices));
    }

    /**
     * `getQueue`: the detail of every order in the active listing, with its
     * ordinal. Every listed order's price is recomputed; the call fails when
     * a listed order has no items.
     */
    method GetQueue() returns (r: Result<seq<OrderDetail>, Failure>)
      requires Valid()
      modifies this
      ensures Valid()
      ensures orders == Repriced(old(orders), (set id | id in old(orders) && Waiting(old(orders)[id])), uses, principles)
      ensures r.Ok? <==>
        forall id :: id in old(orders) && Waiting(old(orders)[id]) ==> |LinkedPrices(uses, id, principles)| > 0
      ensures r.Err? ==> r.error == NoRecords("updateOrderPrice")
      ensures r.Ok? ==> r.value == QueueDetails(old(GetActiveOrder()), orders, users, uses, principles)
      ensures r.Ok? ==> |r.value| == |old(GetActiveOrder())|
      ensures r.Ok? ==> forall k :: 0 <= k < |r.value| ==> r.value[k].id == old(GetActiveOrder())[k].id && r.value[k].ordinal == k
      ensures users == old(users) && userIds == old(userIds) && orderIds == old(orderIds)
      ensures principles == old(principles) && principleIds == old(principleIds) && uses == old(uses)
    {
      var listing := GetActiveOrder();
      ListingCoversWaiting(listing, orders, uses, principles);
      var details, ok := DetailEach(listing);
      QueueDetailsIndexwise(listing, orders, users, uses, principles);
      if ok {
        r := Ok(details);
      } else {
        r := Err(NoRecords("updateOrderPrice"));
      }
    }

    /**
     * The detail of each listed order, each listed order's price recomputed
     * on the way; `ok` is false when some listed order has no items.
     */
    method DetailEach(listing: seq<OrderSummary>) returns (details: seq<OrderDetail>, ok: bool)
      requires Valid()
      requires forall k :: 0 <= k < |listing| ==> listing[k].id in orders
      requires forall j, k :: 0 <= j < k < |listing| ==> listing[j].id != listing[k].id
      modifies this
      decreases |listing|
      ensures Valid()
      ensures orders == Repriced(old(orders), IdsOf(listing), uses, principles)
      ensures ok <==> AllItemized(listing, uses, principles)
      ensures ok ==> details == QueueDetails(listing, orders, users, uses, principles)
      ensures users == old(users) && userIds == old(userIds) && orderIds == old(orderIds)
      ensures principles == old(principles) && principleIds == old(principleIds) && uses == old(uses)
    {
      if |listing| == 0 {
        return [], true;
      }
      var n := |listing| - 1;
      var s := listing[n];
      assert listing[..n + 1] == listing;
      IdsOfMembers(listing[..n], s.id);
      IdsOfSnoc(listing, n);
      AllItemizedSnoc(listing, n, uses, principles);
      RepricedStep(orders, IdsOf(listing[..n]), s.id, uses, principles);
      details, ok := DetailEach(listing[..n]);
      ghost var before := orders;
      var d := GetOrderDetail(s.id, s.ordinal);
      QueueDetailsSnoc(listing, n, orders, users, uses, principles);
      QueueDetailsUnlisted(listing[..n], before, s.id, orders[s.id], users, uses, principles);
      ok := ok && d.Ok?;
      if ok {
        details := details + [d.value];
      }
    }

    /** `getAll`: the queue, the menu and the cook's flag, failing with the first step that fails. */
    method GetAll() returns (r: Result<(seq<OrderDetail>, PrincipleLists, bool), Failure>)
      requires Valid()
      modifies this
      ensures Valid()
      ensures orders == Repriced(old(orders), (set id | id in old(orders) && Waiting(old(orders)[id])), uses, principles)
      ensures r.Ok? <==>
        (forall id :: id in old(orders) && Waiting(old(orders)[id]) ==> |LinkedPrices(uses, id, principles)| > 0) &&
        HasCook(users)
      ensures r.Err? ==>
        r.error == if forall id :: id in old(orders) && Waiting(old(orders)[id]) ==> |LinkedPrices(uses, id, principles)| > 0
                   then NoRecords("getCookMetaData") else NoRecords("updateOrderPrice")
      ensures r.Ok? ==> r.value.0 == QueueDetails(old(GetActiveOrder()), orders, users, uses, principles)
      ensures r.Ok? ==> r.value.1 == PrincipleLists(PrincipleViews(principleIds, principles, Main),
                                                    PrincipleViews(principleIds, principles, Vice))
      ensures r.Ok? ==> exists c :: c in users && users[c] == Cook(r.value.2)
      ensures users == old(users) && userIds == old(userIds) && orderIds == old(orderIds)
      ensures principles == old(principles) && principleIds == old(principleIds) && uses == old(uses)
    {
      var queue := GetQueue();
      if queue.Err? {
        return Err(queue.error);
      }
      var lists := GetPrincipleList();
      var cook := GetCookMetaData();
      if cook.Err? {
        return Err(cook.error);
      }
      r := Ok((queue.value, lists, cook.value));
    }

    // ----- deletion -----

    /**
     * `deletePrincipleFromOrder`: removes every edge from the order to the
     * item; fails when there is none.
     */
    method DeletePrincipleFromOrder(principleId: Id, orderId: Id) returns (r: Result<Id, Failure>)
      requires Valid()
      modifies this
      ensures Valid()
      ensures Occurrences(old(uses), Use(orderId, principleId)) > 0 ==> r == Ok(orderId)
      ensures Occurrences(old(uses), Use(orderId, principleId)) == 0 ==> r == Err(NotFound("deletePrincipleFromOrder"))
      ensures uses == Without(old(uses), orderId, principleId)
      ensures forall e :: Occurrences(uses, e) == if e == Use(orderId, principleId) then 0 else Occurrences(old(uses), e)
      ensures users == old(users) && userIds == old(userIds) && orders == old(orders) && orderIds == old(orderIds)
      ensures principles == old(principles) && principleIds == old(principleIds)
    {
      OccurrencesBounds(uses, Use(orderId, principleId));
      forall e
        ensures Occurrences(Without(uses, orderId, principleId), e) ==
                if e == Use(orderId, principleId) then 0 else Occurrences(uses, e)
      {
        WithoutRemovesExactly(uses, orderId, principleId, e);
      }
      var kept, found := KeptEdges(orderId, principleId);
      uses := kept;
      r := if found then Ok(orderId) else Err(NotFound("deletePrincipleFromOrder"));
    }

    /** The edges `MATCH (o)-[r]->(p) DELETE r` leaves, and whether it matched any. */
    method KeptEdges(orderId: Id, principleId: Id) returns (kept: seq<Use>, found: bool)
      ensures kept == Without(uses, orderId, principleId)
      ensures forall e :: e in kept ==> e in uses
      ensures found <==> Use(orderId, principleId) in uses
    {
      found, kept := false, [];
      var i := 0;
      while i < |uses|
        invariant 0 <= i <= |uses|
        invariant kept == Without(uses[..i], orderId, principleId)
        invariant forall e :: e in kept ==> e in uses
        invariant found <==> Use(orderId, principleId) in uses[..i]
      {
        assert uses[..i + 1] == uses[..i] + [uses[i]];
        if uses[i] == Use(orderId, principleId) {
          found := true;
        } else {
          kept := kept + [uses[i]];
        }
        i := i + 1;
      }
      assert uses[..|uses|] == uses;
    }
  }
}
