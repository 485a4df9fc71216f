/**
 * The shop's graph as values: USER nodes (customers and the single cook),
 * PRINCIPLE nodes (menu items, main or vice), ORDER nodes with their
 * ORDERED_BY edge folded in as a field, and USE edges from an order to the
 * items it contains. The functions here are what the store's queries
 * compute (counts, sums, filters, sorting); the lemmas state what they mean.
 */
module Graph {
  import opened Wrappers
  import opened TextOrder

  /**
   * A node's `uuid` property: a generated uuid string. Nothing but equality
   * is ever asked of one, so the model keeps the type abstract.
   */
  type Id(==, 0, !new)

  datatype Kind = Main | Vice

  /** A menu item. `price` is absent until it is set. */
  datatype Principle = Principle(kind: Kind, chineseName: string, price: Option<int>, usedUp: bool)

  /** A USER node: a customer keyed by name, or the COOK account, which has no name. */
  datatype UserNode =
    | Customer(userName: string, loginTrys: nat, lastLoginTime: string)
    | Cook(shopOpen: bool)

  /** An ORDER node; `user` is the target of its ORDERED_BY edge. */
  datatype Order = Order(user: Id, startTime: string, startedQueuePos: nat,
                         finished: bool, paid: bool, canceled: bool,
                         price: Option<int>, tip: Option<string>)

  /** A USE edge from an order to a menu item: one line item. */
  datatype Use = Use(order: Id, principle: Id)

  /**
   * Why an operation fails: `NotFound` is an explicit rejection naming the
   * operation; `NoRecords` is the failure of reading a record out of a
   * NO_RESULT answer.
   */
  datatype Failure = NotFound(op: string) | NoRecords(op: string)

  /** What a registration returns: the node's id and the name registered. */
  datatype Registered = Registered(id: Id, name: string)

  datatype OrderSummary = OrderSummary(id: Id, ordinal: nat, startTime: string)

  datatype LineItem = LineItem(id: Id, chineseName: string)

  datatype OrderDetail = OrderDetail(
    id: Id, ordinal: nat, userUUID: Id, userName: Option<string>, startTime: string,
    finished: bool, canceled: bool, paid: bool, price: Option<int>, tip: string,
    mainPrinciples: seq<LineItem>, vicePrinciples: seq<LineItem>)

  datatype PrincipleView = PrincipleView(id: Id, chineseName: string, usedUp: bool, price: Option<int>)

  datatype PrincipleLists = PrincipleLists(mainPrinciples: seq<PrincipleView>, vicePrinciples: seq<PrincipleView>)

  /** An order as the queue-position count sees it: neither finished nor canceled. */
  predicate Active(o: Order) { !o.finished && !o.canceled }

  /** An order as the active-queue listing sees it: neither paid nor canceled. */
  predicate Waiting(o: Order) { !o.paid && !o.canceled }

  /** The flag combinations the operations can reach: paid or canceled implies finished. */
  predicate Consistent(o: Order) { (o.paid || o.canceled) ==> o.finished }

  /** An order the queue-position count includes is also in the listing. */
  lemma ActiveIsWaiting(o: Order)
    requires Consistent(o) && Active(o)
    ensures Waiting(o)
  {
  }

  // ----- collections of ids -----

  predicate Distinct<T(==)>(s: seq<T>)
  {
    forall i, j :: 0 <= i < j < |s| ==> s[i] != s[j]
  }

  /** `s` lists every key of a map exactly once. */
  ghost predicate Indexes(s: seq<Id>, keys: set<Id>)
  {
    Distinct(s) && (forall id :: id in s <==> id in keys)
  }

  lemma DistinctSnoc(s: seq<Id>, x: Id)
    requires Distinct(s) && x !in s
    ensures Distinct(s + [x])
  {
  }

  /** How many times `x` occurs in `s`. */
  function Occurrences<T(==)>(s: seq<T>, x: T): nat
  {
    if |s| == 0 then 0
    else Occurrences(s[..|s| - 1], x) + (if s[|s| - 1] == x then 1 else 0)
  }

  /** `x` occurs a positive number of times, at most `|s|`, exactly when it is in `s`. */
  lemma {:induction false} OccurrencesBounds<T>(s: seq<T>, x: T)
    ensures Occurrences(s, x) <= |s|
    ensures Occurrences(s, x) > 0 <==> x in s
  {
    if |s| > 0 {
      var init := s[..|s| - 1];
      OccurrencesBounds(init, x);
      assert s == init + [s[|s| - 1]];
    }
  }

  lemma OccurrencesSnoc<T>(s: seq<T>, y: T, x: T)
    ensures Occurrences(s + [y], x) == Occurrences(s, x) + (if y == x then 1 else 0)
  {
    assert (s + [y])[..|s|] == s;
  }

  // ----- uniqueness of MERGE keys -----

  predicate HasCook(users: map<Id, UserNode>)
  {
    exists id :: id in users && users[id].Cook?
  }

  predicate HasCustomer(users: map<Id, UserNode>, name: string)
  {
    exists id :: id in users && users[id].Customer? && users[id].userName == name
  }

  predicate HasPrinciple(principles: map<Id, Principle>, kind: Kind, name: string)
  {
    exists id :: id in principles && principles[id].kind == kind && principles[id].chineseName == name
  }

  predicate UniqueCook(users: map<Id, UserNode>)
  {
    forall a, b :: a in users && b in users && users[a].Cook? && users[b].Cook? ==> a == b
  }

  predicate UniqueCustomerNames(users: map<Id, UserNode>)
  {
    forall a, b ::
      (a in users && b in users && users[a].Customer? && users[b].Customer? &&
       users[a].userName == users[b].userName) ==> a == b
  }

  predicate UniquePrincipleKeys(principles: map<Id, Principle>)
  {
    forall a, b ::
      (a in principles && b in principles && principles[a].kind == principles[b].kind &&
       principles[a].chineseName == principles[b].chineseName) ==> a == b
  }

  // ----- queue position -----

  /** The number of active orders among `ids`, counted in order, as the store's `count(ao)`. */
  function CountActive(ids: seq<Id>, orders: map<Id, Order>): nat
  {
    if |ids| == 0 then 0
    else CountActive(ids[..|ids| - 1], orders) +
         (if ids[|ids| - 1] in orders && Active(orders[ids[|ids| - 1]]) then 1 else 0)
  }

  ghost function ActiveIds(orders: map<Id, Order>): set<Id>
  {
    set id | id in orders && Active(orders[id])
  }

  /** Counting over a list that holds each order once gives the number of active orders. */
  lemma {:induction false} CountActiveCountsActiveIds(ids: seq<Id>, orders: map<Id, Order>)
    requires Indexes(ids, orders.Keys)
    ensures CountActive(ids, orders) == |ActiveIds(orders)|
  {
    CountActiveAmong(ids, orders);
    assert (set id | id in orders && Active(orders[id]) && id in ids) == ActiveIds(orders);
  }

  lemma {:induction false} CountActiveAmong(ids: seq<Id>, orders: map<Id, Order>)
    requires Distinct(ids)
    ensures CountActive(ids, orders) == |set id | id in orders && Active(orders[id]) && id in ids|
  {
    if |ids| > 0 {
      var init, x := ids[..|ids| - 1], ids[|ids| - 1];
      assert ids == init + [x];
      assert Distinct(init);
      CountActiveAmong(init, orders);
      var before := set id | id in orders && Active(orders[id]) && id in init;
      var after := set id | id in orders && Active(orders[id]) && id in ids;
      assert x !in before;
      if x in orders && Active(orders[x]) {
        assert after == before + {x};
        assert |after| == |before| + 1;
        assert CountActive(ids, orders) == CountActive(init, orders) + 1;
      } else {
        assert after == before;
        assert CountActive(ids, orders) == CountActive(init, orders);
      }
    }
  }

  /**
   * Every order the queue-position count includes is in the active listing,
   * so a new order's position is at most one past the listing's length.
   */
  lemma {:induction false} ActiveAmongWaiting(orders: map<Id, Order>)
    requires forall id :: id in orders ==> Consistent(orders[id])
    ensures ActiveIds(orders) <= set id | id in orders && Waiting(orders[id])
    ensures |ActiveIds(orders)| <= |set id | id in orders && Waiting(orders[id])|
  {
    var active := ActiveIds(orders);
    var waiting := set id | id in orders && Waiting(orders[id]);
    forall id | id in active
      ensures id in waiting
    {
      ActiveIsWaiting(orders[id]);
    }
    assert waiting == active + (waiting - active);
  }

  // ----- price totals -----

  /** The store's `+` on an optional number: absent if either side is absent. */
  function AddPrice(a: Option<int>, b: Option<int>): Option<int>
  {
    if a.Some? && b.Some? then Some(a.value + b.value) else None
  }

  /** The running total of a list of prices, starting from 0. */
  function SumPrices(ps: seq<Option<int>>): Option<int>
  {
    if |ps| == 0 then Some(0)
    else AddPrice(SumPrices(ps[..|ps| - 1]), ps[|ps| - 1])
  }

  /** An absent price absorbs the sum: the total is present exactly when every price is. */
  lemma {:induction false} SumPricesDefined(ps: seq<Option<int>>)
    ensures SumPrices(ps).Some? <==> forall i :: 0 <= i < |ps| ==> ps[i].Some?
  {
    if |ps| > 0 {
      var init := ps[..|ps| - 1];
      SumPricesDefined(init);
      assert forall i :: 0 <= i < |init| ==> init[i] == ps[i];
    }
  }

  lemma SumPricesSnoc(ps: seq<Option<int>>, p: Option<int>)
    ensures SumPrices(ps + [p]) == AddPrice(SumPrices(ps), p)
  {
    assert (ps + [p])[..|ps|] == ps;
  }

  /** One price per USE edge of order `o`, in edge order (the rows of `MATCH (o)-->(p:PRINCIPLE)`). */
  function LinkedPrices(uses: seq<Use>, o: Id, principles: map<Id, Principle>): seq<Option<int>>
  {
    if |uses| == 0 then []
    else
      var rest := LinkedPrices(uses[..|uses| - 1], o, principles);
      var e := uses[|uses| - 1];
      if e.order == o && e.principle in principles then rest + [principles[e.principle].price] else rest
  }

  /** The order's total: the sum over its USE edges, one term per edge. */
  function Total(uses: seq<Use>, o: Id, principles: map<Id, Principle>): Option<int>
  {
    SumPrices(LinkedPrices(uses, o, principles))
  }

  /** The USE edges that remain once every edge from `o` to `p` is deleted. */
  function Without(uses: seq<Use>, o: Id, p: Id): seq<Use>
  {
    if |uses| == 0 then []
    else
      var rest := Without(uses[..|uses| - 1], o, p);
      var e := uses[|uses| - 1];
      if e == Use(o, p) then rest else rest + [e]
  }

  /** Deleting the edges from `o` to `p` removes exactly those edges and keeps every other one. */
  lemma {:induction false} WithoutRemovesExactly(uses: seq<Use>, o: Id, p: Id, e: Use)
    ensures Occurrences(Without(uses, o, p), e) == if e == Use(o, p) then 0 else Occurrences(uses, e)
  {
    if |uses| > 0 {
      var init, last := uses[..|uses| - 1], uses[|uses| - 1];
      WithoutRemovesExactly(init, o, p, e);
      var rest := Without(init, o, p);
      assert uses == init + [last];
      OccurrencesSnoc(init, last, e);
      if last != Use(o, p) {
        OccurrencesSnoc(rest, last, e);
      }
    }
  }

  /**
   * A line item's share of the total: the total before deleting the `k`
   * edges from `o` to `p` is the total after it plus `k` times `p`'s price.
   */
  lemma {:induction false} DeletionSubtracts(uses: seq<Use>, o: Id, p: Id, principles: map<Id, Principle>)
    requires p in principles && principles[p].price.Some?
    ensures Total(uses, o, principles) ==
            AddPrice(Total(Without(uses, o, p), o, principles),
                     Some(Occurrences(uses, Use(o, p)) * principles[p].price.value))
  {
    if |uses| > 0 {
      var init, e := uses[..|uses| - 1], uses[|uses| - 1];
      assert uses == init + [e];
      DeletionSubtracts(init, o, p, principles);
      if e == Use(o, p) {
        DeletionStepOnDeleted(init, o, p, principles);
      } else {
        DeletionStepOnKept(init, e, o, p, principles);
      }
    }
  }

  lemma AddPriceSwap(a: Option<int>, b: Option<int>, c: Option<int>)
    ensures AddPrice(AddPrice(a, b), c) == AddPrice(AddPrice(a, c), b)
  {
  }

  lemma LinkedPricesSnoc(init: seq<Use>, e: Use, o: Id, principles: map<Id, Principle>)
    ensures LinkedPrices(init + [e], o, principles) ==
      if e.order == o && e.principle in principles then LinkedPrices(init, o, principles) + [principles[e.principle].price]
      else LinkedPrices(init, o, principles)
  {
    assert (init + [e])[..|init|] == init;
  }

  lemma WithoutSnoc(init: seq<Use>, e: Use, o: Id, p: Id)
    ensures Without(init + [e], o, p) == if e == Use(o, p) then Without(init, o, p) else Without(init, o, p) + [e]
  {
    assert (init + [e])[..|init|] == init;
  }

  /** The inductive step of DeletionSubtracts when the last edge is one of the deleted ones. */
  lemma DeletionStepOnDeleted(init: seq<Use>, o: Id, p: Id, principles: map<Id, Principle>)
    requires p in principles && principles[p].price.Some?
    requires Total(init, o, principles) ==
             AddPrice(Total(Without(init, o, p), o, principles),
                      Some(Occurrences(init, Use(o, p)) * principles[p].price.value))
    ensures Total(init + [Use(o, p)], o, principles) ==
            AddPrice(Total(Without(init + [Use(o, p)], o, p), o, principles),
                     Some(Occurrences(init + [Use(o, p)], Use(o, p)) * principles[p].price.value))
  {
    var v := principles[p].price.value;
    var lp := LinkedPrices(init, o, principles);
    LinkedPricesSnoc(init, Use(o, p), o, principles);
    SumPricesSnoc(lp, Some(v));
    WithoutSnoc(init, Use(o, p), o, p);
    OccurrencesSnoc(init, Use(o, p), Use(o, p));
    ShareSucc(Total(Without(init, o, p), o, principles),
              Occurrences(init + [Use(o, p)], Use(o, p)), Occurrences(init, Use(o, p)), v);
  }

  /** The inductive step of DeletionSubtracts when the last edge is kept. */
  lemma DeletionStepOnKept(init: seq<Use>, e: Use, o: Id, p: Id, principles: map<Id, Principle>)
    requires e != Use(o, p)
    requires p in principles && principles[p].price.Some?
    requires Total(init, o, principles) ==
             AddPrice(Total(Without(init, o, p), o, principles),
                      Some(Occurrences(init, Use(o, p)) * principles[p].price.value))
    ensures Total(init + [e], o, principles) ==
            AddPrice(Total(Without(init + [e], o, p), o, principles),
                     Some(Occurrences(init + [e], Use(o, p)) * principles[p].price.value))
  {
    var m := Occurrences(init, Use(o, p)) * principles[p].price.value;
    OccurrencesSnoc(init, e, Use(o, p));
    var w := Without(init, o, p);
    WithoutSnoc(init, e, o, p);
    LinkedPricesSnoc(init, e, o, principles);
    LinkedPricesSnoc(w, e, o, principles);
    if e.order == o && e.principle in principles {
      var q := principles[e.principle].price;
      SumPricesSnoc(LinkedPrices(init, o, principles), q);
      SumPricesSnoc(LinkedPrices(w, o, principles), q);
      AddPriceSwap(Total(w, o, principles), Some(m), q);
    }
  }

  /** One more edge adds one more price to an item's share. */
  lemma ShareSucc(t: Option<int>, n: int, k: int, v: int)
    requires n == k + 1
    ensures AddPrice(AddPrice(t, Some(k * v)), Some(v)) == AddPrice(t, Some(n * v))
  {
    assert n * v == k * v + v;
  }

  // ----- line items -----

  /** The USE edges `addOrder` creates: one per listed id that names a menu item, in list order. */
  function Links(o: Id, list: seq<Id>, principles: map<Id, Principle>): seq<Use>
  {
    if |list| == 0 then []
    else
      var rest := Links(o, list[..|list| - 1], principles);
      var p := list[|list| - 1];
      if p in principles then rest + [Use(o, p)] else rest
  }

  /** A repeated id in the list gives repeated edges; an unknown id gives none. */
  lemma {:induction false} LinksCount(o: Id, list: seq<Id>, principles: map<Id, Principle>, p: Id)
    ensures Occurrences(Links(o, list, principles), Use(o, p)) ==
            if p in principles then Occurrences(list, p) else 0
  {
    if |list| > 0 {
      var init, q := list[..|list| - 1], list[|list| - 1];
      LinksCount(o, init, principles, p);
      var rest := Links(o, init, principles);
      assert list == init + [q];
      OccurrencesSnoc(init, q, p);
      if q in principles {
        OccurrencesSnoc(rest, Use(o, q), Use(o, p));
      }
    }
  }

  /** The line items of order `o` of one kind, one per USE edge, in edge order. */
  function LineItems(uses: seq<Use>, o: Id, kind: Kind, principles: map<Id, Principle>): seq<LineItem>
  {
    if |uses| == 0 then []
    else
      var rest := LineItems(uses[..|uses| - 1], o, kind, principles);
      var e := uses[|uses| - 1];
      if e.order == o && e.principle in principles && principles[e.principle].kind == kind
      then rest + [LineItem(e.principle, principles[e.principle].chineseName)]
      else rest
  }

  lemma LineItemsSnoc(init: seq<Use>, e: Use, o: Id, kind: Kind, principles: map<Id, Principle>)
    ensures LineItems(init + [e], o, kind, principles) ==
      if e.order == o && e.principle in principles && principles[e.principle].kind == kind
      then LineItems(init, o, kind, principles) + [LineItem(e.principle, principles[e.principle].chineseName)]
      else LineItems(init, o, kind, principles)
  {
    assert (init + [e])[..|init|] == init;
  }

  /**
   * Each menu item of the right kind appears in the order's list as often
   * as there are edges to it; items of the other kind do not appear.
   */
  lemma {:induction false} LineItemsCount(uses: seq<Use>, o: Id, kind: Kind, principles: map<Id, Principle>, p: Id)
    requires p in principles
    ensures Occurrences(LineItems(uses, o, kind, principles), LineItem(p, principles[p].chineseName)) ==
            if principles[p].kind == kind then Occurrences(uses, Use(o, p)) else 0
  {
    if |uses| > 0 {
      var init, e := uses[..|uses| - 1], uses[|uses| - 1];
      assert uses == init + [e];
      LineItemsCount(init, o, kind, principles, p);
      LineItemsCountStep(init, e, o, kind, principles, p);
    }
  }

  lemma LineItemsCountStep(init: seq<Use>, e: Use, o: Id, kind: Kind, principles: map<Id, Principle>, p: Id)
    requires p in principles
    requires Occurrences(LineItems(init, o, kind, principles), LineItem(p, principles[p].chineseName)) ==
             if principles[p].kind == kind then Occurrences(init, Use(o, p)) else 0
    ensures Occurrences(LineItems(init + [e], o, kind, principles), LineItem(p, principles[p].chineseName)) ==
            if principles[p].kind == kind then Occurrences(init + [e], Use(o, p)) else 0
  {
    var target := LineItem(p, principles[p].chineseName);
    var rest := LineItems(init, o, kind, principles);
    LineItemsSnoc(init, e, o, kind, principles);
    OccurrencesSnoc(init, e, Use(o, p));
    if e.order == o && e.principle in principles && principles[e.principle].kind == kind {
      var item := LineItem(e.principle, principles[e.principle].chineseName);
      OccurrencesSnoc(rest, item, target);
      assert (item == target) == (e == Use(o, p));
    } else {
      assert principles[p].kind == kind ==> e != Use(o, p);
    }
  }

  // ----- read views -----

  /** A price as the views show it: absent when it is missing or 0 (the source's `|| NaN`). */
  function Shown(price: Option<int>): (r: Option<int>)
    ensures r.Some? <==> price.Some? && price.value != 0
    ensures r.Some? ==> r == price
  {
    if price == Some(0) then None else price
  }

  /** A tip as the views show it: the empty string when it is missing. */
  function ShownTip(tip: Option<string>): (r: string)
    ensures tip.Some? ==> r == tip.value
    ensures tip.None? ==> r == ""
  {
    tip.GetOr("")
  }

  function ViewOf(id: Id, p: Principle): PrincipleView
  {
    PrincipleView(id, p.chineseName, p.usedUp, Shown(p.price))
  }

  /** The listing of one kind of menu item, in store order. */
  function PrincipleViews(ids: seq<Id>, principles: map<Id, Principle>, kind: Kind): seq<PrincipleView>
  {
    if |ids| == 0 then []
    else
      var rest := PrincipleViews(ids[..|ids| - 1], principles, kind);
      var id := ids[|ids| - 1];
      if id in principles && principles[id].kind == kind then rest + [ViewOf(id, principles[id])] else rest
  }

  /** The listing holds exactly the views of the menu items of that kind. */
  lemma {:induction false} PrincipleViewsExact(ids: seq<Id>, principles: map<Id, Principle>, kind: Kind)
    ensures forall v :: v in PrincipleViews(ids, principles, kind) ==>
              v.id in ids && v.id in principles && principles[v.id].kind == kind && v == ViewOf(v.id, principles[v.id])
    ensures forall id :: id in ids && id in principles && principles[id].kind == kind ==>
              ViewOf(id, principles[id]) in PrincipleViews(ids, principles, kind)
  {
    if |ids| > 0 {
      var init, last := ids[..|ids| - 1], ids[|ids| - 1];
      PrincipleViewsExact(init, principles, kind);
      assert ids == init + [last];
    }
  }

  /** Over a duplicate-free id list, each menu item of the kind is listed exactly once, and no other item is. */
  lemma {:induction false} PrincipleViewsOnce(ids: seq<Id>, principles: map<Id, Principle>, kind: Kind, id: Id)
    requires Distinct(ids) && id in principles
    ensures Occurrences(PrincipleViews(ids, principles, kind), ViewOf(id, principles[id])) ==
            if id in ids && principles[id].kind == kind then 1 else 0
  {
    if |ids| > 0 {
      var init, last := ids[..|ids| - 1], ids[|ids| - 1];
      assert ids == init + [last];
      assert Distinct(init);
      PrincipleViewsOnce(init, principles, kind, id);
      var rest := PrincipleViews(init, principles, kind);
      if last in principles && principles[last].kind == kind {
        OccurrencesSnoc(rest, ViewOf(last, principles[last]), ViewOf(id, principles[id]));
      }
      assert last == id ==> id !in init;
    }
  }

  /** The detail view of an order, from its node, its owner and its line items. */
  function DetailOf(id: Id, ordinal: nat, o: Order, users: map<Id, UserNode>,
                    uses: seq<Use>, principles: map<Id, Principle>): OrderDetail
  {
    var userName := if o.user in users && users[o.user].Customer? then Some(users[o.user].userName) else None;
    OrderDetail(id, ordinal, o.user, userName, o.startTime,
                o.finished, o.canceled, o.paid, Shown(o.price), ShownTip(o.tip),
                LineItems(uses, id, Main, principles), LineItems(uses, id, Vice, principles))
  }

  /** The orders after the price of each order in `ids` is recomputed. */
  function Repriced(orders: map<Id, Order>, ids: set<Id>, uses: seq<Use>, principles: map<Id, Principle>)
    : (r: map<Id, Order>)
    ensures r.Keys == orders.Keys
    ensures forall id :: id in ids && id in orders ==> r[id] == orders[id].(price := Total(uses, id, principles))
    ensures forall id :: id !in ids && id in orders ==> r[id] == orders[id]
  {
    map id | id in orders :: if id in ids then orders[id].(price := Total(uses, id, principles)) else orders[id]
  }

  /** Recomputing one more order's price extends the set of recomputed orders by it. */
  lemma RepricedStep(orders: map<Id, Order>, ids: set<Id>, id: Id, uses: seq<Use>, principles: map<Id, Principle>)
    requires id in orders
    ensures var m := Repriced(orders, ids, uses, principles);
      m[id := m[id].(price := Total(uses, id, principles))] == Repriced(orders, ids + {id}, uses, principles)
  {
    var m := Repriced(orders, ids, uses, principles);
    var m' := m[id := m[id].(price := Total(uses, id, principles))];
    assert m'.Keys == Repriced(orders, ids + {id}, uses, principles).Keys;
  }

  /** The ids of a listing, as a set. */
  function IdsOf(listing: seq<OrderSummary>): set<Id>
  {
    if |listing| == 0 then {} else IdsOf(listing[..|listing| - 1]) + {listing[|listing| - 1].id}
  }

  /** An id is in `IdsOf(listing)` exactly when some entry of the listing carries it. */
  lemma {:induction false} IdsOfMembers(listing: seq<OrderSummary>, id: Id)
    ensures id in IdsOf(listing) <==> exists k :: 0 <= k < |listing| && listing[k].id == id
  {
    if |listing| > 0 {
      var init := listing[..|listing| - 1];
      IdsOfMembers(init, id);
      if exists k :: 0 <= k < |init| && init[k].id == id {
        var k :| 0 <= k < |init| && init[k].id == id;
        assert listing[k].id == id;
      }
      if exists k :: 0 <= k < |listing| && listing[k].id == id {
        var k :| 0 <= k < |listing| && listing[k].id == id;
        if k < |init| {
          assert init[k].id == id;
        }
      }
    }
  }

  /** Every listed order has at least one line item with a known price row. */
  predicate AllItemized(listing: seq<OrderSummary>, uses: seq<Use>, principles: map<Id, Principle>)
  {
    forall k :: 0 <= k < |listing| ==> |LinkedPrices(uses, listing[k].id, principles)| > 0
  }

  lemma IdsOfSnoc(listing: seq<OrderSummary>, i: nat)
    requires i < |listing|
    ensures IdsOf(listing[..i + 1]) == IdsOf(listing[..i]) + {listing[i].id}
  {
    assert listing[..i + 1][..i] == listing[..i];
  }

  lemma AllItemizedSnoc(listing: seq<OrderSummary>, i: nat, uses: seq<Use>, principles: map<Id, Principle>)
    requires i < |listing|
    ensures AllItemized(listing[..i + 1], uses, principles) <==>
      AllItemized(listing[..i], uses, principles) && |LinkedPrices(uses, listing[i].id, principles)| > 0
  {
    assert listing[..i + 1][i] == listing[i];
    assert forall k :: 0 <= k < i ==> listing[..i + 1][k] == listing[..i][k];
  }

  /**
   * A listing that holds each waiting order and nothing else names exactly the
   * waiting orders, and its orders all have items exactly when every waiting
   * order has.
   */
  lemma ListingCoversWaiting(listing: seq<OrderSummary>, orders: map<Id, Order>,
                             uses: seq<Use>, principles: map<Id, Principle>)
    requires forall k :: 0 <= k < |listing| ==> listing[k].id in orders && Waiting(orders[listing[k].id])
    requires forall id :: id in orders && Waiting(orders[id]) ==> exists k :: 0 <= k < |listing| && listing[k].id == id
    ensures IdsOf(listing) == set id | id in orders && Waiting(orders[id])
    ensures AllItemized(listing, uses, principles) <==>
      forall id :: id in orders && Waiting(orders[id]) ==> |LinkedPrices(uses, id, principles)| > 0
  {
    forall id
      ensures id in IdsOf(listing) <==> id in orders && Waiting(orders[id])
    {
      IdsOfMembers(listing, id);
    }
  }

  /** The details of the listed orders, in listing order, each with its listing ordinal. */
  function QueueDetails(listing: seq<OrderSummary>, orders: map<Id, Order>, users: map<Id, UserNode>,
                        uses: seq<Use>, principles: map<Id, Principle>): seq<OrderDetail>
  {
    if |listing| == 0 then []
    else
      var rest := QueueDetails(listing[..|listing| - 1], orders, users, uses, principles);
      var s := listing[|listing| - 1];
      if s.id in orders then rest + [DetailOf(s.id, s.ordinal, orders[s.id], users, uses, principles)] else rest
  }

  /** When every listed id names an order, the details follow the listing entry by entry. */
  lemma {:induction false} QueueDetailsIndexwise(listing: seq<OrderSummary>, orders: map<Id, Order>,
                                                 users: map<Id, UserNode>, uses: seq<Use>, principles: map<Id, Principle>)
    requires forall k :: 0 <= k < |listing| ==> listing[k].id in orders
    ensures |QueueDetails(listing, orders, users, uses, principles)| == |listing|
    ensures forall k :: 0 <= k < |listing| ==>
              QueueDetails(listing, orders, users, uses, principles)[k] ==
              DetailOf(listing[k].id, listing[k].ordinal, orders[listing[k].id], users, uses, principles)
  {
    if |listing| > 0 {
      var init := listing[..|listing| - 1];
      QueueDetailsIndexwise(init, orders, users, uses, principles);
      var rest := QueueDetails(init, orders, users, uses, principles);
      assert forall k :: 0 <= k < |init| ==> init[k] == listing[k];
    }
  }

  /** The details of a listing do not depend on an order it does not list. */
  lemma {:induction false} QueueDetailsUnlisted(listing: seq<OrderSummary>, orders: map<Id, Order>, id: Id, o: Order,
                                                users: map<Id, UserNode>, uses: seq<Use>, principles: map<Id, Principle>)
    requires id !in IdsOf(listing)
    ensures QueueDetails(listing, orders[id := o], users, uses, principles)
         == QueueDetails(listing, orders, users, uses, principles)
  {
    if |listing| > 0 {
      QueueDetailsUnlisted(listing[..|listing| - 1], orders, id, o, users, uses, principles);
    }
  }

  lemma QueueDetailsSnoc(listing: seq<OrderSummary>, i: nat, orders: map<Id, Order>, users: map<Id, UserNode>,
                         uses: seq<Use>, principles: map<Id, Principle>)
    requires i < |listing| && listing[i].id in orders
    ensures QueueDetails(listing[..i + 1], orders, users, uses, principles)
      == QueueDetails(listing[..i], orders, users, uses, principles)
         + [DetailOf(listing[i].id, listing[i].ordinal, orders[listing[i].id], users, uses, principles)]
  {
    assert listing[..i + 1][..i] == listing[..i];
  }

  // ----- the active-queue listing -----

  /** An order id with the start time it is sorted by. */
  datatype Stamped = Stamped(id: Id, startTime: string)

  predicate SortedByStart(s: seq<Stamped>)
  {
    forall i, j :: 0 <= i < j < |s| ==> LexLe(s[i].startTime, s[j].startTime)
  }

  /** The rows of `MATCH (o:ORDER {paid: FALSE, canceled: FALSE})`, in store order. */
  function WaitingStamps(ids: seq<Id>, orders: map<Id, Order>): seq<Stamped>
  {
    if |ids| == 0 then []
    else
      var rest := WaitingStamps(ids[..|ids| - 1], orders);
      var id := ids[|ids| - 1];
      if id in orders && Waiting(orders[id]) then rest + [Stamped(id, orders[id].startTime)] else rest
  }

  /** Each waiting order gives exactly one row, carrying its own start time, and nothing else does. */
  lemma {:induction false} WaitingStampsExact(ids: seq<Id>, orders: map<Id, Order>)
    requires Distinct(ids)
    ensures forall x :: x in WaitingStamps(ids, orders) ==>
              x.id in ids && x.id in orders && Waiting(orders[x.id]) && x.startTime == orders[x.id].startTime
    ensures forall id :: id in ids && id in orders && Waiting(orders[id]) ==>
              multiset(WaitingStamps(ids, orders))[Stamped(id, orders[id].startTime)] == 1
  {
    if |ids| > 0 {
      var init, last := ids[..|ids| - 1], ids[|ids| - 1];
      assert ids == init + [last];
      assert Distinct(init);
      WaitingStampsExact(init, orders);
      var rest := WaitingStamps(init, orders);
      assert last !in init;
      if last in orders && Waiting(orders[last]) {
        var st := Stamped(last, orders[last].startTime);
        assert st !in rest;
        forall id | id in ids && id in orders && Waiting(orders[id])
          ensures multiset(rest + [st])[Stamped(id, orders[id].startTime)] == 1
        {
          if id != last {
            assert id in init;
          }
        }
      }
    }
  }

  /** Insertion of one row into a list sorted by start time (before the first later-or-equal row). */
  function InsertByStart(x: Stamped, s: seq<Stamped>): (r: seq<Stamped>)
    ensures multiset(r) == multiset(s) + multiset{x}
    ensures |r| == |s| + 1
  {
    if |s| == 0 then [x]
    else if LexLe(x.startTime, s[0].startTime) then [x] + s
    else
      assert s == [s[0]] + s[1..];
      [s[0]] + InsertByStart(x, s[1..])
  }

  /** `ORDER BY startTime`: the rows rearranged. */
  function SortByStart(s: seq<Stamped>): (r: seq<Stamped>)
    ensures multiset(r) == multiset(s)
    ensures |r| == |s|
  {
    if |s| == 0 then []
    else
      assert s == [s[0]] + s[1..];
      InsertByStart(s[0], SortByStart(s[1..]))
  }

  lemma {:induction false} InsertKeepsSorted(x: Stamped, s: seq<Stamped>)
    requires SortedByStart(s)
    ensures SortedByStart(InsertByStart(x, s))
  {
    if |s| == 0 {
    } else if LexLe(x.startTime, s[0].startTime) {
      var r := [x] + s;
      forall i, j | 0 <= i < j < |r|
        ensures LexLe(r[i].startTime, r[j].startTime)
      {
        if i == 0 && j > 1 {
          LexLeTransitive(x.startTime, s[0].startTime, s[j - 1].startTime);
        }
      }
    } else {
      LexLeTotal(x.startTime, s[0].startTime);
      var t := InsertByStart(x, s[1..]);
      InsertKeepsSorted(x, s[1..]);
      var r := [s[0]] + t;
      forall i, j | 0 <= i < j < |r|
        ensures LexLe(r[i].startTime, r[j].startTime)
      {
        if i == 0 {
          var y := t[j - 1];
          assert y in multiset(t);
          if y != x {
            assert y in multiset(s[1..]);
            var k :| 0 <= k < |s[1..]| && s[1..][k] == y;
            assert s[k + 1] == y;
          }
        }
      }
    }
  }

  lemma {:induction false} SortByStartSorted(s: seq<Stamped>)
    ensures SortedByStart(SortByStart(s))
  {
    if |s| > 0 {
      SortByStartSorted(s[1..]);
      InsertKeepsSorted(s[0], SortByStart(s[1..]));
    }
  }

  lemma RepeatedEntry(s: seq<Stamped>, j: int, k: int)
    requires 0 <= j < k < |s| && s[j] == s[k]
    ensures multiset(s)[s[j]] >= 2
  {
    assert s == s[..k] + [s[k]] + s[k + 1..];
    assert s[j] in s[..k];
  }

  /** A rearrangement of stamps of waiting orders holds only stamps of waiting orders. */
  lemma StampsWaiting(w: seq<Stamped>, s: seq<Stamped>, orders: map<Id, Order>)
    requires multiset(s) == multiset(w)
    requires forall x :: x in w ==> x.id in orders && Waiting(orders[x.id]) && x.startTime == orders[x.id].startTime
    ensures forall k :: 0 <= k < |s| ==>
      s[k].id in orders && Waiting(orders[s[k].id]) && s[k].startTime == orders[s[k].id].startTime
  {
    forall k | 0 <= k < |s|
      ensures s[k].id in orders && Waiting(orders[s[k].id]) && s[k].startTime == orders[s[k].id].startTime
    {
      assert s[k] in multiset(w);
    }
  }

  /** Stamps that each occur once, one per order, name no order twice. */
  lemma StampsDistinct(w: seq<Stamped>, s: seq<Stamped>, orders: map<Id, Order>)
    requires multiset(s) == multiset(w)
    requires forall x :: x in w ==> x.id in orders && Waiting(orders[x.id]) && x.startTime == orders[x.id].startTime
    requires forall id :: id in orders && Waiting(orders[id]) ==> multiset(w)[Stamped(id, orders[id].startTime)] <= 1
    ensures forall j, k :: 0 <= j < k < |s| ==> s[j].id != s[k].id
  {
    forall j, k | 0 <= j < k < |s|
      ensures s[j].id != s[k].id
    {
      assert s[j] in multiset(w) && s[k] in multiset(w);
      if s[j].id == s[k].id {
        RepeatedEntry(s, j, k);
      }
    }
  }

  /** Every waiting order whose stamp occurs in `w` has a row in its rearrangement `s`. */
  lemma StampsComplete(w: seq<Stamped>, s: seq<Stamped>, orders: map<Id, Order>)
    requires multiset(s) == multiset(w)
    requires forall id :: id in orders && Waiting(orders[id]) ==> multiset(w)[Stamped(id, orders[id].startTime)] >= 1
    ensures forall id :: id in orders && Waiting(orders[id]) ==> exists k :: 0 <= k < |s| && s[k].id == id
  {
    forall id | id in orders && Waiting(orders[id])
      ensures exists k :: 0 <= k < |s| && s[k].id == id
    {
      var st := Stamped(id, orders[id].startTime);
      assert st in multiset(s);
      var k :| 0 <= k < |s| && s[k] == st;
    }
  }

  /**
   * The sorted listing: sorted by start time, every row a waiting order with
   * its start time, no order twice, and every waiting order present.
   */
  lemma ListingFacts(ids: seq<Id>, orders: map<Id, Order>)
    requires Indexes(ids, orders.Keys)
    ensures var s := SortByStart(WaitingStamps(ids, orders));
      && SortedByStart(s)
      && (forall k :: 0 <= k < |s| ==>
            s[k].id in orders && Waiting(orders[s[k].id]) && s[k].startTime == orders[s[k].id].startTime)
      && (forall j, k :: 0 <= j < k < |s| ==> s[j].id != s[k].id)
      && (forall id :: id in orders && Waiting(orders[id]) ==> exists k :: 0 <= k < |s| && s[k].id == id)
  {
    var w := WaitingStamps(ids, orders);
    var s := SortByStart(w);
    WaitingStampsExact(ids, orders);
    SortByStartSorted(w);
    StampsWaiting(w, s, orders);
    StampsDistinct(w, s, orders);
    StampsComplete(w, s, orders);
  }

  /** Numbers the sorted rows 0, 1, ... (the index-mapping of `getActiveOrder`). */
  function Ordinals(s: seq<Stamped>): (r: seq<OrderSummary>)
    ensures |r| == |s|
    ensures forall k :: 0 <= k < |s| ==> r[k] == OrderSummary(s[k].id, k, s[k].startTime)
  {
    seq(|s|, k requires 0 <= k < |s| => OrderSummary(s[k].id, k, s[k].startTime))
  }

  /** The numbered listing of the waiting orders among `ids`, sorted by start time. */
  function ActiveListing(ids: seq<Id>, orders: map<Id, Order>): seq<OrderSummary>
  {
    Ordinals(SortByStart(WaitingStamps(ids, orders)))
  }

  /**
   * What `getActiveOrder` promises: ordinals 0, 1, ... in listing order,
   * every entry a waiting order with its own start time, sorted by start
   * time, no order twice, and no waiting order missing.
   */
  lemma ActiveListingFacts(ids: seq<Id>, orders: map<Id, Order>)
    requires Indexes(ids, orders.Keys)
    ensures var r := ActiveListing(ids, orders);
      && (forall k :: 0 <= k < |r| ==> r[k].ordinal == k)
      && (forall k :: 0 <= k < |r| ==>
            r[k].id in orders && Waiting(orders[r[k].id]) && r[k].startTime == orders[r[k].id].startTime)
      && (forall j, k :: 0 <= j < k < |r| ==> LexLe(r[j].startTime, r[k].startTime))
      && (forall j, k :: 0 <= j < k < |r| ==> r[j].id != r[k].id)
      && (forall id :: id in orders && Waiting(orders[id]) ==> exists k :: 0 <= k < |r| && r[k].id == id)
  {
    var s := SortByStart(WaitingStamps(ids, orders));
    var r := Ordinals(s);
    ListingFacts(ids, orders);
    forall id | id in orders && Waiting(orders[id])
      ensures exists k :: 0 <= k < |r| && r[k].id == id
    {
      var k :| 0 <= k < |s| && s[k].id == id;
      assert r[k].id == id;
    }
  }
}
