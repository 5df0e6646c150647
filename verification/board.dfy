/** The order board: orders filtered by the customer's name, grouped into
    one section per delivery status, each order shown with its items at that
    status and, for the first two statuses, a button that advances the order. */
module Board {

  import opened Basics
  import opened Seqs
  import opened Strings
  import opened Users

  /** An item's fulfilment status. The server sends a string; the three
      names the board knows become their own constructors, any other string
      is kept as `Other`. */
  datatype Status = ToShip | Delivery | Completed | Other(name: string)

  function StatusName(s: Status): string
  {
    match s
    case ToShip => "toship"
    case Delivery => "delivery"
    case Completed => "completed"
    case Other(n) => n
  }

  /** `Other` never carries one of the three known names. */
  predicate WellFormed(s: Status)
  {
    s.Other? ==> s.name != "toship" && s.name != "delivery" && s.name != "completed"
  }

  function ParseStatus(name: string): (s: Status)
    ensures WellFormed(s) && StatusName(s) == name
  {
    if name == "toship" then ToShip
    else if name == "delivery" then Delivery
    else if name == "completed" then Completed
    else Other(name)
  }

  /** Parsing a status's name gives the status back. */
  lemma ParseStatusName(s: Status)
    requires WellFormed(s)
    ensures ParseStatus(StatusName(s)) == s
  {
  }

  /** Two status strings are equal exactly when their parsed statuses are,
      so comparing `Status` values is comparing the server's strings. */
  lemma ParseStatusInjective(a: string, b: string)
    ensures ParseStatus(a) == ParseStatus(b) <==> a == b
  {
    assert StatusName(ParseStatus(a)) == a && StatusName(ParseStatus(b)) == b;
  }

  /** The statuses an item can carry once the server's string is parsed. */
  type KnownStatus = s: Status | WellFormed(s) witness ToShip

  /** One purchased line of an order. */
  datatype Item = Item(id: string, productName: string, quantity: int, status: KnownStatus,
                       paymentRef: string, mop: string)

  /** A customer's cart; the server may send it without a user. */
  datatype Order = Order(user: Option<User>, items: seq<Item>)

  // ---------------------------------------------------------------------------
  // Search

  predicate UserMatches(o: Order, query: string)
  {
    o.user.Some? && Matches(o.user.value.username, query)
  }

  /** `filteredOrders`: the orders with a user whose lower-cased name
      contains the lower-cased query, in fetched order. */
  function FilterOrders(orders: seq<Order>, query: string): (r: seq<Order>)
    ensures forall i :: 0 <= i < |r| ==> r[i] in orders && r[i].user.Some?
    ensures forall i :: 0 <= i < |r| ==> Matches(r[i].user.value.username, query)
    ensures forall i :: 0 <= i < |orders| && UserMatches(orders[i], query) ==> orders[i] in r
    ensures IsSubsequence(r, orders)
  {
    FilterIsSubsequence(orders, (o: Order) => UserMatches(o, query));
    Filter(orders, (o: Order) => UserMatches(o, query))
  }

  /** The search keeps every copy of a matching order and no copy of any other. */
  lemma FilterOrdersMultiset(orders: seq<Order>, query: string, x: Order)
    ensures multiset(FilterOrders(orders, query))[x] == if UserMatches(x, query) then multiset(orders)[x] else 0
  {
    FilterMultiset(orders, (o: Order) => UserMatches(o, query), x);
  }

  /** With an empty query the board shows exactly the orders that have a
      user: orders without one are dropped even then. */
  lemma {:induction false} FilterOrdersEmptyQuery(orders: seq<Order>)
    ensures FilterOrders(orders, "") == Filter(orders, (o: Order) => o.user.Some?)
    decreases |orders|
  {
    if |orders| > 0 {
      FilterOrdersEmptyQuery(orders[1..]);
      if orders[0].user.Some? {
        MatchesEmptyQuery(orders[0].user.value.username);
      }
    }
  }

  predicate HasUser(o: Order)
  {
    o.user.Some?
  }

  /** The search box's options: one per fetched order that has a user, in
      fetched order, with the user's id as value and the username as caption. */
  function SearchChoices(orders: seq<Order>): (r: seq<Choice>)
    ensures |r| == |Filter(orders, HasUser)|
    ensures forall i :: 0 <= i < |r| ==>
      var o := Filter(orders, HasUser)[i];
      o.user.Some? && r[i] == Choice(o.user.value.id, o.user.value.username)
    decreases |orders|
  {
    if |orders| == 0 then []
    else
      var rest := SearchChoices(orders[1..]);
      var tail := Filter(orders[1..], HasUser);
      if HasUser(orders[0]) then
        assert Filter(orders, HasUser) == [orders[0]] + tail;
        [Choice(orders[0].user.value.id, orders[0].user.value.username)] + rest
      else
        assert Filter(orders, HasUser) == tail;
        rest
  }

  /** Every fetched order that has a user has its option in the search box. */
  lemma SearchChoicesCoverUsers(orders: seq<Order>, k: nat)
    requires k < |orders| && orders[k].user.Some?
    ensures Choice(orders[k].user.value.id, orders[k].user.value.username) in SearchChoices(orders)
  {
    var withUser := Filter(orders, HasUser);
    assert HasUser(orders[k]);
    assert orders[k] in withUser;
    var i :| 0 <= i < |withUser| && withUser[i] == orders[k];
    assert SearchChoices(orders)[i] == Choice(orders[k].user.value.id, orders[k].user.value.username);
  }

  // ---------------------------------------------------------------------------
  // Sections

  /** `order.items.some(item => item.status === status)`. */
  predicate HasStatus(o: Order, s: Status)
  {
    exists i :: 0 <= i < |o.items| && o.items[i].status == s
  }

  /** The section for status `s`: every listed order that holds at least one
      item at `s`, in order. An order is not assigned one status; it sits in
      every section one of its items belongs to. */
  function Bucket(listed: seq<Order>, s: Status): (r: seq<Order>)
    ensures forall i :: 0 <= i < |r| ==> r[i] in listed && HasStatus(r[i], s)
    ensures forall i :: 0 <= i < |listed| && HasStatus(listed[i], s) ==> listed[i] in r
    ensures IsSubsequence(r, listed)
  {
    FilterIsSubsequence(listed, (o: Order) => HasStatus(o, s));
    Filter(listed, (o: Order) => HasStatus(o, s))
  }

  /** A section keeps every copy of a listed order with an item at `s`, and
      no copy of any other order. */
  lemma BucketMultiset(listed: seq<Order>, s: Status, x: Order)
    ensures multiset(Bucket(listed, s))[x] == if HasStatus(x, s) then multiset(listed)[x] else 0
  {
    FilterMultiset(listed, (o: Order) => HasStatus(o, s), x);
  }

  /** An order with items at two statuses appears in both sections. */
  lemma OrderInTwoBuckets(listed: seq<Order>, o: Order, a: Status, b: Status)
    requires o in listed
    requires exists i :: 0 <= i < |o.items| && o.items[i].status == a
    requires exists j :: 0 <= j < |o.items| && o.items[j].status == b
    ensures o in Bucket(listed, a) && o in Bucket(listed, b)
  {
  }

  /** The items an order lists inside the section for `s`: those at `s`, in
      their original order. */
  function ItemsAt(o: Order, s: Status): (r: seq<Item>)
    ensures forall i :: 0 <= i < |r| ==> r[i] in o.items && r[i].status == s
    ensures forall i :: 0 <= i < |o.items| && o.items[i].status == s ==> o.items[i] in r
    ensures IsSubsequence(r, o.items)
    ensures |r| > 0 <==> HasStatus(o, s)
  {
    FilterIsSubsequence(o.items, (it: Item) => it.status == s);
    Filter(o.items, (it: Item) => it.status == s)
  }

  /** An order's table in the section for `s` keeps every copy of an item at
      `s` and no copy of any other item. */
  lemma ItemsAtMultiset(o: Order, s: Status, x: Item)
    ensures multiset(ItemsAt(o, s))[x] == if x.status == s then multiset(o.items)[x] else 0
  {
    FilterMultiset(o.items, (it: Item) => it.status == s, x);
  }

  /** An order never shows an empty item table in a section. */
  lemma BucketedOrdersListItems(listed: seq<Order>, s: Status)
    ensures forall o :: o in Bucket(listed, s) ==> |ItemsAt(o, s)| > 0
  {
  }

  // ---------------------------------------------------------------------------
  // Advancing

  /** The delivery pipeline, in order. */
  const Pipeline: seq<Status> := [ToShip, Delivery, Completed]

  /** The status a section's button moves an order to: `toship` to
      `delivery`, `delivery` to `completed`; `completed` and every unknown
      status have no button. */
  function NextStatus(s: KnownStatus): (r: Option<Status>)
    ensures r.Some? <==> s == ToShip || s == Delivery
    ensures r.Some? ==> exists k :: 0 <= k < |Pipeline| - 1 && Pipeline[k] == s && Pipeline[k + 1] == r.value
  {
    match s
    case ToShip =>
      assert Pipeline[0] == ToShip && Pipeline[1] == Delivery;
      Some(Delivery)
    case Delivery =>
      assert Pipeline[1] == Delivery && Pipeline[2] == Completed;
      Some(Completed)
    case _ => None
  }

  /** Advancing only ever moves forward along the pipeline and ends at
      `completed`: two steps from `toship` reach `completed`, and no status
      advances back to `toship`. */
  lemma AdvanceIsForward(s: KnownStatus)
    ensures NextStatus(s) != Some(ToShip)
    ensures NextStatus(s).Some? ==> NextStatus(s).value != s
    ensures NextStatus(ToShip).Some? && NextStatus(NextStatus(ToShip).value) == Some(Completed)
    ensures NextStatus(Completed).None?
  {
  }

  const DeliveryPath: string := "/order/delivery"
  const CompletedPath: string := "/order/completed"

  /** The PATCH `updateOrderStatus` sends: the endpoint path and the JSON
      body `{ userId, items }`. */
  datatype AdvanceRequest = AdvanceRequest(path: string, userId: string, items: seq<string>)

  /** `updateOrderStatus`: no request without a (non-empty) user id;
      otherwise the ids of ALL the given items, in order, to the delivery
      endpoint when the target is `delivery` and to the completed endpoint
      for any other target. */
  function UpdateOrderStatus(userId: Option<string>, items: seq<Item>, target: KnownStatus): (r: Option<AdvanceRequest>)
    ensures r.None? <==> userId.None? || userId.value == ""
    ensures r.Some? ==> r.value.userId == userId.value
    ensures r.Some? ==> |r.value.items| == |items| && forall i :: 0 <= i < |items| ==> r.value.items[i] == items[i].id
    ensures r.Some? ==> (r.value.path == DeliveryPath <==> target == Delivery)
    ensures r.Some? ==> (r.value.path == CompletedPath <==> target != Delivery)
  {
    if userId.None? || userId.value == "" then None
    else
      var path := if target == Delivery then DeliveryPath else CompletedPath;
      Some(AdvanceRequest(path, userId.value, Map(items, (it: Item) => it.id)))
  }

  function UserId(o: Order): Option<string>
  {
    if o.user.Some? then Some(o.user.value.id) else None
  }

  /** Pressing the button of `o` in the section for `s`: no button in the
      `completed` (or an unknown) section, otherwise the request built from
      the order's user id and the order's whole item list. */
  function Press(o: Order, s: KnownStatus): (r: Option<AdvanceRequest>)
    ensures NextStatus(s).None? ==> r.None?
    ensures r.Some? ==> NextStatus(s).Some? && o.user.Some? && r.value.userId == o.user.value.id
  {
    match NextStatus(s)
    case None => None
    case Some(target) => UpdateOrderStatus(UserId(o), o.items, target)
  }

  /** The request sent from the `toship` section goes to the delivery
      endpoint, the one from the `delivery` section to the completed one. */
  lemma PressEndpoints(o: Order)
    requires o.user.Some? && o.user.value.id != ""
    ensures Press(o, ToShip).Some? && Press(o, ToShip).value.path == DeliveryPath
    ensures Press(o, Delivery).Some? && Press(o, Delivery).value.path == CompletedPath
    ensures Press(o, Completed).None?
  {
  }

  /** The request carries every item of the order, not just those at the
      section's status: an item of `o` at any status at all is named in the
      request sent from the section for `s`. */
  lemma PressCarriesAllItems(o: Order, s: KnownStatus, k: nat)
    requires o.user.Some? && o.user.value.id != ""
    requires s == ToShip || s == Delivery
    requires k < |o.items|
    ensures Press(o, s).Some?
    ensures |Press(o, s).value.items| == |o.items|
    ensures o.items[k].id in Press(o, s).value.items
  {
  }

  /** A concrete case: an order holding one `toship` and one `delivery`
      item appears in both sections, lists only its `toship` item under
      `toship`, and pressing its `toship` button sends both item ids, the
      `delivery` one included. */
  lemma MixedOrderExample(u: User)
    requires u.id != ""
    ensures var shipNow := Item("i1", "lechon", 1, ToShip, "", "Cash on Delivery");
            var onTheWay := Item("i2", "puto", 2, Delivery, "", "Cash on Delivery");
            var o := Order(Some(u), [shipNow, onTheWay]);
            && o in Bucket([o], ToShip) && o in Bucket([o], Delivery)
            && shipNow in ItemsAt(o, ToShip) && onTheWay !in ItemsAt(o, ToShip)
            && Press(o, ToShip) == Some(AdvanceRequest(DeliveryPath, u.id, ["i1", "i2"]))
  {
    var shipNow := Item("i1", "lechon", 1, ToShip, "", "Cash on Delivery");
    var onTheWay := Item("i2", "puto", 2, Delivery, "", "Cash on Delivery");
    var o := Order(Some(u), [shipNow, onTheWay]);
    assert HasStatus(o, ToShip) by { assert o.items[0].status == ToShip; }
    assert HasStatus(o, Delivery) by { assert o.items[1].status == Delivery; }
    assert o.items[0] == shipNow;
    var sent := Press(o, ToShip).value;
    assert sent.items[0] == "i1" && sent.items[1] == "i2";
    assert sent.items == ["i1", "i2"];
  }

  // ---------------------------------------------------------------------------
  // Rendering

  const CashOnDelivery: string := "Cash on Delivery"

  /** One line of an order's item table: product, quantity, payment method,
      and the payment reference unless the method is cash on delivery. */
  datatype ItemRow = ItemRow(productName: string, quantity: int, mop: string, paymentRef: Option<string>)

  function RowOf(it: Item): (r: ItemRow)
    ensures r.paymentRef.Some? <==> it.mop != CashOnDelivery
    ensures r.paymentRef.Some? ==> r.paymentRef.value == it.paymentRef
    ensures r.productName == it.productName && r.quantity == it.quantity && r.mop == it.mop
  {
    ItemRow(it.productName, it.quantity, it.mop, if it.mop != CashOnDelivery then Some(it.paymentRef) else None)
  }

  /** An order as drawn inside the section for some status: its customer,
      its item lines at that status, and the status its button advances to. */
  datatype Card = Card(user: Option<User>, rows: seq<ItemRow>, advancesTo: Option<Status>)

  /** `renderOrdersByStatus(s)`: one card per listed order holding an item
      at `s`; each card shows at least one line, only lines at `s`, and the
      same button for the whole section. */
  function Section(listed: seq<Order>, s: KnownStatus): (r: seq<Card>)
    ensures |r| == |Bucket(listed, s)|
    ensures forall i :: 0 <= i < |r| ==> r[i].user == Bucket(listed, s)[i].user
    ensures forall i :: 0 <= i < |r| ==> r[i].rows == Map(ItemsAt(Bucket(listed, s)[i], s), RowOf)
    ensures forall i :: 0 <= i < |r| ==> |r[i].rows| > 0
    ensures forall i :: 0 <= i < |r| ==> r[i].advancesTo == NextStatus(s)
  {
    Map(Bucket(listed, s), (o: Order) => Card(o.user, Map(ItemsAt(o, s), RowOf), NextStatus(s)))
  }

  /** The whole board: the three sections "TO SHIP", "IN TRANSIT" and
      "COMPLETED", computed from the searched order list. */
  datatype View = View(toShip: seq<Card>, inTransit: seq<Card>, completed: seq<Card>)

  function Render(orders: seq<Order>, query: string): (v: View)
    ensures v.toShip == Section(FilterOrders(orders, query), ToShip)
    ensures v.inTransit == Section(FilterOrders(orders, query), Delivery)
    ensures v.completed == Section(FilterOrders(orders, query), Completed)
    ensures forall c :: c in v.toShip ==> c.advancesTo == Some(Delivery) && c.user.Some?
    ensures forall c :: c in v.inTransit ==> c.advancesTo == Some(Completed) && c.user.Some?
    ensures forall c :: c in v.completed ==> c.advancesTo.None? && c.user.Some?
  {
    var listed := FilterOrders(orders, query);
    View(Section(listed, ToShip), Section(listed, Delivery), Section(listed, Completed))
  }

  /** Every fetched order whose user matches the query and that has an
      item at `s` gets a card in the section for `s`, showing its own user
      and its own item lines at `s`. */
  lemma SectionShowsMatchingOrder(orders: seq<Order>, query: string, s: KnownStatus, k: nat)
    requires k < |orders| && UserMatches(orders[k], query) && HasStatus(orders[k], s)
    ensures exists i ::
      && 0 <= i < |Section(FilterOrders(orders, query), s)|
      && Section(FilterOrders(orders, query), s)[i].user == orders[k].user
      && Section(FilterOrders(orders, query), s)[i].rows == Map(ItemsAt(orders[k], s), RowOf)
  {
    var listed := FilterOrders(orders, query);
    var bucket := Bucket(listed, s);
    var cards := Section(listed, s);
    assert orders[k] in listed;
    var j :| 0 <= j < |listed| && listed[j] == orders[k];
    assert orders[k] in bucket;
    var i :| 0 <= i < |bucket| && bucket[i] == orders[k];
    assert cards[i].user == orders[k].user;
    assert cards[i].rows == Map(ItemsAt(orders[k], s), RowOf);
  }

  /** Every card of the searched board belongs to a user matching the query. */
  lemma SectionCardsMatchQuery(orders: seq<Order>, query: string, s: KnownStatus, i: nat)
    requires i < |Section(FilterOrders(orders, query), s)|
    ensures Section(FilterOrders(orders, query), s)[i].user.Some?
    ensures Matches(Section(FilterOrders(orders, query), s)[i].user.value.username, query)
  {
    var listed := FilterOrders(orders, query);
    var bucket := Bucket(listed, s);
    assert bucket[i] in listed;
    var j :| 0 <= j < |listed| && listed[j] == bucket[i];
  }
}
