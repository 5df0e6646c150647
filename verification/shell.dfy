/** The layout around every protected page: the navigation list with its
    remembered active entry, and the pending-orders sidebar that lists the
    orders still waiting to ship. */
module Shell {

  import opened Basics
  import opened Seqs
  import opened Strings
  import opened Store
  import opened Users
  import opened Board

  datatype NavEntry = NavEntry(caption: string, href: string)

  /** The navigation entries, in display order. */
  const NavData: seq<NavEntry> := [
    NavEntry("Products", "/products"),
    NavEntry("Orders", "/orders"),
    NavEntry("Users", "/users"),
    NavEntry("Settings", "/settings")
  ]

  const OrdersIndex: nat := 1

  /** `Number(localStorage.getItem("index")) || 0`: the stored decimal
      index, or 0 when the key is absent or its value is not a numeral. */
  function CurrentIndex(st: Storage): (r: nat)
    ensures Get(st, IndexKey).None? ==> r == 0
    ensures Get(st, IndexKey).Some? && ParseNat(st[IndexKey]).None? ==> r == 0
    ensures Get(st, IndexKey).Some? && ParseNat(st[IndexKey]).Some? ==> r == ParseNat(st[IndexKey]).value
  {
    match Get(st, IndexKey)
    case None => 0
    case Some(s) => if ParseNat(s).Some? then ParseNat(s).value else 0
  }

  /** A navigation link as drawn. */
  datatype NavLink = NavLink(caption: string, href: string, active: bool)

  /** The drawn navigation list: one link per entry, in order, and a link is
      active exactly when its position is the current index. */
  function NavLinks(st: Storage): (r: seq<NavLink>)
    ensures |r| == |NavData|
    ensures forall i :: 0 <= i < |r| ==> r[i].caption == NavData[i].caption && r[i].href == NavData[i].href
    ensures forall i :: 0 <= i < |r| ==> (r[i].active <==> i == CurrentIndex(st))
  {
    var current := CurrentIndex(st);
    seq(|NavData|, i requires 0 <= i < |NavData| => NavLink(NavData[i].caption, NavData[i].href, i == current))
  }

  /** At most one link is active, and none is when the stored index is past
      the last entry. */
  lemma AtMostOneActive(st: Storage)
    ensures forall i, j :: 0 <= i < j < |NavData| ==> !(NavLinks(st)[i].active && NavLinks(st)[j].active)
    ensures CurrentIndex(st) >= |NavData| ==> forall i :: 0 <= i < |NavData| ==> !NavLinks(st)[i].active
  {
  }

  /** Where a click takes the user, and what it leaves in storage. */
  datatype Navigation = Navigation(storage: Storage, target: string)

  /** Clicking entry `i`: store `String(i)` under the index key and go to
      the entry's route. */
  function ClickNav(st: Storage, i: nat): (r: Navigation)
    requires i < |NavData|
    ensures r.target == NavData[i].href
    ensures Get(r.storage, IndexKey) == Some(NatToString(i))
    ensures forall k :: k in st && k != IndexKey ==> k in r.storage && r.storage[k] == st[k]
    ensures forall k :: k in r.storage ==> k in st || k == IndexKey
  {
    Navigation(st[IndexKey := NatToString(i)], NavData[i].href)
  }

  /** After clicking entry `i`, the layout reads back `i` as the current
      index, so exactly the clicked entry is active. */
  lemma ClickActivatesEntry(st: Storage, i: nat)
    requires i < |NavData|
    ensures CurrentIndex(ClickNav(st, i).storage) == i
    ensures forall j :: 0 <= j < |NavData| ==> (NavLinks(ClickNav(st, i).storage)[j].active <==> j == i)
  {
    ParseNatToString(i);
  }

  /** The sidebar's "Check" button: store "1" and go to the orders route. */
  function CheckShortcut(st: Storage): (r: Navigation)
    ensures r.target == "/orders"
    ensures Get(r.storage, IndexKey) == Some("1")
  {
    Navigation(st[IndexKey := "1"], "/orders")
  }

  /** "Check" is the same click as the Orders entry of the navigation list:
      the index it stores is the one at which `/orders` sits. */
  lemma CheckIsOrdersEntry(st: Storage)
    ensures NavData[OrdersIndex].href == "/orders" && NavData[OrdersIndex].caption == "Orders"
    ensures CheckShortcut(st) == ClickNav(st, OrdersIndex)
    ensures CurrentIndex(CheckShortcut(st).storage) == OrdersIndex
  {
  }

  // ---------------------------------------------------------------------------
  // Pending orders

  /** `pendingOrders`: the fetched orders with some item still to ship, in
      order, whether or not they have a user. */
  function PendingOrders(orders: seq<Order>): (r: seq<Order>)
    ensures forall i :: 0 <= i < |r| ==> r[i] in orders && HasStatus(r[i], ToShip)
    ensures forall i :: 0 <= i < |orders| && HasStatus(orders[i], ToShip) ==> orders[i] in r
    ensures IsSubsequence(r, orders)
    ensures forall o :: multiset(r)[o] == if HasStatus(o, ToShip) then multiset(orders)[o] else 0
  {
    forall o ensures multiset(Bucket(orders, ToShip))[o] == if HasStatus(o, ToShip) then multiset(orders)[o] else 0 {
      BucketMultiset(orders, ToShip, o);
    }
    Bucket(orders, ToShip)
  }

  /** `hasPendingOrders`: the sidebar has something to list exactly when
      some fetched order still has an item to ship. */
  predicate HasPendingOrders(orders: seq<Order>)
    ensures HasPendingOrders(orders) <==> exists i :: 0 <= i < |orders| && HasStatus(orders[i], ToShip)
  {
    var pending := PendingOrders(orders);
    assert forall i :: 0 <= i < |orders| && HasStatus(orders[i], ToShip) ==> orders[i] in pending;
    |pending| > 0
  }

  /** The indicator's size: 12 while orders are pending, 0 otherwise. */
  function IndicatorSize(orders: seq<Order>): (n: nat)
    ensures n == 12 || n == 0
    ensures n == 12 <==> exists i :: 0 <= i < |orders| && HasStatus(orders[i], ToShip)
  {
    if HasPendingOrders(orders) then 12 else 0
  }

  /** The name heading a pending order: the username with its first
      character upper-cased. Without a user the expression adds two
      `undefined`s and the page shows "NaN". */
  function DisplayName(user: Option<User>): (name: string)
    ensures user.Some? ==> |name| == |user.value.username|
    ensures user.Some? && |name| > 0 ==> name[0] == UpperChar(user.value.username[0]) && name[1..] == user.value.username[1..]
    ensures user.None? ==> name == "NaN"
  {
    if user.Some? then Capitalize(user.value.username) else "NaN"
  }

  /** The sidebar's name differs from the stored username only in case. */
  lemma DisplayNameOnlyChangesCase(u: User)
    ensures Lower(DisplayName(Some(u))) == Lower(u.username)
  {
    CapitalizeOnlyChangesCase(u.username);
  }

  /** One line under a pending order: quantity and product name. */
  datatype PendingLine = PendingLine(quantity: int, productName: string)

  datatype PendingEntry = PendingEntry(name: string, lines: seq<PendingLine>)

  function LineOf(it: Item): PendingLine
  {
    PendingLine(it.quantity, it.productName)
  }

  /** The sidebar: one entry per pending order, in order, each listing only
      that order's items still to ship, and never an empty list. */
  function Sidebar(orders: seq<Order>): (r: seq<PendingEntry>)
    ensures |r| == |PendingOrders(orders)|
    ensures forall i :: 0 <= i < |r| ==>
      && r[i].name == DisplayName(PendingOrders(orders)[i].user)
      && r[i].lines == Map(ItemsAt(PendingOrders(orders)[i], ToShip), LineOf)
      && |r[i].lines| > 0
  {
    Map(PendingOrders(orders), (o: Order) => PendingEntry(DisplayName(o.user), Map(ItemsAt(o, ToShip), LineOf)))
  }

  /** Every item still to ship, of every fetched order, has its line in
      the sidebar. */
  lemma SidebarListsEveryToShipItem(orders: seq<Order>, k: nat, j: nat)
    requires k < |orders| && j < |orders[k].items| && orders[k].items[j].status == ToShip
    ensures exists i :: 0 <= i < |Sidebar(orders)| && LineOf(orders[k].items[j]) in Sidebar(orders)[i].lines
  {
    var o := orders[k];
    var it := o.items[j];
    assert HasStatus(o, ToShip);
    var pending := PendingOrders(orders);
    assert o in pending;
    var i :| 0 <= i < |pending| && pending[i] == o;
    var items := ItemsAt(o, ToShip);
    assert it in items;
    var m :| 0 <= m < |items| && items[m] == it;
    var bar := Sidebar(orders);
    assert bar[i].lines == Map(items, LineOf);
    assert bar[i].lines[m] == LineOf(it);
  }
}
