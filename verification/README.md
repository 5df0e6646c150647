# Food-ordering admin dashboard: the rules inside the pages

The dashboard is a React client for a food-ordering business. Staff manage the
product catalog, move customer orders through the pipeline `toship → delivery →
completed`, and browse the user list. All pages sit behind a session guard. Most of
the client is fetch calls and UI widgets. A few pure rules sit inside the
components, and this project states each of them as a total Dafny function over
immutable data, with contracts and lemmas about its results:

- **Catalog** (`catalog.dfy`, `src/pages/Products.tsx`). There are two ordered form
  validators, each of which reports the first rule the form breaks. There are three
  list updates, applied once the server confirms: append after a create,
  replace-by-id after an edit, and remove-by-id after a delete. Form-field edits
  go to the form that is open. The product search ignores case.
- **Board** (`board.dfy`, `src/pages/Orders.tsx`). The order search drops orders
  that have no user. The board has one section per status, and an order appears
  in every section that one of its items belongs to. Within a section, each order
  lists only its items at that status. The advance map is `toship → delivery →
  completed`. The advance request names the endpoint and the ids of the order's
  items.
- **Session** (`session.dfy`, `src/utils/PrivateRoute.tsx`). The guard decides
  whether the session is authorised. It takes the storage map, a token decoder
  and the current time. Every refusal clears both storage keys. The module also
  models what the guarded route renders.
- **Shell** (`shell.dfy`, `src/layout/Layout.tsx`). The layout keeps a remembered
  nav index, with its fallback to 0, and marks the active link. It also holds the
  "Check" shortcut, the pending-orders sidebar, its indicator, and the
  capitalised customer name.
- **Users** (`users.dfy`, `src/pages/Users.tsx`). The user search is
  order-preserving and ignores case. The module also builds the search-box
  options and the table rows.

Helper modules:

- `basics.dfy` defines `Option` and `Reply`. A `Reply` is a fetch outcome,
  `Ok(value) | Err`, passed in as a parameter.
- `seqs.dfy` defines the generic order-preserving `Filter` and `Map`. It proves
  lemmas about them: filtering distributes over concatenation, is idempotent,
  and yields a subsequence of its input.
- `strings.dfy` covers ASCII case mapping and `includes`. `includes` is proved
  equal to "occurs at some offset". It also covers capitalisation and decimal
  numerals, with the round trip `ParseNat(NatToString(n)) == Some(n)`.
- `store.dfy` models `localStorage` as a `map<string, string>`, with the
  `session` and `index` keys and the logout of `src/pages/Settings.tsx`.

Two behaviours of the code are worth stating outright:

- Advancing sends the id of every item in the order, whatever that item's status
  (`src/pages/Orders.tsx:136`, `:147`, `:164`). Whether the server then moves only
  the matching items cannot be seen from the client.
  `Board.PressCarriesAllItems` and `Board.MixedOrderExample` state this.
- The guard accepts only when `exp > now`, so a token is refused at its `exp`
  second (`Session.ExpiryBoundary`). A missing or zero `exp` is refused as well,
  because `decoded.exp &&` tests the value for truthiness.

## Model

| member | source | states |
|---|---|---|
| Catalog.ValidateNew | src/pages/Products.tsx:88-110 | valid iff name and description are non-empty, price ≥ 50, stocks > 0 and an image is present; otherwise the reported rule is the earliest broken one in the order name, description, price, stocks, image |
| Catalog.ValidateSelected | src/pages/Products.tsx:113-132 | no selection gives a silent failure; otherwise the same rules in the same order without the image rule, reporting the earliest broken one |
| Catalog.FirstBrokenUnique | src/pages/Products.tsx:88-132 | the "first broken rule" of an ordered rule list is unique, so each failing form has exactly one message |
| Catalog.ErrorAfter | src/pages/Products.tsx:88-132 | a failed validation sets the notification to the broken rule's text; any other outcome leaves the previous text |
| Catalog.ErrorNamesRule | src/pages/Products.tsx:88-132 | after two failed validations the notification texts agree exactly when the same rule was broken |
| Catalog.Message | src/pages/Products.tsx:90-106 | every rule's notification text is non-empty, so a notification fires whenever the pending text changes to it; setting the same text again fires nothing |
| Catalog.MessagesDistinct | src/pages/Products.tsx:90-106 | the five rules have five different texts, so the notification names the broken rule |
| Catalog.ValidateNewBoundaries | src/pages/Products.tsx:97-108 | price 50 is accepted and every price below 50 is rejected for price; stocks 0 is rejected; a missing image is rejected last |
| Catalog.ValidateSelectedAgreesWithNew | src/pages/Products.tsx:113-132 | on equal fields the edit validator agrees with the create validator, except that a missing image is accepted |
| Catalog.EditDraft | src/pages/Products.tsx:82 | exactly the edited field of the new-product form takes the new value; every other field is unchanged |
| Catalog.EditProduct | src/pages/Products.tsx:80 | exactly the edited field of the selected product takes the new value; its id and other fields are unchanged |
| Catalog.ChangeInput | src/pages/Products.tsx:78-85 | the edit goes to the selected product when one is open, otherwise to the new-product form; the message is cleared; the list and delete target are unchanged |
| Catalog.SubmitNew | src/pages/Products.tsx:148-176 | a request is sent iff the draft validates; on failure the first rule's message is set and nothing else changes; on success the created product is appended last, earlier elements are unchanged and the form resets to empty |
| Catalog.SubmitEdit | src/pages/Products.tsx:179-210 | a request carrying the selected product is sent iff it validates; on success the list is the replace-by-id of the returned product and the selection closes; a failed request changes nothing |
| Catalog.SubmitDelete | src/pages/Products.tsx:213-231 | a request with the pending product's id is sent iff a product awaits deletion; on success exactly that id is removed and the pending product cleared |
| Catalog.RejectedCreateSendsNothing | src/pages/Products.tsx:149 | a draft with price below 50 or stocks ≤ 0 is never sent, whatever the server would answer, and the list is unchanged |
| Catalog.CreateThenDelete | src/pages/Products.tsx:225 | a confirmed create followed by a confirmed delete of the created product leaves the list that a delete alone would leave |
| Catalog.ReplaceById | src/pages/Products.tsx:202-204 | same length; every element with the returned id becomes the returned product; all others stay in place |
| Catalog.ReplaceByIdKeepsIds | src/pages/Products.tsx:202-204 | an edit never adds, drops or reorders ids |
| Catalog.ReplaceByIdIdempotent | src/pages/Products.tsx:202-204 | replacing twice is replacing once; an id not in the list changes nothing |
| Catalog.RemoveById | src/pages/Products.tsx:225 | no survivor has the deleted id, every product with another id survives as many times as it occurs, and the order is kept |
| Catalog.RemoveAfterAppend | src/pages/Products.tsx:225 | removing the id of a just-appended product gives the same list as removing it before the append |
| Catalog.FilterProducts | src/pages/Products.tsx:233-234 | a product is kept iff it has a name whose lower-cased form contains the lower-cased query, every copy of a kept product survives, and the order is kept |
| Catalog.FilterProductsEmptyQuery | src/pages/Products.tsx:233-234 | an empty query keeps every named product in order and drops the nameless ones |
| Catalog.FilterProductsIdempotent | src/pages/Products.tsx:233-234 | searching the result again with the same query changes nothing |
| Board.ParseStatus | src/pages/Orders.tsx:23 | a status string parses to a well-formed status whose name is that same string |
| Board.ParseStatusName | src/pages/Orders.tsx:23 | parsing a well-formed status's name gives the status back |
| Board.ParseStatusInjective | src/pages/Orders.tsx:69 | parsed statuses are equal iff the strings are, so status equality is the string comparison the board makes |
| Board.FilterOrders | src/pages/Orders.tsx:63-65 | an order is kept iff it has a user whose lower-cased name contains the lower-cased query; the order of the list is kept |
| Board.FilterOrdersMultiset | src/pages/Orders.tsx:63-65 | the search keeps every copy of a matching order and no copy of any other |
| Board.FilterOrdersEmptyQuery | src/pages/Orders.tsx:63-65 | with an empty query exactly the orders with a user remain; user-less orders are dropped even then |
| Board.SearchChoices | src/pages/Orders.tsx:204-209 | one option per fetched order that has a user, in fetched order, with the user's id as value and the username as caption |
| Board.SearchChoicesCoverUsers | src/pages/Orders.tsx:204-209 | every fetched order that has a user has its option (id and username) among the search box's options |
| Board.Bucket | src/pages/Orders.tsx:67-70 | a section holds exactly the listed orders having some item at its status, in order |
| Board.BucketMultiset | src/pages/Orders.tsx:67-70 | a section keeps every copy of a listed order with an item at its status and no copy of any other |
| Board.OrderInTwoBuckets | src/pages/Orders.tsx:217-229 | an order with items at two statuses appears in both sections |
| Board.ItemsAt | src/pages/Orders.tsx:110-112 | an order lists, in a section, exactly its items at that status, in order; the list is non-empty iff the order belongs to the section |
| Board.ItemsAtMultiset | src/pages/Orders.tsx:110-112 | an order's table in a section keeps every copy of an item at that status and no copy of any other item |
| Board.BucketedOrdersListItems | src/pages/Orders.tsx:68-112 | every order shown in a section lists at least one item there |
| Board.NextStatus | src/pages/Orders.tsx:131-152 | a button exists only for `toship` and `delivery`, and it moves one step forward along the pipeline |
| Board.AdvanceIsForward | src/pages/Orders.tsx:131-152 | nothing advances to `toship` or to itself; two advances from `toship` reach `completed`; `completed` has no advance |
| Board.UpdateOrderStatus | src/pages/Orders.tsx:161-172 | no request without a non-empty user id; otherwise the ids of all given items in order and with the same length; `/order/delivery` iff the target is `delivery`, else `/order/completed` |
| Board.Press | src/pages/Orders.tsx:131-152 | no request from a section without a next status; a request always names the order's own user |
| Board.PressEndpoints | src/pages/Orders.tsx:165 | the `toship` button targets the delivery endpoint and the `delivery` button the completed endpoint; `completed` has no request |
| Board.PressCarriesAllItems | src/pages/Orders.tsx:164 | the request names every item of the order, whatever that item's status, and has as many ids as the order has items |
| Board.MixedOrderExample | src/pages/Orders.tsx:136 | an order with a `toship` and a `delivery` item appears in both sections; its `toship` section lists only the `toship` item; that section's button sends both ids |
| Board.RowOf | src/pages/Orders.tsx:120-122 | the payment reference is shown iff the payment method is not exactly "Cash on Delivery" |
| Board.Section | src/pages/Orders.tsx:67-158 | one card per order in the section, in order, carrying that order's user, the lines of exactly its items at the section's status (never none) and the section's advance target |
| Board.Render | src/pages/Orders.tsx:213-232 | the three sections are the `toship`, `delivery` and `completed` sections of the searched orders; "TO SHIP" cards advance to `delivery`, "IN TRANSIT" cards to `completed`, "COMPLETED" cards not at all |
| Board.SectionShowsMatchingOrder | src/pages/Orders.tsx:63-70 | every fetched order whose user matches the query and that has an item at `s` gets a card in the `s` section with its own user and item lines |
| Board.SectionCardsMatchQuery | src/pages/Orders.tsx:63-65 | every card on the board belongs to a user whose name matches the query |
| Users.FilterUsers | src/pages/Users.tsx:40-42 | a user is kept iff the lower-cased username contains the lower-cased query, and each kept user survives as many times as it occurs |
| Users.FilterUsersIsSubsequence | src/pages/Users.tsx:40-42 | the result is an order-preserving subsequence of the input |
| Users.FilterUsersEmptyQuery | src/pages/Users.tsx:40-42 | an empty query returns every user |
| Users.FilterUsersIdempotent | src/pages/Users.tsx:40-42 | filtering twice with the same query equals filtering once |
| Users.FilterUsersAppend | src/pages/Users.tsx:40-42 | filtering a concatenation filters each part |
| Users.SearchChoices | src/pages/Users.tsx:70 | one option per fetched user, with value = label = username |
| Users.PickedChoiceListsUser | src/pages/Users.tsx:40-42 | picking a user's suggestion as the search value keeps that user in the table |
| Users.Rows | src/pages/Users.tsx:45-52 | one row per filtered user, in filtered order, each showing a matching username |
| Store.Get | src/utils/PrivateRoute.tsx:8-9 | `getItem` yields a string exactly when the key is stored, and then the stored string; otherwise `null` |
| Store.ClearSession | src/utils/PrivateRoute.tsx:23-24 | both session keys are removed and every other key is unchanged |
| Store.LogOut | src/pages/Settings.tsx:19-23 | logout removes both session keys and goes to the login route |
| Session.Guard | src/utils/PrivateRoute.tsx:14-37 | authorised iff a non-empty token is stored, decodes, and has a non-zero `exp` strictly after now; authorised leaves storage unchanged; any refusal removes both keys and keeps every other key |
| Session.MalformedIsLikeExpired | src/utils/PrivateRoute.tsx:20-31 | a token that fails to decode gives the same outcome as an expired one |
| Session.RefusalIsLogout | src/utils/PrivateRoute.tsx:32-37 | a refusal leaves storage exactly as the logout button does |
| Session.GuardIdempotent | src/utils/PrivateRoute.tsx:13-38 | re-running the check on the storage it left gives the same outcome |
| Session.ExpiryBoundary | src/utils/PrivateRoute.tsx:18 | a token is refused at its `exp` second and accepted one second earlier |
| Session.GuardMonotoneInTime | src/utils/PrivateRoute.tsx:18 | a session accepted later was accepted earlier; one refused earlier stays refused |
| Session.Render | src/utils/PrivateRoute.tsx:40-46 | the layout is shown before the check (initial `true`) and after an accepting check; a refusal redirects to `/` |
| Session.RefusedSessionsRedirect | src/utils/PrivateRoute.tsx:14-46 | an absent, empty, undecodable or expired token ends on `/` with both keys removed |
| Shell.CurrentIndex | src/layout/Layout.tsx:47 | the stored numeral's value, or 0 when the key is absent or its value is not a numeral |
| Shell.NavLinks | src/layout/Layout.tsx:72-87 | one link per nav entry in order; a link is active iff its position is the current index |
| Shell.AtMostOneActive | src/layout/Layout.tsx:76 | at most one link is active, and none is when the index is past the last entry |
| Shell.ClickNav | src/layout/Layout.tsx:81 | clicking entry `i` stores `String(i)` under `index`, changes no other key and goes to the entry's route |
| Shell.ClickActivatesEntry | src/layout/Layout.tsx:47-81 | after clicking entry `i` the layout reads back `i`, so exactly that entry is active |
| Shell.CheckShortcut | src/layout/Layout.tsx:135 | "Check" stores "1" and goes to `/orders` |
| Shell.CheckIsOrdersEntry | src/layout/Layout.tsx:38-43 | "Check" is the same click as nav entry 1, whose route is `/orders` |
| Shell.PendingOrders | src/layout/Layout.tsx:89 | exactly the orders having some `toship` item, each as many times as it occurs, in the original order |
| Shell.HasPendingOrders | src/layout/Layout.tsx:90 | there are pending orders iff some fetched order has a `toship` item |
| Shell.IndicatorSize | src/layout/Layout.tsx:119 | the indicator is 12 when some order has a `toship` item and 0 otherwise |
| Shell.DisplayName | src/layout/Layout.tsx:126 | the first character is upper-cased and the rest unchanged; without a user the text is "NaN" |
| Shell.DisplayNameOnlyChangesCase | src/layout/Layout.tsx:126 | the sidebar's name differs from the stored username only in case |
| Shell.Sidebar | src/layout/Layout.tsx:123-137 | one entry per pending order in order, listing only its `toship` items and never an empty list |
| Shell.SidebarListsEveryToShipItem | src/layout/Layout.tsx:128-134 | every `toship` item of every fetched order has its line in the sidebar |
| Strings.Lower | src/pages/Users.tsx:41 | `toLowerCase` over ASCII: the length is kept, each character is lower-cased in place, and no upper-case letter remains |
| Strings.Contains | src/pages/Users.tsx:41 | `includes` holds iff the query occurs at some offset of the text |
| Strings.ParseNatToString | src/layout/Layout.tsx:81 | reading back a stored `String(i)` gives `i` |
| Strings.Matches | src/pages/Users.tsx:41 | the lower-cased text contains the lower-cased query at some offset; a match needs a query no longer than the text |
| Strings.MatchesIgnoresCase | src/pages/Users.tsx:41 | lower-casing the text or the query beforehand never changes whether they match |
| Strings.Capitalize | src/layout/Layout.tsx:126 | same length; the first character upper-cased and the remainder unchanged |
| Strings.CapitalizeOnlyChangesCase | src/layout/Layout.tsx:126 | capitalising changes nothing but the case: the text and its capitalised form lower-case to the same string |
| Strings.MatchesItself | src/pages/Users.tsx:41 | every text contains itself, ignoring case, so searching for a full name finds it |
| Strings.ParseNat | src/layout/Layout.tsx:47 | a value is read iff the string is a non-empty run of decimal digits |
| Strings.NatToString | src/layout/Layout.tsx:81 | a non-empty run of decimal digits, with no leading zero |
| Seqs.Filter | src/pages/Users.tsx:40-42 | `filter`: at most as many elements, each one from the input and satisfying the predicate, and every satisfying input element kept |
| Seqs.FilterMultiset | src/pages/Users.tsx:40-42 | `filter` keeps every copy of a satisfying value and no copy of any other, so repeated elements survive as often as they occur |
| Seqs.Map | src/pages/Users.tsx:45 | `map`: same length, each position the function applied to the input's element at that position |

## Left out

- Network I/O. Every `fetch`, its JSON decoding and the `response.ok` check
  become a `Reply` parameter. The initial list loads and the order polls only
  replace a list with the server's, so they are not modelled.
- The outcome of the order-advance PATCH (src/pages/Orders.tsx:166-178).
  `Board.UpdateOrderStatus` and `Board.Press` build the request and take no
  reply. On success the page only re-fetches the order list, which replaces it
  with the server's. On failure the page only logs a console error. Neither
  outcome changes any state the model tracks.
- Polling timers. The 3-second `setInterval` in the board and the layout, and
  races between a poll and a mutation, are concurrency, not sequential logic.
- Token decoding. The decoding library is foreign code, so the guard receives it
  as a `Decoder` parameter.
- UI. Mantine widgets, modal visibility, notifications and their auto-clearing of
  the message, the burger `toggle`, styling and `FormData` encoding are not
  modelled. The click handlers that only open a modal for a chosen product
  (`setSelectedProduct`, `setProductToDelete`) are left out too. So is the
  catalog's search-box option list, which maps each product to its name.
- `toLocaleString` price formatting is not modelled.
- Re-running the guard when route parameters change is not modelled. Each run is
  one call of `Session.Guard`.
- Login and routing. `src/pages/Login.tsx` and `src/main.tsx` are not part of
  this model. Neither is the superseded `src/layout/Layout copy.tsx`.
- Strings.Lower: maps ASCII letters only, whereas `toLowerCase` folds all of
  Unicode.
- Strings.Matches: inherits the ASCII-only case mapping of `Strings.Lower`.
- Strings.Capitalize: upper-cases ASCII letters only. `toUpperCase` maps all of
  Unicode and can lengthen the text ("ß" becomes "SS"), so the page's name need
  not keep the username's length.
- Shell.DisplayName: inherits the ASCII-only upper-casing of `Strings.Capitalize`,
  including its length-preserving promise that `toUpperCase` does not keep.
- Shell.CurrentIndex: parses only plain decimal digit strings. `Number`'s
  whitespace trimming, signs, fractions, exponents and hex forms all fall back to
  0 here; JavaScript would give their value.
- Session.Guard: `now` is whole seconds, while `Date.now()/1000` is fractional.
  For a whole-second `exp`, `exp > now` gives the same answer for the fractional
  time as for its floor. Fractional `exp` claims are not modelled.
- Catalog.ValidateNew, Catalog.ValidateSelected: price and stocks are `real`. The
  create and edit forms use the same number inputs, and their non-numeric values
  (an empty string, `NaN`) are not modelled.
- Board.FilterOrders: an order's user is assumed to have a username. The source's
  `?.` on a missing username is not modelled.
