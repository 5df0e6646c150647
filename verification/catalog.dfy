/** The product catalog page: two form validators that report the first
    rule a form breaks, the list updates applied after the server confirms a
    create, edit or delete, the form-field updates, and the name search. */
module Catalog {

  import opened Basics
  import opened Seqs
  import opened Strings

  /** A product image: none (an unset or cleared file input), the URL the
      server stored, or a file the user just picked. */
  datatype Image = NoImage | Stored(url: string) | Picked(file: string)

  /** JavaScript truthiness of the image field: a picked file is always
      truthy, a stored URL unless it is empty. */
  predicate ImagePresent(img: Image)
  {
    match img
    case NoImage => false
    case Stored(url) => url != ""
    case Picked(_) => true
  }

  /** A catalog entry as the server returns it. The name may be missing:
      the search reads it through optional chaining. */
  datatype Product = Product(id: string, name: Option<string>, description: string,
                             price: real, stocks: real, image: Image)

  /** The new-product form. */
  datatype Draft = Draft(name: string, description: string, price: real, stocks: real, image: Image)

  /** The new-product form as it starts and as it is reset after a create. */
  const EmptyDraft: Draft := Draft("", "", 0.0, 0.0, NoImage)

  const MinPrice: real := 50.0

  // ---------------------------------------------------------------------------
  // Validation

  /** The fields both validators look at, read from either form. */
  datatype Fields = Fields(name: Option<string>, description: string, price: real, stocks: real, image: Image)

  function DraftFields(d: Draft): Fields
  {
    Fields(Some(d.name), d.description, d.price, d.stocks, d.image)
  }

  function ProductFields(p: Product): Fields
  {
    Fields(p.name, p.description, p.price, p.stocks, p.image)
  }

  datatype Rule = NameRequired | DescriptionRequired | PriceTooLow | StocksNotPositive | ImageRequired

  /** The notification text shown for a broken rule. It is never empty, so
      a notification fires whenever the pending text changes to it (setting
      the same text again changes nothing and fires nothing). */
  function Message(r: Rule): (m: string)
    ensures m != ""
  {
    match r
    case NameRequired => "Product Name is required"
    case DescriptionRequired => "Product Description is required"
    case PriceTooLow => "Product Price must be at least 50"
    case StocksNotPositive => "Product Stocks must be greater than zero"
    case ImageRequired => "Product Image is required"
  }

  /** Each rule has its own text, so the notification names the rule. */
  lemma MessagesDistinct(a: Rule, b: Rule)
    ensures Message(a) == Message(b) ==> a == b
  {
  }

  /** Whether the fields break the rule. */
  predicate Breaks(f: Fields, r: Rule)
  {
    match r
    case NameRequired => f.name.None? || f.name.value == ""
    case DescriptionRequired => f.description == ""
    case PriceTooLow => f.price < MinPrice
    case StocksNotPositive => f.stocks <= 0.0
    case ImageRequired => !ImagePresent(f.image)
  }

  /** The order in which the create form is checked. */
  const CreateRules: seq<Rule> := [NameRequired, DescriptionRequired, PriceTooLow, StocksNotPositive, ImageRequired]

  /** The edit form is checked in the same order, without the image rule. */
  const EditRules: seq<Rule> := [NameRequired, DescriptionRequired, PriceTooLow, StocksNotPositive]

  /** `rule` is the earliest rule of `rules` that `f` breaks. */
  predicate FirstBroken(f: Fields, rules: seq<Rule>, rule: Rule)
  {
    exists k :: 0 <= k < |rules| && rules[k] == rule && Breaks(f, rule)
      && forall i :: 0 <= i < k ==> !Breaks(f, rules[i])
  }

  predicate BreaksNone(f: Fields, rules: seq<Rule>)
  {
    forall i :: 0 <= i < |rules| ==> !Breaks(f, rules[i])
  }

  datatype Verdict = Valid | Invalid(rule: Rule) | NothingSelected

  /** `validateNewProduct`: the checks in source order, stopping at the
      first failure. */
  function ValidateNew(d: Draft): (v: Verdict)
    ensures v.Valid? <==> BreaksNone(DraftFields(d), CreateRules)
    ensures v.Valid? <==> d.name != "" && d.description != "" && d.price >= 50.0
                          && d.stocks > 0.0 && ImagePresent(d.image)
    ensures v.Invalid? ==> FirstBroken(DraftFields(d), CreateRules, v.rule)
    ensures !v.NothingSelected?
  {
    var f := DraftFields(d);
    if d.name == "" then
      assert FirstBroken(f, CreateRules, NameRequired) by { assert CreateRules[0] == NameRequired; }
      Invalid(NameRequired)
    else if d.description == "" then
      assert FirstBroken(f, CreateRules, DescriptionRequired) by { assert CreateRules[1] == DescriptionRequired; }
      Invalid(DescriptionRequired)
    else if d.price < MinPrice then
      assert FirstBroken(f, CreateRules, PriceTooLow) by { assert CreateRules[2] == PriceTooLow; }
      Invalid(PriceTooLow)
    else if d.stocks <= 0.0 then
      assert FirstBroken(f, CreateRules, StocksNotPositive) by { assert CreateRules[3] == StocksNotPositive; }
      Invalid(StocksNotPositive)
    else if !ImagePresent(d.image) then
      assert FirstBroken(f, CreateRules, ImageRequired) by { assert CreateRules[4] == ImageRequired; }
      Invalid(ImageRequired)
    else
      Valid
  }

  /** `validateSelectedProduct`: nothing selected fails without a message;
      otherwise the create checks in the same order, minus the image. */
  function ValidateSelected(sel: Option<Product>): (v: Verdict)
    ensures v.NothingSelected? <==> sel.None?
    ensures sel.Some? ==> (v.Valid? <==> BreaksNone(ProductFields(sel.value), EditRules))
    ensures sel.Some? ==> (v.Valid? <==> sel.value.name.Some? && sel.value.name.value != ""
                                         && sel.value.description != "" && sel.value.price >= 50.0
                                         && sel.value.stocks > 0.0)
    ensures v.Invalid? ==> sel.Some? && FirstBroken(ProductFields(sel.value), EditRules, v.rule)
  {
    match sel
    case None => NothingSelected
    case Some(p) =>
      var f := ProductFields(p);
      if p.name.None? || p.name.value == "" then
        assert FirstBroken(f, EditRules, NameRequired) by { assert EditRules[0] == NameRequired; }
        Invalid(NameRequired)
      else if p.description == "" then
        assert FirstBroken(f, EditRules, DescriptionRequired) by { assert EditRules[1] == DescriptionRequired; }
        Invalid(DescriptionRequired)
      else if p.price < MinPrice then
        assert FirstBroken(f, EditRules, PriceTooLow) by { assert EditRules[2] == PriceTooLow; }
        Invalid(PriceTooLow)
      else if p.stocks <= 0.0 then
        assert FirstBroken(f, EditRules, StocksNotPositive) by { assert EditRules[3] == StocksNotPositive; }
        Invalid(StocksNotPositive)
      else
        Valid
  }

  /** The first broken rule of a rule list is unique, so each validator
      reports exactly one well-defined message. */
  lemma FirstBrokenUnique(f: Fields, rules: seq<Rule>, a: Rule, b: Rule)
    requires FirstBroken(f, rules, a) && FirstBroken(f, rules, b)
    ensures a == b
  {
    var ka :| 0 <= ka < |rules| && rules[ka] == a && Breaks(f, a) && forall i :: 0 <= i < ka ==> !Breaks(f, rules[i]);
    var kb :| 0 <= kb < |rules| && rules[kb] == b && Breaks(f, b) && forall i :: 0 <= i < kb ==> !Breaks(f, rules[i]);
  }

  /** The price and stock boundaries: with name, description and image
      present, price 50 is accepted and anything lower rejected for price;
      stocks 0 is rejected. */
  lemma ValidateNewBoundaries(name: string, description: string, file: string)
    requires name != "" && description != ""
    ensures ValidateNew(Draft(name, description, 50.0, 1.0, Picked(file))).Valid?
    ensures ValidateNew(Draft(name, description, 49.0, 1.0, Picked(file))) == Invalid(PriceTooLow)
    ensures forall price :: price < 50.0 ==> ValidateNew(Draft(name, description, price, 1.0, Picked(file))) == Invalid(PriceTooLow)
    ensures ValidateNew(Draft(name, description, 50.0, 0.0, Picked(file))) == Invalid(StocksNotPositive)
    ensures ValidateNew(Draft(name, description, 50.0, 1.0, NoImage)) == Invalid(ImageRequired)
  {
  }

  /** The edit validator is the create validator without the image rule:
      on a product whose other fields equal a draft's, they agree except
      where the create form reports a missing image. */
  lemma ValidateSelectedAgreesWithNew(p: Product, d: Draft)
    requires p.name == Some(d.name) && p.description == d.description
    requires p.price == d.price && p.stocks == d.stocks
    ensures ValidateNew(d) == Invalid(ImageRequired) ==> ValidateSelected(Some(p)).Valid?
    ensures ValidateNew(d) != Invalid(ImageRequired) ==> ValidateSelected(Some(p)) == ValidateNew(d)
  {
  }

  /** The notification text after a validation: the broken rule's message,
      or the previous text when nothing was reported. */
  function ErrorAfter(v: Verdict, previous: string): (e: string)
    ensures v.Invalid? ==> e == Message(v.rule)
    ensures !v.Invalid? ==> e == previous
  {
    if v.Invalid? then Message(v.rule) else previous
  }

  /** After two failed validations the notification shows the same text
      exactly when the same rule was broken. */
  lemma ErrorNamesRule(v: Verdict, w: Verdict, previous: string, earlier: string)
    requires v.Invalid? && w.Invalid?
    ensures ErrorAfter(v, previous) == ErrorAfter(w, earlier) <==> v.rule == w.rule
  {
    MessagesDistinct(v.rule, w.rule);
  }

  // ---------------------------------------------------------------------------
  // List updates

  /** After an edit: every product carrying the returned product's id is
      replaced by it; everything else stays where it is. */
  function ReplaceById(ps: seq<Product>, updated: Product): (r: seq<Product>)
    ensures |r| == |ps|
    ensures forall i :: 0 <= i < |ps| && ps[i].id == updated.id ==> r[i] == updated
    ensures forall i :: 0 <= i < |ps| && ps[i].id != updated.id ==> r[i] == ps[i]
  {
    Map(ps, (p: Product) => if p.id == updated.id then updated else p)
  }

  function Ids(ps: seq<Product>): (r: seq<string>)
    ensures |r| == |ps| && forall i :: 0 <= i < |ps| ==> r[i] == ps[i].id
  {
    Map(ps, (p: Product) => p.id)
  }

  /** An edit never adds, drops or reorders ids. */
  lemma ReplaceByIdKeepsIds(ps: seq<Product>, updated: Product)
    ensures Ids(ReplaceById(ps, updated)) == Ids(ps)
  {
  }

  /** Replacing twice with the same product is replacing once, and an edit
      whose id is not listed changes nothing. */
  lemma ReplaceByIdIdempotent(ps: seq<Product>, updated: Product)
    ensures ReplaceById(ReplaceById(ps, updated), updated) == ReplaceById(ps, updated)
    ensures (forall i :: 0 <= i < |ps| ==> ps[i].id != updated.id) ==> ReplaceById(ps, updated) == ps
  {
  }

  /** After a delete: exactly the products with the deleted id are gone,
      the rest keep their order. */
  function RemoveById(ps: seq<Product>, id: string): (r: seq<Product>)
    ensures forall i :: 0 <= i < |r| ==> r[i].id != id && r[i] in ps
    ensures forall i :: 0 <= i < |ps| && ps[i].id != id ==> ps[i] in r
    ensures IsSubsequence(r, ps)
    ensures forall p :: multiset(r)[p] == if p.id != id then multiset(ps)[p] else 0
  {
    FilterIsSubsequence(ps, (p: Product) => p.id != id);
    forall x ensures multiset(Filter(ps, (p: Product) => p.id != id))[x] == if x.id != id then multiset(ps)[x] else 0 {
      FilterMultiset(ps, (p: Product) => p.id != id, x);
    }
    Filter(ps, (p: Product) => p.id != id)
  }

  /** Deleting a product that was just appended leaves the list as the
      delete alone would have. */
  lemma RemoveAfterAppend(ps: seq<Product>, created: Product)
    ensures RemoveById(ps + [created], created.id) == RemoveById(ps, created.id)
  {
    FilterAppend(ps, [created], (p: Product) => p.id != created.id);
  }

  /** The search: a product is kept iff it has a name and the lower-cased
      name contains the lower-cased query. */
  predicate NameMatches(p: Product, query: string)
  {
    p.name.Some? && Matches(p.name.value, query)
  }

  function FilterProducts(ps: seq<Product>, query: string): (r: seq<Product>)
    ensures forall i :: 0 <= i < |r| ==> r[i] in ps && r[i].name.Some? && Matches(r[i].name.value, query)
    ensures forall i :: 0 <= i < |ps| && NameMatches(ps[i], query) ==> ps[i] in r
    ensures IsSubsequence(r, ps)
    ensures forall p :: multiset(r)[p] == if NameMatches(p, query) then multiset(ps)[p] else 0
  {
    FilterIsSubsequence(ps, (p: Product) => NameMatches(p, query));
    forall x ensures multiset(Filter(ps, (p: Product) => NameMatches(p, query)))[x] == if NameMatches(x, query) then multiset(ps)[x] else 0 {
      FilterMultiset(ps, (p: Product) => NameMatches(p, query), x);
    }
    Filter(ps, (p: Product) => NameMatches(p, query))
  }

  /** An empty search keeps every product that has a name, in order, and
      drops the nameless ones. */
  lemma FilterProductsEmptyQuery(ps: seq<Product>)
    ensures FilterProducts(ps, "") == Filter(ps, (p: Product) => p.name.Some?)
    decreases |ps|
  {
    if |ps| > 0 {
      FilterProductsEmptyQuery(ps[1..]);
      if ps[0].name.Some? {
        MatchesEmptyQuery(ps[0].name.value);
      }
    }
  }

  /** Searching the result again with the same query changes nothing. */
  lemma FilterProductsIdempotent(ps: seq<Product>, query: string)
    ensures FilterProducts(FilterProducts(ps, query), query) == FilterProducts(ps, query)
  {
    FilterIdempotent(ps, (p: Product) => NameMatches(p, query));
  }

  // ---------------------------------------------------------------------------
  // Form input

  /** One change made in a form field. Clearing the file input yields `None`. */
  datatype Edit =
    | SetName(name: string)
    | SetDescription(description: string)
    | SetPrice(price: real)
    | SetStocks(stocks: real)
    | SetImage(file: Option<string>)

  function PickedImage(file: Option<string>): Image
  {
    if file.Some? then Picked(file.value) else NoImage
  }

  /** The draft with exactly the edited field replaced. */
  function EditDraft(d: Draft, e: Edit): (r: Draft)
    ensures e.SetName? ==> r.name == e.name && r.(name := d.name) == d
    ensures e.SetDescription? ==> r.description == e.description && r.(description := d.description) == d
    ensures e.SetPrice? ==> r.price == e.price && r.(price := d.price) == d
    ensures e.SetStocks? ==> r.stocks == e.stocks && r.(stocks := d.stocks) == d
    ensures e.SetImage? ==> r.image == PickedImage(e.file) && r.(image := d.image) == d
  {
    match e
    case SetName(n) => d.(name := n)
    case SetDescription(s) => d.(description := s)
    case SetPrice(x) => d.(price := x)
    case SetStocks(x) => d.(stocks := x)
    case SetImage(file) => d.(image := PickedImage(file))
  }

  /** The selected product with exactly the edited field replaced; its id
      never changes. */
  function EditProduct(p: Product, e: Edit): (r: Product)
    ensures r.id == p.id
    ensures e.SetName? ==> r.name == Some(e.name) && r.(name := p.name) == p
    ensures e.SetDescription? ==> r.description == e.description && r.(description := p.description) == p
    ensures e.SetPrice? ==> r.price == e.price && r.(price := p.price) == p
    ensures e.SetStocks? ==> r.stocks == e.stocks && r.(stocks := p.stocks) == p
    ensures e.SetImage? ==> r.image == PickedImage(e.file) && r.(image := p.image) == p
  {
    match e
    case SetName(n) => p.(name := Some(n))
    case SetDescription(s) => p.(description := s)
    case SetPrice(x) => p.(price := x)
    case SetStocks(x) => p.(stocks := x)
    case SetImage(file) => p.(image := PickedImage(file))
  }

  // ---------------------------------------------------------------------------
  // Page state and handlers

  /** The page's state: the list, the new-product form, the product open in
      the edit form, the product awaiting delete confirmation, and the
      pending validation message. */
  datatype Page = Page(products: seq<Product>, draft: Draft, selected: Option<Product>,
                       toDelete: Option<Product>, error: string)

  /** The new state and the request body sent, if any request was made. */
  datatype Submission<Req> = Submission(page: Page, sent: Option<Req>)

  /** `handleInputChange`: the edit goes to the selected product when one
      is open for editing, otherwise to the new-product form; the message
      is cleared either way. */
  function ChangeInput(pg: Page, e: Edit): (r: Page)
    ensures r.error == ""
    ensures r.products == pg.products && r.toDelete == pg.toDelete
    ensures r.selected.Some? <==> pg.selected.Some?
    ensures pg.selected.Some? ==> r.draft == pg.draft && r.selected.value == EditProduct(pg.selected.value, e)
    ensures pg.selected.None? ==> r.draft == EditDraft(pg.draft, e)
  {
    if pg.selected.Some? then pg.(selected := Some(EditProduct(pg.selected.value, e)), error := "")
    else pg.(draft := EditDraft(pg.draft, e), error := "")
  }

  /** `handleFormSubmit`, with the server's reply to the POST as a parameter. */
  function SubmitNew(pg: Page, reply: Reply<Product>): (r: Submission<Draft>)
    ensures r.sent.Some? <==> ValidateNew(pg.draft).Valid?
    ensures r.sent.Some? ==> r.sent.value == pg.draft
    ensures r.sent.None? ==> r.page == pg.(error := Message(ValidateNew(pg.draft).rule))
    ensures r.sent.Some? && reply.Ok? ==>
      && |r.page.products| == |pg.products| + 1
      && r.page.products[..|pg.products|] == pg.products
      && r.page.products[|pg.products|] == reply.value
      && r.page.draft == EmptyDraft
      && r.page.(products := pg.products, draft := pg.draft) == pg
    ensures reply.Err? ==> r.page.products == pg.products
    ensures r.sent.Some? && reply.Err? ==> r.page == pg
  {
    var v := ValidateNew(pg.draft);
    if !v.Valid? then
      Submission(pg.(error := ErrorAfter(v, pg.error)), None)
    else
      match reply
      case Ok(created) => Submission(pg.(products := pg.products + [created], draft := EmptyDraft), Some(pg.draft))
      case Err => Submission(pg, Some(pg.draft))
  }

  /** `handleEditFormSubmit`, with the server's reply to the PATCH as a
      parameter. The request carries the selected product, id included. */
  function SubmitEdit(pg: Page, reply: Reply<Product>): (r: Submission<Product>)
    ensures r.sent.Some? <==> ValidateSelected(pg.selected).Valid?
    ensures r.sent.Some? ==> pg.selected == Some(r.sent.value)
    ensures r.sent.None? ==> r.page.products == pg.products && r.page.selected == pg.selected
    ensures r.sent.None? && pg.selected.None? ==> r.page == pg
    ensures r.sent.None? && pg.selected.Some? ==> r.page == pg.(error := Message(ValidateSelected(pg.selected).rule))
    ensures r.sent.Some? && reply.Ok? ==>
      && r.page.products == ReplaceById(pg.products, reply.value)
      && r.page.selected.None?
      && r.page.(products := pg.products, selected := pg.selected) == pg
    ensures r.sent.Some? && reply.Err? ==> r.page == pg
  {
    var v := ValidateSelected(pg.selected);
    if !v.Valid? then
      Submission(pg.(error := ErrorAfter(v, pg.error)), None)
    else
      match reply
      case Ok(updated) => Submission(pg.(products := ReplaceById(pg.products, updated), selected := None), pg.selected)
      case Err => Submission(pg, pg.selected)
  }

  /** `handleDelete`, with the server's reply to the DELETE as a parameter.
      The request carries the id of the product awaiting confirmation. */
  function SubmitDelete(pg: Page, reply: Reply<()>): (r: Submission<string>)
    ensures r.sent.Some? <==> pg.toDelete.Some?
    ensures r.sent.Some? ==> r.sent.value == pg.toDelete.value.id
    ensures r.sent.None? || reply.Err? ==> r.page == pg
    ensures r.sent.Some? && reply.Ok? ==>
      && r.page.products == RemoveById(pg.products, pg.toDelete.value.id)
      && r.page.toDelete.None?
      && r.page.(products := pg.products, toDelete := pg.toDelete) == pg
  {
    match pg.toDelete
    case None => Submission(pg, None)
    case Some(p) =>
      match reply
      case Ok(_) => Submission(pg.(products := RemoveById(pg.products, p.id), toDelete := None), Some(p.id))
      case Err => Submission(pg, Some(p.id))
  }

  /** A rejected form never reaches the server, whatever the server would
      have answered, and leaves the list as it was. */
  lemma RejectedCreateSendsNothing(pg: Page, reply: Reply<Product>)
    requires pg.draft.price < MinPrice || pg.draft.stocks <= 0.0
    ensures SubmitNew(pg, reply).sent.None?
    ensures SubmitNew(pg, reply).page.products == pg.products
  {
  }

  /** A successful create followed by a successful delete of the created
      product leaves the other products exactly as a delete alone would. */
  lemma CreateThenDelete(pg: Page, created: Product)
    requires ValidateNew(pg.draft).Valid?
    ensures var after := SubmitNew(pg, Ok(created)).page;
            SubmitDelete(after.(toDelete := Some(created)), Ok(())).page.products
              == RemoveById(pg.products, created.id)
  {
    RemoveAfterAppend(pg.products, created);
  }
}
