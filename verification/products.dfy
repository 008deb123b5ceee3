/**
 The products page (src/app/products/page.tsx): products and categories
 fetched together, a create form and an in-place edit form behind one
 required-field gate, re-fetch after update and delete, a textarea parser for
 the e-mail list, and the display helpers of the product cards.
 */
module ProductsPage {
  import opened Types
  import Seqs
  import Strings
  import CategoriesPage

  const RequiredFieldsError := "Please fill in all required fields."
  const FetchError := "Failed to fetch data. Please try again later."
  const CreateError := "Failed to create product. Please try again."
  const UpdateError := "Failed to update product. Please try again."
  const DeleteError := "Failed to delete product. Please try again."
  const Uncategorized := "Uncategorized"
  const NoEmails := "No emails"
  const MoreEmails := ", ..."

  datatype State = State(
    products: seq<Product>,
    categories: seq<Category>,
    loading: bool,
    error: Option<string>,
    newProduct: ProductForm,      // the create form
    editingId: Option<string>,    // editingProductId
    editing: ProductForm,         // the edit form
    expanded: map<string, bool>)  // expandedEmails, by product id

  const Initial := State([], [], true, None, EmptyProductForm, None, EmptyProductForm, map[])

  /** The required-field gate shared by create and update. A string field is
      required to be non-empty as typed (no trimming), the cost positive. */
  predicate Submittable(f: ProductForm) {
    f.name != "" && f.cost > 0 && f.categoryId != "" && f.password != ""
  }

  predicate NonEmpty(s: string) {
    s != ""
  }

  /** What the textarea parser produces: a non-empty, trimmed, single-line
      entry. */
  predicate IsCleanEmail(e: string) {
    e != "" && Strings.IsTrimmed(e) && '\n' !in e
  }

  // ---------------------------------------------------------------------
  // Gateway handlers

  /** fetchData: lists products and categories together and replaces both
      only when both requests succeed. */
  function FetchData(s: State, products: Outcome<seq<Product>>, categories: Outcome<seq<Category>>): (r: Step<State>)
    ensures r.calls == [ListProducts, ListCategories]
    ensures !r.state.loading
    ensures products.Success? && categories.Success? ==>
      && r.state.products == products.value
      && r.state.categories == categories.value
      && r.state.error.None?
    ensures !(products.Success? && categories.Success?) ==>
      && r.state.products == s.products
      && r.state.categories == s.categories
      && r.state.error == Some(FetchError)
    ensures r.state.newProduct == s.newProduct && r.state.editing == s.editing
    ensures r.state.editingId == s.editingId && r.state.expanded == s.expanded
  {
    var busy := s.(loading := true, error := None);
    var calls := [ListProducts, ListCategories];
    if products.Success? && categories.Success? then
      Step(busy.(products := products.value, categories := categories.value, loading := false), calls)
    else
      Step(busy.(error := Some(FetchError), loading := false), calls)
  }

  /** handleCreate: the gate refuses an incomplete form without calling the
      gateway; otherwise the form is sent and the returned product appended. */
  function Create(s: State, reply: Outcome<Product>): (r: Step<State>)
    ensures !Submittable(s.newProduct) ==>
      r.calls == [] && r.state == s.(error := Some(RequiredFieldsError))
    ensures Submittable(s.newProduct) ==> r.calls == [CreateProduct(s.newProduct)]
    ensures Submittable(s.newProduct) && reply.Success? ==>
      && |r.state.products| == |s.products| + 1
      && r.state.products[..|s.products|] == s.products
      && r.state.products[|s.products|] == reply.value
      && r.state.newProduct == EmptyProductForm
      && r.state.error.None?
    ensures Submittable(s.newProduct) && reply.Failure? ==>
      r.state == s.(error := Some(CreateError))
    ensures r.state == s.(products := r.state.products, error := r.state.error, newProduct := r.state.newProduct)
  {
    if !Submittable(s.newProduct) then Step(s.(error := Some(RequiredFieldsError)), [])
    else
      var call := CreateProduct(s.newProduct);
      match reply
      case Success(p) =>
        Step(s.(error := None, products := s.products + [p], newProduct := EmptyProductForm), [call])
      case Failure => Step(s.(error := Some(CreateError)), [call])
  }

  /** handleUpdate: the same gate; on success the edit form closes and both
      lists are re-fetched (outcomes `products` and `categories`); on failure
      the form stays open with its contents. */
  function Update(s: State, reply: Outcome<Product>,
                  products: Outcome<seq<Product>>, categories: Outcome<seq<Category>>): (r: Step<State>)
    requires Submittable(s.editing) ==> s.editingId.Some?
    ensures !Submittable(s.editing) ==>
      r.calls == [] && r.state == s.(error := Some(RequiredFieldsError))
    ensures Submittable(s.editing) && reply.Failure? ==>
      && r.calls == [UpdateProduct(s.editingId.value, s.editing)]
      && r.state == s.(error := Some(UpdateError))
    ensures Submittable(s.editing) && reply.Success? ==>
      && r.calls == [UpdateProduct(s.editingId.value, s.editing), ListProducts, ListCategories]
      && r.state.editingId.None?
      && r.state.editing == EmptyProductForm
      && !r.state.loading
      && (products.Success? && categories.Success? ==>
            && r.state.products == products.value && r.state.categories == categories.value
            && r.state.error.None?)
      && (!(products.Success? && categories.Success?) ==>
            && r.state.products == s.products && r.state.categories == s.categories
            && r.state.error == Some(FetchError))
    ensures r.state.newProduct == s.newProduct && r.state.expanded == s.expanded
  {
    if !Submittable(s.editing) then Step(s.(error := Some(RequiredFieldsError)), [])
    else
      var call := UpdateProduct(s.editingId.value, s.editing);
      match reply
      case Success(_) =>
        var f := FetchData(s.(error := None, editingId := None, editing := EmptyProductForm),
                           products, categories);
        Step(f.state, [call] + f.calls)
      case Failure => Step(s.(error := Some(UpdateError)), [call])
  }

  /** handleDelete: no local filtering; on success both lists are re-fetched. */
  function Delete(s: State, id: string, reply: Outcome<()>,
                  products: Outcome<seq<Product>>, categories: Outcome<seq<Category>>): (r: Step<State>)
    ensures reply.Failure? ==>
      r.calls == [DeleteProduct(id)] && r.state == s.(error := Some(DeleteError))
    ensures reply.Success? ==>
      && r.calls == [DeleteProduct(id), ListProducts, ListCategories]
      && !r.state.loading
      && (products.Success? && categories.Success? ==>
            && r.state.products == products.value && r.state.categories == categories.value
            && r.state.error.None?)
      && (!(products.Success? && categories.Success?) ==>
            && r.state.products == s.products && r.state.categories == s.categories
            && r.state.error == Some(FetchError))
    ensures r.state.editingId == s.editingId && r.state.editing == s.editing
    ensures r.state.newProduct == s.newProduct && r.state.expanded == s.expanded
  {
    match reply
    case Success(_) =>
      var f := FetchData(s.(error := None), products, categories);
      Step(f.state, [DeleteProduct(id)] + f.calls)
    case Failure => Step(s.(error := Some(DeleteError)), [DeleteProduct(id)])
  }

  // ---------------------------------------------------------------------
  // Local handlers

  /** The plain category id behind either shape of a product's reference. */
  function PlainCategoryId(ref: CategoryRef): (r: string)
    ensures ref.ById? ==> r == ref.id
    ensures ref.Embedded? ==> r == ref.category.id
  {
    match ref
    case ById(id) => id
    case Embedded(c) => c.id
  }

  /** The edit form a product opens with (handleEdit's normalisation). */
  function EditDraft(p: Product): (r: ProductForm)
    ensures r.name == p.name.GetOr("") && r.password == p.password.GetOr("")
    ensures r.cost == p.cost.GetOr(0)
    ensures r.categoryId == PlainCategoryId(p.categoryId)
    ensures forall i :: 0 <= i < |r.emails| ==> r.emails[i] != "" && r.emails[i] in p.emails.GetOr([])
    ensures forall e :: e in p.emails.GetOr([]) && e != "" ==> e in r.emails
    ensures Seqs.IsSubsequence(r.emails, p.emails.GetOr([]))
    ensures forall e :: multiset(r.emails)[e] == if e != "" then multiset(p.emails.GetOr([]))[e] else 0
  {
    Seqs.FilterIsSubsequence(p.emails.GetOr([]), NonEmpty);
    forall e ensures multiset(Seqs.Filter(p.emails.GetOr([]), NonEmpty))[e]
                     == if e != "" then multiset(p.emails.GetOr([]))[e] else 0 {
      Seqs.FilterCount(p.emails.GetOr([]), NonEmpty, e);
    }
    ProductForm(p.name.GetOr(""), p.cost.GetOr(0), Seqs.Filter(p.emails.GetOr([]), NonEmpty),
                p.password.GetOr(""), PlainCategoryId(p.categoryId))
  }

  /** handleEdit: opens the edit form on `p`. */
  function Edit(s: State, p: Product): (r: State)
    ensures r.editingId == Some(p.id) && r.editing == EditDraft(p)
    ensures r == s.(editingId := r.editingId, editing := r.editing)
  {
    s.(editingId := Some(p.id), editing := EditDraft(p))
  }

  /** The textarea parser: one e-mail per line, each trimmed, blank lines
      dropped. */
  function ParseEmails(text: string): (r: seq<string>)
    ensures forall i :: 0 <= i < |r| ==> IsCleanEmail(r[i])
    ensures var lines := Strings.Split(text, '\n');
      forall i :: 0 <= i < |lines| && Strings.Trim(lines[i]) != [] ==> Strings.Trim(lines[i]) in r
    ensures Seqs.IsSubsequence(r, Seqs.Map(Strings.Split(text, '\n'), Strings.Trim))
    ensures var trimmed := Seqs.Map(Strings.Split(text, '\n'), Strings.Trim);
      forall e :: multiset(r)[e] == if e != "" then multiset(trimmed)[e] else 0
  {
    ParseLines(Strings.Split(text, '\n'))
  }

  /** The part of the parser after the split: trim every line, drop the
      blank ones. */
  function ParseLines(lines: seq<string>): (r: seq<string>)
    requires forall i :: 0 <= i < |lines| ==> '\n' !in lines[i]
    ensures forall i :: 0 <= i < |r| ==> IsCleanEmail(r[i])
    ensures forall i :: 0 <= i < |lines| && Strings.Trim(lines[i]) != [] ==> Strings.Trim(lines[i]) in r
    ensures Seqs.IsSubsequence(r, Seqs.Map(lines, Strings.Trim))
    ensures forall e :: multiset(r)[e] == if e != "" then multiset(Seqs.Map(lines, Strings.Trim))[e] else 0
  {
    CleanLinesParseClean(lines);
    Seqs.FilterIsSubsequence(Seqs.Map(lines, Strings.Trim), NonEmpty);
    DropsOnlyBlanks(Seqs.Map(lines, Strings.Trim));
    Seqs.Filter(Seqs.Map(lines, Strings.Trim), NonEmpty)
  }

  /** Dropping the empty entries keeps every copy of every other entry. */
  lemma DropsOnlyBlanks(t: seq<string>)
    ensures forall e :: multiset(Seqs.Filter(t, NonEmpty))[e] == if e != "" then multiset(t)[e] else 0
  {
    forall e ensures multiset(Seqs.Filter(t, NonEmpty))[e] == if e != "" then multiset(t)[e] else 0 {
      Seqs.FilterCount(t, NonEmpty, e);
    }
  }

  /** handleEmailsChange: the form's e-mail list is re-parsed from the text. */
  function EmailsChange(f: ProductForm, text: string): (r: ProductForm)
    ensures r.emails == ParseEmails(text)
    ensures r == f.(emails := r.emails)
  {
    f.(emails := ParseEmails(text))
  }

  /** Whether a product's e-mail list is shown in full; an id never toggled
      counts as collapsed. */
  predicate IsExpanded(m: map<string, bool>, id: string) {
    id in m && m[id]
  }

  /** toggleEmails: flips the flag of `id` and of no other product. */
  function ToggleEmails(s: State, id: string): (r: State)
    ensures IsExpanded(r.expanded, id) == !IsExpanded(s.expanded, id)
    ensures forall k :: k != id ==> (k in r.expanded <==> k in s.expanded)
    ensures forall k :: k != id && k in s.expanded ==> r.expanded[k] == s.expanded[k]
    ensures r == s.(expanded := r.expanded)
  {
    s.(expanded := s.expanded[id := !IsExpanded(s.expanded, id)])
  }

  // ---------------------------------------------------------------------
  // Display helpers of a product card

  /** The card's e-mail line: more than three e-mails show the first three
      and ", ..."; otherwise all of them, or "No emails" when that joined text
      is empty (no list, an empty list, or one empty e-mail). */
  function EmailSummary(emails: Option<seq<string>>): (r: string)
    ensures emails.None? ==> r == NoEmails
    ensures emails.Some? && |emails.value| > 3 ==>
      r == Strings.Join(emails.value[..3], ", ") + MoreEmails
    ensures emails.Some? && (|emails.value| == 0 || (|emails.value| == 1 && emails.value[0] == "")) ==>
      r == NoEmails
    ensures emails.Some? && |emails.value| <= 3 && !(|emails.value| == 0 || (|emails.value| == 1 && emails.value[0] == "")) ==>
      r == Strings.Join(emails.value, ", ")
  {
    match emails
    case None => NoEmails
    case Some(es) =>
      if |es| > 3 then Strings.Join(es[..3], ", ") + MoreEmails
      else
        var joined := Strings.Join(es, ", ");
        JoinEmptyExactly(es, ", ");
        if joined == "" then NoEmails else joined
  }

  /** The category line of a card: an embedded category shows its own name;
      a bare id shows the name of the first category with that id, unless
      there is none or its name is empty, which shows "Uncategorized". */
  function CategoryName(ref: CategoryRef, categories: seq<Category>): (r: string)
    ensures ref.Embedded? ==> r == ref.category.name
    ensures ref.ById? && (forall j :: 0 <= j < |categories| ==> categories[j].id != ref.id) ==>
      r == Uncategorized
    ensures forall i :: ref.ById? && 0 <= i < |categories| && categories[i].id == ref.id
                        && (forall j :: 0 <= j < i ==> categories[j].id != ref.id) ==>
      r == (if categories[i].name == "" then Uncategorized else categories[i].name)
  {
    match ref
    case Embedded(c) => c.name
    case ById(id) =>
      match Seqs.Find(categories, CategoriesPage.HasId(id))
      case None => Uncategorized
      case Some(i) => if categories[i].name == "" then Uncategorized else categories[i].name
  }

  /** The products the grid renders: those whose id is not empty. */
  function Rendered(ps: seq<Product>): (r: seq<Product>)
    ensures forall i :: 0 <= i < |r| ==> r[i].id != "" && r[i] in ps
    ensures forall i :: 0 <= i < |ps| && ps[i].id != "" ==> ps[i] in r
  {
    Seqs.Filter(ps, (p: Product) => p.id != "")
  }

  // ---------------------------------------------------------------------
  // Helper facts

  /** Trimming newline-free lines and dropping the blank ones leaves only
      non-empty, trimmed, newline-free entries. */
  lemma CleanLinesParseClean(lines: seq<string>)
    requires forall i :: 0 <= i < |lines| ==> '\n' !in lines[i]
    ensures var r := Seqs.Filter(Seqs.Map(lines, Strings.Trim), NonEmpty);
      forall i :: 0 <= i < |r| ==> IsCleanEmail(r[i])
  {
    var trimmed := Seqs.Map(lines, Strings.Trim);
    var r := Seqs.Filter(trimmed, NonEmpty);
    forall i | 0 <= i < |r| ensures IsCleanEmail(r[i]) {
      var k :| 0 <= k < |trimmed| && trimmed[k] == r[i];
      Strings.TrimKeepsAbsentChar(lines[k], '\n');
    }
  }

  /** A joined list is empty exactly when the list is empty or is one empty
      element (two or more elements always leave a separator). */
  lemma JoinEmptyExactly(xs: seq<string>, sep: string)
    requires sep != ""
    ensures Strings.Join(xs, sep) == "" <==> |xs| == 0 || (|xs| == 1 && xs[0] == "")
  {
    if |xs| >= 2 {
      assert |Strings.Join(xs, sep)| >= |sep|;
    }
  }

  /** Splitting text that ends in a newline adds one empty last piece. */
  lemma {:induction false} SplitTrailingSeparator(t: string, sep: char)
    ensures Strings.Split(t + [sep], sep) == Strings.Split(t, sep) + [[]]
    decreases |t|
  {
    if t == [] {
      assert [] + [sep] == [sep];
      var single: string := [sep];
      assert single[1..] == [];
    } else {
      assert (t + [sep])[1..] == t[1..] + [sep];
      assert (t + [sep])[0] == t[0];
      SplitTrailingSeparator(t[1..], sep);
    }
  }

  // ---------------------------------------------------------------------
  // Properties

  /** The textarea round trip: parsing the text the textarea shows (the list
      joined with newlines) gives back the list, for e-mails that are
      non-empty, trimmed and free of newlines. */
  lemma {:induction false} ParseJoinRoundTrip(xs: seq<string>)
    requires forall i :: 0 <= i < |xs| ==> IsCleanEmail(xs[i])
    ensures ParseEmails(Strings.Join(xs, "\n")) == xs
  {
    if xs == [] {
      assert Strings.Split([], '\n') == [[]];
      assert Seqs.Map([[]], Strings.Trim) == [[]];
    } else {
      Strings.SplitJoin(xs, '\n');
      forall i | 0 <= i < |xs| ensures Strings.Trim(xs[i]) == xs[i] {
        Strings.TrimFixesTrimmed(xs[i]);
      }
      Seqs.MapIdentity(xs, Strings.Trim);
      Seqs.FilterKeepsAll(xs, NonEmpty);
    }
  }

  /** A newline typed at the end of the textarea parses away: the list, and
      so the text the textarea re-renders, is what it was before the key. */
  lemma TrailingNewlineParsesAway(text: string)
    ensures ParseEmails(text + "\n") == ParseEmails(text)
  {
    var lines := Strings.Split(text, '\n');
    SplitTrailingSeparator(text, '\n');
    assert Strings.Split(text + "\n", '\n') == lines + [[]];
    BlankLineParsesAway(lines);
  }

  /** One more blank line adds nothing to the parse. */
  lemma BlankLineParsesAway(lines: seq<string>)
    requires forall i :: 0 <= i < |lines| ==> '\n' !in lines[i]
    ensures ParseLines(lines + [[]]) == ParseLines(lines)
  {
    BlankLineTrimsAway(lines);
  }

  /** The trim-and-drop stage ignores an empty last line. */
  lemma BlankLineTrimsAway(lines: seq<string>)
    ensures Seqs.Filter(Seqs.Map(lines + [[]], Strings.Trim), NonEmpty)
         == Seqs.Filter(Seqs.Map(lines, Strings.Trim), NonEmpty)
  {
    var trimmed := Seqs.Map(lines, Strings.Trim);
    Seqs.MapAppend(lines, [[]], Strings.Trim);
    assert Seqs.Map([[]], Strings.Trim) == [[]];
    Seqs.FilterAppend(trimmed, [[]], NonEmpty);
    assert Seqs.Filter([[]], NonEmpty) == [];
    assert Seqs.Filter(trimmed, NonEmpty) + [] == Seqs.Filter(trimmed, NonEmpty);
  }

  /** The gate, applied to an edit draft: it passes exactly when the product
      has a non-empty name and password, a positive cost and a non-empty
      category id, whichever shape that reference has. */
  lemma DraftSubmittableIff(p: Product)
    ensures Submittable(EditDraft(p)) <==>
      && p.name.Some? && p.name.value != ""
      && p.cost.Some? && p.cost.value > 0
      && p.password.Some? && p.password.value != ""
      && PlainCategoryId(p.categoryId) != ""
  {
  }

  /** A whitespace-only name passes the products gate (there is no trimming
      here, unlike the categories page). */
  lemma BlankNamePassesGate(f: ProductForm)
    requires f.cost > 0 && f.categoryId != "" && f.password != ""
    requires f.name != "" && Strings.Trim(f.name) == ""
    ensures Submittable(f)
  {
  }

  /** Toggling the same product twice restores every product's flag. */
  lemma ToggleTwiceRestores(s: State, id: string)
    ensures forall k :: IsExpanded(ToggleEmails(ToggleEmails(s, id), id).expanded, k) == IsExpanded(s.expanded, k)
  {
  }

  /** With more than three e-mails, the card shows what a card with just the
      first three would show, followed by ", ...". */
  lemma SummaryOfManyExtendsFirstThree(es: seq<string>)
    requires |es| > 3
    ensures EmailSummary(Some(es)) == EmailSummary(Some(es[..3])) + MoreEmails
  {
    assert es[..3][..3] == es[..3];
  }

  /** With unique category ids, a bare id resolves to the name of the one
      category carrying it, when that name is not empty. */
  lemma CategoryNameResolves(cs: seq<Category>, i: nat)
    requires CategoriesPage.UniqueIds(cs)
    requires i < |cs| && cs[i].name != ""
    ensures CategoryName(ById(cs[i].id), cs) == cs[i].name
  {
  }

  /** The embedded and bare shapes of the same category show the same name
      when the category is in the fetched list, ids are unique and the name
      is not empty. */
  lemma CategoryShapesAgree(cs: seq<Category>, i: nat)
    requires CategoriesPage.UniqueIds(cs)
    requires i < |cs| && cs[i].name != ""
    ensures CategoryName(Embedded(cs[i]), cs) == CategoryName(ById(cs[i].id), cs)
  {
    CategoryNameResolves(cs, i);
  }

  /** A successful create shows the returned product last on the page when
      it carries an id, after the cards shown before. */
  lemma {:induction false} CreateRendersAppended(s: State, reply: Outcome<Product>)
    requires Submittable(s.newProduct) && reply.Success? && reply.value.id != ""
    ensures Rendered(Create(s, reply).state.products) == Rendered(s.products) + [reply.value]
  {
    Seqs.FilterAppend(s.products, [reply.value], (p: Product) => p.id != "");
  }

  /** Both forms only ever hold non-empty e-mails: the blank form has none,
      the parser drops blanks, and the edit draft filters them out. */
  predicate FormsHaveNoBlankEmails(s: State) {
    && (forall i :: 0 <= i < |s.newProduct.emails| ==> s.newProduct.emails[i] != "")
    && (forall i :: 0 <= i < |s.editing.emails| ==> s.editing.emails[i] != "")
  }

  lemma GatewayHandlersKeepNoBlankEmails(s: State, id: string,
                                         reply: Outcome<Product>, done: Outcome<()>,
                                         ps: Outcome<seq<Product>>, cs: Outcome<seq<Category>>)
    requires FormsHaveNoBlankEmails(s)
    ensures FormsHaveNoBlankEmails(Initial)
    ensures FormsHaveNoBlankEmails(FetchData(s, ps, cs).state)
    ensures FormsHaveNoBlankEmails(Create(s, reply).state)
    ensures FormsHaveNoBlankEmails(Delete(s, id, done, ps, cs).state)
  {
  }

  /** The update handler keeps the invariant whether its gate passes or
      rejects. */
  lemma UpdateKeepsNoBlankEmails(s: State, reply: Outcome<Product>,
                                 ps: Outcome<seq<Product>>, cs: Outcome<seq<Category>>)
    requires FormsHaveNoBlankEmails(s)
    ensures (Submittable(s.editing) ==> s.editingId.Some?) ==> FormsHaveNoBlankEmails(Update(s, reply, ps, cs).state)
  {
  }

  lemma LocalHandlersKeepNoBlankEmails(s: State, p: Product, id: string, text: string)
    requires FormsHaveNoBlankEmails(s)
    ensures FormsHaveNoBlankEmails(Edit(s, p))
    ensures FormsHaveNoBlankEmails(s.(newProduct := EmailsChange(s.newProduct, text)))
    ensures FormsHaveNoBlankEmails(s.(editing := EmailsChange(s.editing, text)))
    ensures FormsHaveNoBlankEmails(ToggleEmails(s, id))
  {
  }
}
