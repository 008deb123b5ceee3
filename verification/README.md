# Admin store pages: a Dafny model of their state handling

The admin store is a browser console over a REST gateway with three pages:
users, products and categories. None of them holds an algorithm. What each
holds is a set of event handlers. A handler calls the gateway. When the
promise settles, it patches or replaces the page's local lists and sets
flags such as the error message, loading and the row being edited.

This project models every such handler as a pure function. Each takes the
page state plus the settled outcome of every gateway call it makes
(`Success(response)` or `Failure`). It returns a `Step`: the new state, and
the gateway requests it issued, in order. Having the requests in the result
lets a contract say "no gateway call was made".

Modules:

- `Types` (`types.dfy`): the wire records `User`, `Category`, `Product`
  (`categoryId` is `ById(id) | Embedded(category)`), the product form, the
  gateway `Call`s, `Outcome` and `Step`.
- `Seqs` (`seqs.dfy`): `Filter`, `Find` (`findIndex`) and `Map` as
  `Array.prototype` defines them,
  plus facts about them: subsequence, commuting filters, filter/map
  commutation, and filter over append.
- `Strings` (`strings.dfy`): `trim` with the exact ECMAScript whitespace
  set, `split` on one character, `join`, ASCII `toLowerCase` and `includes`.
  It also proves that `Split` and `Join` are inverses.
- `CategoriesPage` (`categories.dfy`): reconciliation of the category list.
  Create appends, delete filters, and update replaces the matching entries
  and then re-fetches. Names are checked to be non-blank after trimming.
- `UsersPage` (`users.dfy`): the `users` list and the derived
  `filteredUsers` view. The model proves that delete, save and the local
  edits keep the view equal to the search over the full list.
- `ProductsPage` (`products.dfy`):
  - the required-field gate;
  - all-or-nothing fetch of products and categories;
  - re-fetch after update and delete;
  - the textarea e-mail parser and its round trip with `join("\n")`;
  - the edit-draft normaliser;
  - the expand toggle;
  - the card's e-mail summary and category name.

One consequence of the as-written e-mail parser is proved, not assumed
(`ProductsPage.TrailingNewlineParsesAway`). The textarea re-parses on every
keystroke, and a trailing newline parses away. So when the list on screen
is already clean (every entry non-empty, trimmed and single-line), typing
Enter at its end re-renders the same text. The edit form opens with the
server's e-mails untrimmed (src/app/products/page.tsx:120), so there the
first keystroke can change the text.

Facts about the code that the model keeps:

- The products gate does not trim, so a whitespace-only name passes it
  (src/app/products/page.tsx:95-103). Only the categories page trims
  the name it checks (src/app/categories/page.tsx:45, 84); the products
  page trims only e-mail lines (src/app/products/page.tsx:88).
- A product update does not patch the list locally. It re-fetches both
  lists (src/app/products/page.tsx:142-146).
- A user save ignores the server's response. It writes the locally edited
  balance into both lists (src/app/users/page.tsx:63-73).
- An embedded category shows its own name, even when that name is empty.
  Only a bare id falls back to "Uncategorized"
  (src/app/products/page.tsx:284-287).
- A category delete removes every entry with the id
  (src/app/categories/page.tsx:67-69). When ids are unique the list shrinks
  by exactly one (`CategoriesPage.DeleteShrinksByOne`).

## Model

| member | source | states |
|---|---|---|
| `Seqs.Filter` | src/app/users/page.tsx:92-94 | `filter` keeps only elements that pass, and every element that passes is kept |
| `Seqs.FilterCount` | src/app/users/page.tsx:92-94 | `filter` keeps every copy of a passing element and no copy of a failing one; with `Seqs.FilterIsSubsequence` this fixes the result |
| `Seqs.FilterIsSubsequence` | src/app/users/page.tsx:92-94 | `filter` only deletes, so what it keeps stays in its original order |
| `Seqs.Map` | src/app/categories/page.tsx:96-98 | `map` keeps the length and applies the function at every position; `Seqs.MapAppend` and `Seqs.FilterMapCommute` are its partners |
| `Seqs.FilterMapCommute` | src/app/users/page.tsx:64-73 | filtering after a map that keeps the test's verdict equals mapping after the filter |
| `Strings.Trim` | src/app/categories/page.tsx:45 | the result has no leading or trailing whitespace and is no longer than `s` |
| `Strings.TrimStrips` | src/app/categories/page.tsx:45 | the trimmed string is the part of `s` left between a whitespace-only prefix and a whitespace-only suffix |
| `Strings.TrimBlankIff` | src/app/categories/page.tsx:45 | trimming leaves nothing exactly when `s` is all whitespace, which is when the blank-name guard fires |
| `Strings.TrimKeepsAbsentChar` | src/app/products/page.tsx:86-88 | trimming never introduces a character, so trimmed lines of a newline split stay newline-free |
| `Strings.TrimFixesTrimmed` | src/app/categories/page.tsx:45 | trimming leaves a string unchanged exactly when it has no leading or trailing whitespace |
| `Strings.Split` | src/app/products/page.tsx:87 | splitting on a character yields at least one piece, and no piece contains the separator |
| `Strings.SplitJoinsBack` | src/app/products/page.tsx:87 | joining the pieces of a split with the separator gives back the original text |
| `Strings.Join` | src/app/products/page.tsx:195 | the join of no element is empty, of one element is that element, and of several starts with the first element and the separator; `Strings.SplitJoin` and `ProductsPage.JoinEmptyExactly` pin it further |
| `Strings.SplitJoin` | src/app/products/page.tsx:195 | splitting the newline-join of a non-empty list of separator-free pieces gives back the list |
| `Strings.Contains` | src/app/users/page.tsx:93 | `includes` holds exactly when the query occurs at some position of the string |
| `Strings.Lower` | src/app/users/page.tsx:90-93 | lower-casing keeps the length and maps each ASCII capital to its own lower-case letter (code point + 32) and every other character to itself |
| `Strings.LowerIgnoresCase` | src/app/users/page.tsx:90-93 | two strings have the same lower-case form exactly when they agree position by position up to ASCII case |
| `Strings.ContainsTransitive` | src/app/users/page.tsx:93 | a substring of a substring of `s` is a substring of `s` |
| `Seqs.Find` | src/app/products/page.tsx:286 | `find` returns the first position whose element passes the test, or nothing when no element passes |
| `CategoriesPage.Remove` | src/app/categories/page.tsx:67-69 | the delete filter keeps exactly the categories whose id differs |
| `CategoriesPage.Replace` | src/app/categories/page.tsx:95-99 | the update patch has the same length; each entry with the id becomes the returned category; the others are untouched |
| `CategoriesPage.Rendered` | src/app/categories/page.tsx:153-155 | only categories with a non-empty id are rendered, and all of them are |
| `CategoriesPage.Fetch` | src/app/categories/page.tsx:24-36 | one list request; success replaces the list wholesale with the error cleared; failure keeps the list and sets the fetch message; loading ends false |
| `CategoriesPage.Create` | src/app/categories/page.tsx:44-60 | a name that is blank after trimming sets the empty-name message with no request and no other change; otherwise the trimmed name is sent; success appends the returned category after the unchanged old entries and clears the input; failure only sets the create message; no other field changes |
| `CategoriesPage.Delete` | src/app/categories/page.tsx:63-74 | one delete request; success filters the id out locally with no re-fetch; failure only sets the delete message |
| `CategoriesPage.Edit` | src/app/categories/page.tsx:77-80 | opens the editor on the category's id and name; no other field changes |
| `CategoriesPage.Update` | src/app/categories/page.tsx:83-111 | blank trimmed name: message and no request; otherwise the update is sent with the trimmed name; success closes the editor and re-fetches, so the list is the server's on a good re-fetch and the patched list with the fetch message on a bad one; failure keeps the editor open and the list unchanged; the create input is untouched |
| `CategoriesPage.CancelEdit` | src/app/categories/page.tsx:114-118 | clears the editing id, the editing name and the error; no other field changes |
| `CategoriesPage.DeleteKeepsOrder` | src/app/categories/page.tsx:67-69 | the remaining categories keep their original order |
| `CategoriesPage.DeleteShrinksByOne` | src/app/categories/page.tsx:67-69 | with unique ids, deleting a present id shortens the list by exactly one |
| `CategoriesPage.DeleteKeepsIdsUnique` | src/app/categories/page.tsx:67-69 | deleting preserves id uniqueness |
| `CategoriesPage.UpdateReadBack` | src/app/categories/page.tsx:95-99 | after patching with a response that carries the id, looking the id up finds the response at the same position |
| `CategoriesPage.UpdateKeepsIdsUnique` | src/app/categories/page.tsx:95-99 | patching with a response that carries the id preserves id uniqueness |
| `CategoriesPage.UpdatePatchIsRedundant` | src/app/categories/page.tsx:94-106 | after a successful update and re-fetch, the list is exactly the re-fetched list, whatever the patch did |
| `CategoriesPage.CreateRendersAppended` | src/app/categories/page.tsx:51-55 | a created category with an id is rendered last, after the categories rendered before |
| `CategoriesPage.HandlersKeepEditorClean` | src/app/categories/page.tsx:77-118 | every handler, the update on both its blank-name and its non-blank paths included, keeps "no row in edit implies empty edit name"; under it, a non-blank edit name implies an edit id, so the update's non-null assertion holds |
| `UsersPage.Search` | src/app/users/page.tsx:92-94 | the view holds exactly the users whose lower-cased username contains the query |
| `UsersPage.RemoveUser` | src/app/users/page.tsx:42-45 | the delete filter keeps exactly the users whose id differs |
| `UsersPage.SetBalance` | src/app/users/page.tsx:64-73 | the save patch keeps the length, every id and every username; matching users get the new balance; others are untouched |
| `UsersPage.Fetch` | src/app/users/page.tsx:20-33 | one list request; success sets both lists to the fetched list and clears the error; failure keeps both lists and sets the fetch message; loading ends false; only the lists, loading and the error change |
| `UsersPage.Delete` | src/app/users/page.tsx:38-50 | one delete request; success removes the id from both lists; failure only sets the delete message; only the lists and the error change |
| `UsersPage.Edit` | src/app/users/page.tsx:53-56 | opens the editor on the user's id with the user's balance as the draft; no other field changes |
| `UsersPage.BalanceChange` | src/app/users/page.tsx:84-86 | the draft takes any balance, negative included; nothing else changes |
| `UsersPage.CancelEdit` | src/app/users/page.tsx:154 | closes the balance editor and leaves both lists alone; only the editing id changes |
| `UsersPage.Save` | src/app/users/page.tsx:59-81 | sends the draft balance for the id; success writes it into both lists and closes the editor; failure changes only the error; saving ends false; only the lists, the editing id, saving and the error change |
| `UsersPage.SearchChange` | src/app/users/page.tsx:89-95 | stores the lower-cased query and makes the view equal to the search over the full list; only the query and the view change |
| `UsersPage.SearchKeepsOrder` | src/app/users/page.tsx:92-94 | the view is a subsequence of the users |
| `UsersPage.EmptyQueryShowsAll` | src/app/users/page.tsx:89-95 | the empty query shows every user, in order |
| `UsersPage.WideningRestores` | src/app/users/page.tsx:92-94 | after any narrowing search, a wider search shows every user of the full list that matches it, including those the narrow search hid |
| `UsersPage.WideningKeepsShown` | src/app/users/page.tsx:92-94 | a query that occurs inside the previous one keeps showing everything the previous one showed |
| `UsersPage.ResubmittingQueryIsNoOp` | src/app/users/page.tsx:89-95 | typing the stored (lower-cased) query again leaves the page unchanged |
| `UsersPage.SearchIgnoresCase` | src/app/users/page.tsx:89-95 | two search inputs that agree up to ASCII case give the same page |
| `UsersPage.MatchIgnoresNameCase` | src/app/users/page.tsx:93 | two users whose names agree up to ASCII case either both match a query or both do not |
| `UsersPage.SearchForgetsPreviousView` | src/app/users/page.tsx:92-94 | a search result does not depend on earlier searches, because it filters the full list |
| `UsersPage.DeleteKeepsConsistent` | src/app/users/page.tsx:41-45 | delete keeps the view equal to the search over the full list |
| `UsersPage.SaveKeepsConsistent` | src/app/users/page.tsx:63-73 | save keeps the view equal to the search over the full list |
| `UsersPage.FetchAtMountConsistent` | src/app/users/page.tsx:20-33 | the mount-time fetch leaves the view equal to the search under the empty query |
| `UsersPage.EditKeepsConsistent` | src/app/users/page.tsx:53-56 | opening the balance editor keeps the view equal to the search over the full list |
| `UsersPage.BalanceChangeKeepsConsistent` | src/app/users/page.tsx:84-86 | changing the draft balance keeps the view equal to the search over the full list |
| `UsersPage.CancelEditKeepsConsistent` | src/app/users/page.tsx:154 | cancelling the balance editor keeps the view equal to the search over the full list |
| `UsersPage.DeleteKeepsOrder` | src/app/users/page.tsx:42-45 | the remaining users keep their order |
| `UsersPage.SaveIgnoresResponse` | src/app/users/page.tsx:63-73 | the outcome of a save does not depend on the user the server echoes back |
| `ProductsPage.FetchData` | src/app/products/page.tsx:47-63 | both list requests are issued; both lists are replaced only when both succeed, otherwise neither is and the fetch message is set; loading ends false |
| `ProductsPage.Create` | src/app/products/page.tsx:93-113 | a form failing the gate sets the required-fields message with no request and no other change; otherwise the form is sent; success appends the returned product after the unchanged old ones and resets the form; failure only sets the create message; only the products, the error and the create form change |
| `ProductsPage.Update` | src/app/products/page.tsx:129-150 | the same gate with no request on rejection; success closes and resets the edit form and re-fetches both lists all-or-nothing, clearing the error when both arrive; failure keeps the form and the lists and sets the update message; the create form and expanded flags are untouched |
| `ProductsPage.Delete` | src/app/products/page.tsx:152-161 | no local filtering; success re-fetches both lists, replacing both and clearing the error when both arrive and keeping both with the fetch message otherwise; failure only sets the delete message; the forms and expanded flags are untouched |
| `ProductsPage.PlainCategoryId` | src/app/products/page.tsx:122-125 | an embedded category gives its own id; a bare id is kept as is |
| `ProductsPage.EditDraft` | src/app/products/page.tsx:117-126 | a missing name or password becomes "", a missing cost 0, and the category id is plain; the e-mails are the non-empty ones of the product, in their order and with every copy |
| `ProductsPage.Edit` | src/app/products/page.tsx:115-127 | opens the edit form on the product's id with its normalised draft; no other field changes |
| `ProductsPage.ParseEmails` | src/app/products/page.tsx:86-89 | every parsed entry is non-empty, trimmed and free of newlines; the result is the trimmed lines in order; only blank lines are dropped, and every copy of a non-blank line is kept |
| `ProductsPage.ParseLines` | src/app/products/page.tsx:88-89 | every entry is clean; the result is the trimmed lines in order; only blank lines are dropped, and every copy of a non-blank line is kept |
| `ProductsPage.DropsOnlyBlanks` | src/app/products/page.tsx:89 | filtering out the empty trimmed lines keeps every copy of every non-empty one and no copy of the empty string |
| `ProductsPage.EmailsChange` | src/app/products/page.tsx:82-91 | the form's e-mails become the parse of the text; the other fields are unchanged |
| `ProductsPage.ToggleEmails` | src/app/products/page.tsx:163-165 | flips the product's expanded flag, with absent counting as collapsed; every other product's entry is unchanged; no other field of the page changes |
| `ProductsPage.EmailSummary` | src/app/products/page.tsx:262-264 | more than three e-mails: the first three joined by ", " plus ", ..."; otherwise all of them joined, or "No emails" for a missing list, an empty list or a single empty e-mail |
| `ProductsPage.CategoryName` | src/app/products/page.tsx:284-287 | an embedded category shows its name; a bare id shows the first matching category's name, or "Uncategorized" when none matches or that name is empty |
| `ProductsPage.Rendered` | src/app/products/page.tsx:253-254 | only products with a non-empty id are rendered, and all of them are |
| `ProductsPage.JoinEmptyExactly` | src/app/products/page.tsx:264 | a join is empty exactly for an empty list or a single empty element |
| `ProductsPage.ParseJoinRoundTrip` | src/app/products/page.tsx:193-196 | parsing the textarea text (the list joined by newlines) gives the list back when every entry is non-empty, trimmed and single-line |
| `ProductsPage.TrailingNewlineParsesAway` | src/app/products/page.tsx:193-196 | a trailing newline does not change the parsed list |
| `ProductsPage.BlankLineParsesAway` | src/app/products/page.tsx:88-89 | an empty last line adds nothing to the parsed list |
| `ProductsPage.DraftSubmittableIff` | src/app/products/page.tsx:115-139 | an edit draft passes the gate exactly when the product has a non-empty name and password, a positive cost and a non-empty category id |
| `ProductsPage.BlankNamePassesGate` | src/app/products/page.tsx:95-103 | a whitespace-only name passes the gate, which does not trim |
| `ProductsPage.ToggleTwiceRestores` | src/app/products/page.tsx:163-165 | toggling a product twice restores every product's expanded flag |
| `ProductsPage.SummaryOfManyExtendsFirstThree` | src/app/products/page.tsx:262-264 | with more than three e-mails, the summary is that of the first three plus ", ..." |
| `ProductsPage.CategoryNameResolves` | src/app/products/page.tsx:284-287 | with unique ids, a bare id resolves to the name of the category carrying it when that name is non-empty |
| `ProductsPage.CategoryShapesAgree` | src/app/products/page.tsx:284-287 | for a fetched category with a non-empty name, the embedded and bare-id shapes show the same name |
| `ProductsPage.CreateRendersAppended` | src/app/products/page.tsx:106-108 | a created product with an id is shown last, after the cards shown before |
| `ProductsPage.GatewayHandlersKeepNoBlankEmails` | src/app/products/page.tsx:93-161 | fetch, create and delete keep both forms free of empty e-mails |
| `ProductsPage.UpdateKeepsNoBlankEmails` | src/app/products/page.tsx:129-150 | update keeps both forms free of empty e-mails, both when the gate passes and when it rejects |
| `ProductsPage.LocalHandlersKeepNoBlankEmails` | src/app/products/page.tsx:82-127 | opening the edit form and typing into either e-mail box keep both forms free of empty e-mails |

## Left out

- The REST gateway (`src/app/services/api.ts`) is not modelled. Each call
  becomes an `Outcome` parameter, and each request it would send is
  recorded as a `Call`.
- The home page, the layout, JSX rendering, styling and the loading-message
  conditions are left out. They hold no state logic.
- React scheduling is left out: `useEffect`, `Promise.all` running the two
  fetches concurrently, responses arriving after unmount, and overlapping
  handlers. Each handler is modelled as one sequential run to its settled
  end.
- `handleInputChange` and the plain setters of the category name and
  editing-name inputs are left out. They assign one field of a form. The
  `Number(...)` coercion of cost and balance is left out with them. Cost
  and balance are `int`, so a `NaN` cost, which passes the `cost <= 0`
  test, and fractional values are not modelled.
- `Strings.Lower`: lower-cases ASCII letters only. `toLowerCase` maps all
  of Unicode, so search over non-ASCII usernames is less case-insensitive
  in the model than in the page.
- `ProductsPage.EditDraft`: `cost || 0` also maps `NaN` to 0. Costs are
  integers here, so only the missing case is modelled. Non-string e-mail
  entries are not modelled either.
- `ProductsPage.Update` and `CategoriesPage.Update` require an editing id
  whenever the gate passes. This stands for the non-null assertion the
  page makes on that id.
- Wire records with a missing `_id` are modelled as an empty id.
  `categoryId` is never missing.
- `console.error` logging is left out.
