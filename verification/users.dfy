/**
 The users page (src/app/users/page.tsx): the fetched `users`, a derived
 `filteredUsers` view produced by a case-insensitive username search, and an
 in-place balance editor. Delete and save patch both lists locally, so the
 view stays equal to the search over the full list.
 */
module UsersPage {
  import opened Types
  import Seqs
  import Strings

  const FetchError := "Failed to fetch users."
  const DeleteError := "Failed to delete user."
  const UpdateError := "Failed to update user."

  datatype State = State(
    users: seq<User>,
    filtered: seq<User>,       // filteredUsers, what the grid shows
    editingId: Option<string>, // editingUserId
    draftBalance: int,         // updatedBalance, the balance input
    query: string,             // searchQuery, stored lower-cased
    loading: bool,
    saving: bool,
    error: Option<string>)

  const Initial := State([], [], None, 0, "", false, false, None)

  /** The search test for one user: the lower-cased username contains the
      (already lower-cased) query. */
  function Matches(query: string): User -> bool {
    (u: User) => Strings.Contains(Strings.Lower(u.username), query)
  }

  /** The users, in order, whose lower-cased username contains `query`. */
  function Search(users: seq<User>, query: string): (r: seq<User>)
    ensures forall i :: 0 <= i < |r| ==>
      r[i] in users && Strings.Contains(Strings.Lower(r[i].username), query)
    ensures forall i :: 0 <= i < |users| && Strings.Contains(Strings.Lower(users[i].username), query) ==>
      users[i] in r
  {
    Seqs.Filter(users, Matches(query))
  }

  /** The view the page shows is the search over the full list. */
  predicate Consistent(s: State) {
    s.filtered == Search(s.users, s.query)
  }

  /** The delete patch applied to either list. */
  function RemoveUser(us: seq<User>, id: string): (r: seq<User>)
    ensures forall i :: 0 <= i < |r| ==> r[i].id != id && r[i] in us
    ensures forall i :: 0 <= i < |us| && us[i].id != id ==> us[i] in r
  {
    Seqs.Filter(us, (u: User) => u.id != id)
  }

  /** The save patch applied to either list: the user(s) with id `id` get
      balance `b`; nothing else changes. */
  function SetBalance(us: seq<User>, id: string, b: int): (r: seq<User>)
    ensures |r| == |us|
    ensures forall i :: 0 <= i < |us| ==> r[i].id == us[i].id && r[i].username == us[i].username
    ensures forall i :: 0 <= i < |us| && us[i].id == id ==> r[i].balance == b
    ensures forall i :: 0 <= i < |us| && us[i].id != id ==> r[i] == us[i]
  {
    Seqs.Map(us, (u: User) => if u.id == id then u.(balance := b) else u)
  }

  /** fetchUsers (on mount): both lists become the fetched list; the error is
      cleared first and loading is over either way. */
  function Fetch(s: State, reply: Outcome<seq<User>>): (r: Step<State>)
    ensures r.calls == [ListUsers]
    ensures !r.state.loading
    ensures reply.Success? ==>
      r.state.users == reply.value && r.state.filtered == reply.value && r.state.error.None?
    ensures reply.Failure? ==>
      r.state.users == s.users && r.state.filtered == s.filtered && r.state.error == Some(FetchError)
    ensures r.state == s.(users := r.state.users, filtered := r.state.filtered,
                          loading := r.state.loading, error := r.state.error)
  {
    var busy := s.(loading := true, error := None);
    match reply
    case Success(us) => Step(busy.(users := us, filtered := us, loading := false), [ListUsers])
    case Failure => Step(busy.(error := Some(FetchError), loading := false), [ListUsers])
  }

  /** handleDelete: on success the id is filtered out of both lists. */
  function Delete(s: State, id: string, reply: Outcome<()>): (r: Step<State>)
    ensures r.calls == [DeleteUser(id)]
    ensures reply.Success? ==>
      && r.state.users == RemoveUser(s.users, id)
      && r.state.filtered == RemoveUser(s.filtered, id)
      && r.state.error.None?
    ensures reply.Failure? ==> r.state == s.(error := Some(DeleteError))
    ensures r.state == s.(users := r.state.users, filtered := r.state.filtered, error := r.state.error)
  {
    match reply
    case Success(_) =>
      Step(s.(error := None, users := RemoveUser(s.users, id),
              filtered := RemoveUser(s.filtered, id)), [DeleteUser(id)])
    case Failure => Step(s.(error := Some(DeleteError)), [DeleteUser(id)])
  }

  /** handleEdit: opens the balance editor on `u` with its current balance. */
  function Edit(s: State, u: User): (r: State)
    ensures r.editingId == Some(u.id) && r.draftBalance == u.balance
    ensures r == s.(editingId := r.editingId, draftBalance := r.draftBalance)
  {
    s.(editingId := Some(u.id), draftBalance := u.balance)
  }

  /** handleBalanceChange: any number is accepted, negative ones included. */
  function BalanceChange(s: State, b: int): (r: State)
    ensures r.draftBalance == b
    ensures r == s.(draftBalance := r.draftBalance)
  {
    s.(draftBalance := b)
  }

  /** The Cancel button: closes the balance editor. */
  function CancelEdit(s: State): (r: State)
    ensures r.editingId.None?
    ensures r == s.(editingId := r.editingId)
  {
    s.(editingId := None)
  }

  /** handleSave: sends the draft balance for `id`; on success both lists get
      that balance locally (the response body is not used) and the editor
      closes; on failure nothing but the error changes. `saving` is false
      afterwards either way. */
  function Save(s: State, id: string, reply: Outcome<User>): (r: Step<State>)
    ensures r.calls == [UpdateUserBalance(id, s.draftBalance)]
    ensures !r.state.saving
    ensures reply.Success? ==>
      && r.state.users == SetBalance(s.users, id, s.draftBalance)
      && r.state.filtered == SetBalance(s.filtered, id, s.draftBalance)
      && r.state.editingId.None? && r.state.error.None?
    ensures reply.Failure? ==> r.state == s.(error := Some(UpdateError), saving := false)
    ensures r.state == s.(users := r.state.users, filtered := r.state.filtered, editingId := r.state.editingId,
                          saving := r.state.saving, error := r.state.error)
  {
    var busy := s.(saving := true, error := None);
    var call := UpdateUserBalance(id, s.draftBalance);
    match reply
    case Success(_) =>
      Step(busy.(users := SetBalance(s.users, id, s.draftBalance),
                 filtered := SetBalance(s.filtered, id, s.draftBalance),
                 editingId := None, saving := false), [call])
    case Failure => Step(busy.(error := Some(UpdateError), saving := false), [call])
  }

  /** handleSearchChange: stores the lower-cased input as the query and
      recomputes the view from the full list. */
  function SearchChange(s: State, input: string): (r: State)
    ensures r.query == Strings.Lower(input)
    ensures Consistent(r)
    ensures r == s.(query := r.query, filtered := r.filtered)
  {
    var q := Strings.Lower(input);
    s.(query := q, filtered := Search(s.users, q))
  }

  // ---------------------------------------------------------------------
  // Properties of the search view

  /** The view lists users in their original order. */
  lemma SearchKeepsOrder(us: seq<User>, query: string)
    ensures Seqs.IsSubsequence(Search(us, query), us)
  {
    Seqs.FilterIsSubsequence(us, Matches(query));
  }

  /** The empty query shows every user. */
  lemma EmptyQueryShowsAll(us: seq<User>)
    ensures Search(us, "") == us
  {
    forall i | 0 <= i < |us| ensures Matches("")(us[i]) {
      Strings.ContainsEmpty(Strings.Lower(us[i].username));
    }
    Seqs.FilterKeepsAll(us, Matches(""));
  }

  /** Widening the query never hides a user a narrower query shows: if the
      new query occurs inside the old one, everything shown before is still
      shown. */
  lemma WideningKeepsShown(s: State, narrow: string, wide: string)
    requires Strings.Contains(Strings.Lower(narrow), Strings.Lower(wide))
    ensures forall i :: 0 <= i < |SearchChange(s, narrow).filtered| ==>
      SearchChange(s, narrow).filtered[i] in SearchChange(SearchChange(s, narrow), wide).filtered
  {
    var n := SearchChange(s, narrow);
    var w := SearchChange(n, wide);
    forall i | 0 <= i < |n.filtered| ensures n.filtered[i] in w.filtered {
      var u := n.filtered[i];
      Strings.ContainsTransitive(Strings.Lower(u.username), Strings.Lower(narrow), Strings.Lower(wide));
      var k :| 0 <= k < |s.users| && s.users[k] == u;
    }
  }

  /** Widening after narrowing restores: every user of the full list that
      matches the wide query is shown again, including the ones the narrow
      query hid. */
  lemma WideningRestores(s: State, narrow: string, wide: string)
    ensures forall i ::
      && 0 <= i < |s.users|
      && Strings.Contains(Strings.Lower(s.users[i].username), Strings.Lower(wide))
      ==> s.users[i] in SearchChange(SearchChange(s, narrow), wide).filtered
  {
  }

  /** The search ignores ASCII case: inputs that agree up to case give the
      same page, and users whose names agree up to case are shown together. */
  lemma SearchIgnoresCase(s: State, a: string, b: string)
    requires |a| == |b| && forall i :: 0 <= i < |a| ==> Strings.SameUpToCase(a[i], b[i])
    ensures SearchChange(s, a) == SearchChange(s, b)
  {
    Strings.LowerIgnoresCase(a, b);
  }

  lemma MatchIgnoresNameCase(query: string, u: User, v: User)
    requires |u.username| == |v.username|
    requires forall i :: 0 <= i < |u.username| ==> Strings.SameUpToCase(u.username[i], v.username[i])
    ensures Matches(query)(u) == Matches(query)(v)
  {
    Strings.LowerIgnoresCase(u.username, v.username);
  }

  /** Typing the query the page already holds (it is stored lower-cased)
      leaves the page as it is. */
  lemma ResubmittingQueryIsNoOp(s: State, input: string)
    ensures SearchChange(SearchChange(s, input), SearchChange(s, input).query) == SearchChange(s, input)
  {
    Strings.LowerIdempotent(input);
  }

  /** The view after a search does not depend on earlier searches. */
  lemma SearchForgetsPreviousView(s: State, first: string, second: string)
    ensures SearchChange(SearchChange(s, first), second) == SearchChange(s, second)
  {
  }

  // ---------------------------------------------------------------------
  // The consistency invariant between users and filteredUsers

  lemma {:induction false} DeleteKeepsConsistent(s: State, id: string, reply: Outcome<()>)
    requires Consistent(s)
    ensures Consistent(Delete(s, id, reply).state)
  {
    if reply.Success? {
      Seqs.FilterCommutes(s.users, Matches(s.query), (u: User) => u.id != id);
    }
  }

  lemma {:induction false} SaveKeepsConsistent(s: State, id: string, reply: Outcome<User>)
    requires Consistent(s)
    ensures Consistent(Save(s, id, reply).state)
  {
    if reply.Success? {
      var f := (u: User) => if u.id == id then u.(balance := s.draftBalance) else u;
      Seqs.FilterMapCommute(s.users, f, Matches(s.query));
    }
  }

  /** The mount-time fetch runs with the initial (empty) query, where listing
      every user is the search result. */
  lemma FetchAtMountConsistent(reply: Outcome<seq<User>>)
    ensures Consistent(Fetch(Initial, reply).state)
  {
    if reply.Success? {
      EmptyQueryShowsAll(reply.value);
    }
  }

  /** The local handlers of the balance editor touch neither list nor the
      query, so they keep the view consistent. */
  lemma EditKeepsConsistent(s: State, u: User)
    requires Consistent(s)
    ensures Consistent(Edit(s, u))
  {
  }

  lemma BalanceChangeKeepsConsistent(s: State, b: int)
    requires Consistent(s)
    ensures Consistent(BalanceChange(s, b))
  {
  }

  lemma CancelEditKeepsConsistent(s: State)
    requires Consistent(s)
    ensures Consistent(CancelEdit(s))
  {
  }

  // ---------------------------------------------------------------------
  // Properties of delete and save

  /** Delete keeps the order of both lists. */
  lemma DeleteKeepsOrder(us: seq<User>, id: string)
    ensures Seqs.IsSubsequence(RemoveUser(us, id), us)
  {
    Seqs.FilterIsSubsequence(us, (u: User) => u.id != id);
  }

  /** Save ignores the server's echo of the user. */
  lemma SaveIgnoresResponse(s: State, id: string, u1: User, u2: User)
    ensures Save(s, id, Success(u1)) == Save(s, id, Success(u2))
  {
  }
}
