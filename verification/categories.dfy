/**
 The categories page (src/app/categories/page.tsx): a list of categories
 kept in step with the server by local patches (append on create, filter on
 delete, replace on update) plus re-fetches.
 */
module CategoriesPage {
  import opened Types
  import Seqs
  import Strings

  const EmptyNameError := "Category name cannot be empty."
  const FetchError := "Failed to fetch categories."
  const CreateError := "Failed to create category."
  const DeleteError := "Failed to delete category."
  const UpdateError := "Failed to update category."

  datatype State = State(
    categories: seq<Category>,
    loading: bool,
    error: Option<string>,
    newName: string,           // the create input
    editingId: Option<string>, // the row being edited in place, if any
    editingName: string)       // that row's name input

  const Initial := State([], false, None, "", None, "")

  /** No two categories share an id. */
  predicate UniqueIds(cs: seq<Category>) {
    forall i, j :: 0 <= i < j < |cs| ==> cs[i].id != cs[j].id
  }

  /** The test `find` and `filter` apply to a category: it carries `id`. */
  function HasId(id: string): Category -> bool {
    (c: Category) => c.id == id
  }

  /** The delete patch: drops every category with id `id`. */
  function Remove(cs: seq<Category>, id: string): (r: seq<Category>)
    ensures forall i :: 0 <= i < |r| ==> r[i].id != id && r[i] in cs
    ensures forall i :: 0 <= i < |cs| && cs[i].id != id ==> cs[i] in r
  {
    Seqs.Filter(cs, (c: Category) => c.id != id)
  }

  /** The update patch: every category with id `id` becomes `c`. */
  function Replace(cs: seq<Category>, id: string, c: Category): (r: seq<Category>)
    ensures |r| == |cs|
    ensures forall i :: 0 <= i < |cs| && cs[i].id == id ==> r[i] == c
    ensures forall i :: 0 <= i < |cs| && cs[i].id != id ==> r[i] == cs[i]
  {
    Seqs.Map(cs, (x: Category) => if x.id == id then c else x)
  }

  /** The categories the list renders: those whose id is not empty. */
  function Rendered(cs: seq<Category>): (r: seq<Category>)
    ensures forall i :: 0 <= i < |r| ==> r[i].id != "" && r[i] in cs
    ensures forall i :: 0 <= i < |cs| && cs[i].id != "" ==> cs[i] in r
  {
    Seqs.Filter(cs, (c: Category) => c.id != "")
  }

  /** fetchCategories: clears the error, lists the categories and replaces
      the whole list on success; loading is over either way. */
  function Fetch(s: State, reply: Outcome<seq<Category>>): (r: Step<State>)
    ensures r.calls == [ListCategories]
    ensures !r.state.loading
    ensures reply.Success? ==> r.state.categories == reply.value && r.state.error.None?
    ensures reply.Failure? ==> r.state.categories == s.categories && r.state.error == Some(FetchError)
    ensures r.state == s.(categories := r.state.categories, loading := r.state.loading, error := r.state.error)
  {
    var busy := s.(loading := true, error := None);
    match reply
    case Success(cs) => Step(busy.(categories := cs, loading := false), [ListCategories])
    case Failure => Step(busy.(error := Some(FetchError), loading := false), [ListCategories])
  }

  /** handleCreate: a name that is blank after trimming is refused locally;
      otherwise the trimmed name is sent and the returned category appended. */
  function Create(s: State, reply: Outcome<Category>): (r: Step<State>)
    ensures Strings.Trim(s.newName) == [] ==>
      r.calls == [] && r.state == s.(error := Some(EmptyNameError))
    ensures Strings.Trim(s.newName) != [] ==>
      r.calls == [CreateCategory(Strings.Trim(s.newName))]
    ensures Strings.Trim(s.newName) != [] && reply.Success? ==>
      && |r.state.categories| == |s.categories| + 1
      && r.state.categories[..|s.categories|] == s.categories
      && r.state.categories[|s.categories|] == reply.value
      && r.state.newName == "" && r.state.error.None?
    ensures Strings.Trim(s.newName) != [] && reply.Failure? ==>
      r.state == s.(error := Some(CreateError))
    ensures r.state == s.(categories := r.state.categories, error := r.state.error, newName := r.state.newName)
  {
    var name := Strings.Trim(s.newName);
    if name == [] then Step(s.(error := Some(EmptyNameError)), [])
    else
      var call := CreateCategory(name);
      match reply
      case Success(c) =>
        Step(s.(error := None, categories := s.categories + [c], newName := ""), [call])
      case Failure => Step(s.(error := Some(CreateError)), [call])
  }

  /** handleDelete: on success the category is filtered out locally, with no
      re-fetch. */
  function Delete(s: State, id: string, reply: Outcome<()>): (r: Step<State>)
    ensures r.calls == [DeleteCategory(id)]
    ensures reply.Success? ==>
      r.state == s.(error := None, categories := Remove(s.categories, id))
    ensures reply.Failure? ==> r.state == s.(error := Some(DeleteError))
  {
    match reply
    case Success(_) =>
      Step(s.(error := None, categories := Remove(s.categories, id)), [DeleteCategory(id)])
    case Failure => Step(s.(error := Some(DeleteError)), [DeleteCategory(id)])
  }

  /** handleEdit: opens the in-place editor on `c`. */
  function Edit(s: State, c: Category): (r: State)
    ensures r.editingId == Some(c.id) && r.editingName == c.name
    ensures r == s.(editingId := r.editingId, editingName := r.editingName)
  {
    s.(editingId := Some(c.id), editingName := c.name)
  }

  /** handleUpdate. A blank trimmed name is refused locally. Otherwise the
      trimmed name is sent for the row being edited; on success the returned
      category is patched in, the editor is closed and the list re-fetched
      (the re-fetch has its own outcome `refetch`); on failure the editor stays
      open for a retry. */
  function Update(s: State, reply: Outcome<Category>, refetch: Outcome<seq<Category>>): (r: Step<State>)
    requires Strings.Trim(s.editingName) != [] ==> s.editingId.Some?
    ensures Strings.Trim(s.editingName) == [] ==>
      r.calls == [] && r.state == s.(error := Some(EmptyNameError))
    ensures Strings.Trim(s.editingName) != [] && reply.Failure? ==>
      && r.calls == [UpdateCategory(s.editingId.value, Strings.Trim(s.editingName))]
      && r.state == s.(error := Some(UpdateError))
    ensures Strings.Trim(s.editingName) != [] && reply.Success? ==>
      && r.calls == [UpdateCategory(s.editingId.value, Strings.Trim(s.editingName)), ListCategories]
      && r.state.editingId.None? && r.state.editingName == ""
      && !r.state.loading
      && (refetch.Success? ==> r.state.categories == refetch.value && r.state.error.None?)
      && (refetch.Failure? ==>
            && r.state.categories == Replace(s.categories, s.editingId.value, reply.value)
            && r.state.error == Some(FetchError))
    ensures r.state.newName == s.newName
  {
    var name := Strings.Trim(s.editingName);
    if name == [] then Step(s.(error := Some(EmptyNameError)), [])
    else
      var id := s.editingId.value;
      var call := UpdateCategory(id, name);
      match reply
      case Success(c) =>
        var patched := s.(error := None, categories := Replace(s.categories, id, c),
                          editingId := None, editingName := "");
        var f := Fetch(patched, refetch);
        Step(f.state, [call] + f.calls)
      case Failure => Step(s.(error := Some(UpdateError)), [call])
  }

  /** handleCancelEdit: closes the editor and clears the error. */
  function CancelEdit(s: State): (r: State)
    ensures r.editingId.None? && r.editingName == "" && r.error.None?
    ensures r == s.(editingId := r.editingId, editingName := r.editingName, error := r.error)
  {
    s.(editingId := None, editingName := "", error := None)
  }

  // ---------------------------------------------------------------------
  // Properties of the reconciliation patches

  /** Deleting keeps the other categories in their original order. */
  lemma DeleteKeepsOrder(cs: seq<Category>, id: string)
    ensures Seqs.IsSubsequence(Remove(cs, id), cs)
  {
    Seqs.FilterIsSubsequence(cs, (c: Category) => c.id != id);
  }

  /** With unique ids, deleting an id that is present shortens the list by
      exactly one. */
  lemma {:induction false} DeleteShrinksByOne(cs: seq<Category>, id: string)
    requires UniqueIds(cs)
    requires exists i :: 0 <= i < |cs| && cs[i].id == id
    ensures |Remove(cs, id)| == |cs| - 1
    decreases |cs|
  {
    if cs[0].id == id {
      Seqs.FilterKeepsAll(cs[1..], (c: Category) => c.id != id);
    } else {
      var i :| 0 <= i < |cs| && cs[i].id == id;
      assert cs[1..][i - 1].id == id;
      DeleteShrinksByOne(cs[1..], id);
    }
  }

  /** Deleting never breaks id uniqueness, and leaves no category with the
      deleted id. */
  lemma {:induction false} DeleteKeepsIdsUnique(cs: seq<Category>, id: string)
    requires UniqueIds(cs)
    ensures UniqueIds(Remove(cs, id))
    decreases |cs|
  {
    if cs != [] {
      var tail := Remove(cs[1..], id);
      DeleteKeepsIdsUnique(cs[1..], id);
      if cs[0].id != id {
        forall j | 0 <= j < |tail| ensures tail[j].id != cs[0].id {
          var k :| 0 <= k < |cs[1..]| && cs[1..][k] == tail[j];
          assert cs[k + 1] == tail[j];
        }
        ConsKeepsIdsUnique(cs[0], tail);
        assert Remove(cs, id) == [cs[0]] + tail;
      } else {
        assert Remove(cs, id) == tail;
      }
    }
  }

  /** Putting a category in front of a list of unique ids that does not hold
      its id keeps the ids unique. */
  lemma ConsKeepsIdsUnique(c: Category, tail: seq<Category>)
    requires UniqueIds(tail)
    requires forall j :: 0 <= j < |tail| ==> tail[j].id != c.id
    ensures UniqueIds([c] + tail)
  {
    var r := [c] + tail;
    forall i, j | 0 <= i < j < |r| ensures r[i].id != r[j].id {
      assert r[j] == tail[j - 1];
      if i > 0 {
        assert r[i] == tail[i - 1];
      }
    }
  }

  /** Reading back the updated id finds exactly the server's record, at the
      position the id had before (patch then read back gives the response). */
  lemma UpdateReadBack(cs: seq<Category>, id: string, c: Category)
    requires c.id == id
    requires Seqs.Find(cs, HasId(id)).Some?
    ensures Seqs.Find(Replace(cs, id, c), HasId(id)) == Seqs.Find(cs, HasId(id))
    ensures Replace(cs, id, c)[Seqs.Find(cs, HasId(id)).value] == c
  {
    var r := Replace(cs, id, c);
    var i := Seqs.Find(cs, HasId(id)).value;
    assert r[i].id == id;
    var k := Seqs.Find(r, HasId(id));
    assert k.Some?;
  }

  /** An update whose response keeps the id preserves id uniqueness. */
  lemma UpdateKeepsIdsUnique(cs: seq<Category>, id: string, c: Category)
    requires UniqueIds(cs) && c.id == id
    ensures UniqueIds(Replace(cs, id, c))
  {
    var r := Replace(cs, id, c);
    assert forall i :: 0 <= i < |cs| ==> r[i].id == cs[i].id;
  }

  /** The local patch of a successful update is overwritten by a successful
      re-fetch: afterwards the list is exactly the server's list. */
  lemma UpdatePatchIsRedundant(s: State, c: Category, listed: seq<Category>)
    requires Strings.Trim(s.editingName) != [] && s.editingId.Some?
    ensures Update(s, Success(c), Success(listed)).state.categories == listed
  {
  }

  /** A successful create makes the returned category visible when it has an
      id, after the previously rendered ones. */
  lemma {:induction false} CreateRendersAppended(cs: seq<Category>, c: Category)
    requires c.id != ""
    ensures Rendered(cs + [c]) == Rendered(cs) + [c]
  {
    Seqs.FilterAppend(cs, [c], (x: Category) => x.id != "");
  }

  /** A closed editor has an empty name input. Every handler keeps this,
      starting from the initial state, so a non-blank name implies an open
      editor. */
  predicate EditorClosedClean(s: State) {
    s.editingId.None? ==> s.editingName == ""
  }

  lemma HandlersKeepEditorClean(s: State, c: Category, id: string,
                                 rc: Outcome<Category>, rd: Outcome<()>,
                                 rl: Outcome<seq<Category>>)
    requires EditorClosedClean(s)
    ensures EditorClosedClean(Initial)
    ensures EditorClosedClean(Fetch(s, rl).state)
    ensures EditorClosedClean(Create(s, rc).state)
    ensures EditorClosedClean(Delete(s, id, rd).state)
    ensures EditorClosedClean(Edit(s, c))
    ensures EditorClosedClean(CancelEdit(s))
    ensures Strings.Trim(s.editingName) != [] ==> s.editingId.Some? && EditorClosedClean(Update(s, rc, rl).state)
    ensures Strings.Trim(s.editingName) == [] ==> EditorClosedClean(Update(s, rc, rl).state)
  {
  }
}
