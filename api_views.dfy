/**
 * The REST viewsets of api/views.py. Every action first requires an
 * authenticated user (`IsAuthenticated`). Categories are a shared table:
 * the category viewset works on all of them. Notes are owner-scoped: the
 * note viewset only ever sees the rows `get_queryset` returns, the actor's
 * own, so a note of another user is reported exactly as a missing one.
 */
module ApiViews {
  import opened Wrappers
  import opened Models
  import opened Serializers
  import Store

  datatype ApiError =
    | NotAuthenticated
    | NotFound
    | BadRequest(errors: seq<FieldError>)
    | ServerError(cause: CreateError)

  // ---- CategoryViewSet: queryset = Category.objects.all() ----

  /** Listing categories: all rows, with no owner filter. */
  function ListCategories(cats: seq<Category>, actor: Actor): (r: Result<seq<Category>, ApiError>)
    ensures actor.Anonymous? <==> r == Err(NotAuthenticated)
    ensures actor.Authenticated? ==> r == Ok(cats)
  {
    if actor.Anonymous? then Err(NotAuthenticated) else Ok(cats)
  }

  /** Retrieving one category: any existing row, whoever asks. */
  function RetrieveCategory(cats: seq<Category>, actor: Actor, id: CategoryId): (r: Result<Category, ApiError>)
    ensures actor.Anonymous? ==> r == Err(NotAuthenticated)
    ensures actor.Authenticated? ==> (r.Ok? <==> id in CategoryIds(cats))
    ensures r.Ok? ==> r.value in cats && r.value.id == id
    ensures r.Err? ==> r.error in {NotAuthenticated, NotFound}
  {
    if actor.Anonymous? then Err(NotAuthenticated)
    else match CategoryIndex(cats, id)
      case None => Err(NotFound)
      case Some(i) => Ok(cats[i])
  }

  /** Creating a category from a request body; the name rules are checked before anything is written. */
  method CreateCategory(db: Store.Database, actor: Actor, data: Record) returns (r: Result<CategoryId, ApiError>)
    requires db.Valid()
    modifies db
    ensures db.Valid() && db.notes == old(db.notes) && db.nextNoteId == old(db.nextNoteId)
    ensures actor.Anonymous? ==> r == Err(NotAuthenticated)
    ensures r.Err? ==> unchanged(db)
    ensures r.Ok? <==> actor.Authenticated? && ValidateCategoryInput(data, old(db.categories)).Ok?
    ensures r.Ok? ==>
      && r.value == old(db.nextCategoryId) && db.nextCategoryId == old(db.nextCategoryId) + 1
      && db.categories == old(db.categories) + [Category(r.value, ValidateCategoryInput(data, old(db.categories)).value)]
  {
    if actor.Anonymous? {
      return Err(NotAuthenticated);
    }
    var name := ValidateCategoryInput(data, db.categories);
    if name.Err? {
      return Err(BadRequest([name.error]));
    }
    var created := db.CreateCategory(name.value);
    r := Ok(created.value);
  }

  /**
   * `update` (`partial` false) and `partial_update` (`partial` true) of a
   * category: the row must exist, and a supplied name must be valid and
   * unused by the other rows. A partial update without `name` saves the row
   * as it is.
   */
  method UpdateCategory(db: Store.Database, actor: Actor, id: CategoryId, data: Record, partial: bool)
    returns (r: Result<Category, ApiError>)
    requires db.Valid()
    modifies db
    ensures db.Valid() && db.notes == old(db.notes)
    ensures db.nextCategoryId == old(db.nextCategoryId) && db.nextNoteId == old(db.nextNoteId)
    ensures actor.Anonymous? ==> r == Err(NotAuthenticated)
    ensures actor.Authenticated? && id !in CategoryIds(old(db.categories)) ==> r == Err(NotFound)
    ensures actor.Authenticated? && id in CategoryIds(old(db.categories)) ==>
      var i := CategoryIndex(old(db.categories), id).value;
      var name := ValidateCategoryUpdate(data, Others(old(db.categories), i), partial);
      && (r.Ok? <==> name.Ok?)
      && (name.Err? ==> r == Err(BadRequest([name.error])))
      && (name.Ok? ==>
        && r.value == Category(id, if name.value.Some? then name.value.value else old(db.categories)[i].name)
        && db.categories == old(db.categories)[i := r.value])
    ensures r.Err? ==> unchanged(db)
  {
    if actor.Anonymous? {
      return Err(NotAuthenticated);
    }
    var found := CategoryIndex(db.categories, id);
    if found.None? {
      return Err(NotFound);
    }
    var i := found.value;
    var name := ValidateCategoryUpdate(data, Others(db.categories, i), partial);
    if name.Err? {
      return Err(BadRequest([name.error]));
    }
    if name.value.None? {
      assert db.categories[i := db.categories[i]] == db.categories;
      return Ok(db.categories[i]);
    }
    var renamed := db.RenameCategory(id, name.value.value);
    r := Ok(Category(id, name.value.value));
  }

  /** Deleting a category: its links go with it, the notes stay. */
  method DestroyCategory(db: Store.Database, actor: Actor, id: CategoryId) returns (r: Result<(), ApiError>)
    requires db.Valid()
    modifies db
    ensures db.Valid()
    ensures db.nextCategoryId == old(db.nextCategoryId) && db.nextNoteId == old(db.nextNoteId)
    ensures RetrieveCategory(old(db.categories), actor, id).Err? ==>
      r == Err(RetrieveCategory(old(db.categories), actor, id).error) && unchanged(db)
    ensures RetrieveCategory(old(db.categories), actor, id).Ok? ==>
      && r == Ok(())
      && db.categories == Others(old(db.categories), CategoryIndex(old(db.categories), id).value)
      && db.notes == Unlinked(old(db.notes), id)
  {
    var found := RetrieveCategory(db.categories, actor, id);
    if found.Err? {
      return Err(found.error);
    }
    var deleted := db.DeleteCategory(id);
    r := Ok(());
  }

  // ---- NoteViewSet: get_queryset filters by owner; perform_create sets it ----

  /** Listing notes: exactly the actor's notes, in table order. */
  function ListNotes(notes: seq<Note>, actor: Actor): (r: Result<seq<Note>, ApiError>)
    ensures actor.Anonymous? <==> r == Err(NotAuthenticated)
    ensures r.Ok? ==> forall n :: n in r.value <==> n in notes && n.owner == actor.user.id
  {
    if actor.Anonymous? then Err(NotAuthenticated) else Ok(OwnedBy(notes, actor.user.id))
  }

  /** The list holds one entry per note the actor owns, so its length is the number of those notes. */
  lemma ListCountIsOwnedCount(notes: seq<Note>, actor: Actor)
    requires NoteIdsUnique(notes) && actor.Authenticated?
    ensures ListNotes(notes, actor).Ok?
    ensures |ListNotes(notes, actor).value| == |OwnedIds(notes, actor.user.id)|
    ensures NoteIdsUnique(ListNotes(notes, actor).value)
  {
    OwnedByCount(notes, actor.user.id);
    OwnedByIdsUnique(notes, actor.user.id);
  }

  /**
   * `get_object()` through the filtered queryset, as retrieve, update and
   * destroy use it: the note is found only when the actor owns it.
   */
  function RetrieveNote(notes: seq<Note>, actor: Actor, id: NoteId): (r: Result<Note, ApiError>)
    ensures actor.Anonymous? ==> r == Err(NotAuthenticated)
    ensures actor.Authenticated? ==> (r.Ok? <==> id in OwnedIds(notes, actor.user.id))
    ensures r.Ok? ==> r.value in notes && r.value.id == id && r.value.owner == actor.user.id
    ensures r.Err? ==> r.error in {NotAuthenticated, NotFound}
  {
    if actor.Anonymous? then Err(NotAuthenticated)
    else
      var visible := OwnedBy(notes, actor.user.id);
      match NoteIndex(visible, id)
      case None => Err(NotFound)
      case Some(i) => Ok(visible[i])
  }

  /**
   * Asking for another user's note gets the same answer as asking for an id
   * no note has: the owner filter hides it completely.
   */
  lemma OthersNotesLookMissing(notes: seq<Note>, actor: Actor, other: Note)
    requires NoteIdsUnique(notes) && actor.Authenticated?
    requires other in notes && other.owner != actor.user.id
    ensures RetrieveNote(notes, actor, other.id) == Err(NotFound)
    ensures RetrieveNote(notes, actor, other.id) == RetrieveNote(RemoveNote(notes, other.id), actor, other.id)
  {
    forall m | m in notes && m.owner == actor.user.id ensures m.id != other.id {
      var i :| 0 <= i < |notes| && notes[i] == m;
      var j :| 0 <= j < |notes| && notes[j] == other;
      assert i != j;
    }
    assert other.id !in OwnedIds(notes, actor.user.id);
    assert other.id !in OwnedIds(RemoveNote(notes, other.id), actor.user.id);
  }

  /**
   * A note the actor can look up is still not shown: retrieve renders the
   * row as loaded from the table, without the `category` attribute the
   * serializer reads, so the response is a server error. List, and create
   * or update without `category` in the body, render such rows as well.
   * The corrected representation shows that note, with its own key.
   */
  lemma OwnNoteResponseFails(notes: seq<Note>, cats: seq<Category>, actor: Actor, id: NoteId)
    requires RetrieveNote(notes, actor, id).Ok?
    ensures actor.Authenticated?
    ensures BaseRepresentation(NoteInstance(RetrieveNote(notes, actor, id).value, actor.user, Missing)).Err?
    ensures LinkedRepresentation(RetrieveNote(notes, actor, id).value, actor.user, cats)["id"] == VInt(id)
  {
  }

  /**
   * What creating a note from a request body amounts to, before anything is
   * written: authentication, validation, then `perform_create` and
   * `NoteSerializer.create`, both of which set the owner to the actor.
   */
  function CreatePlan(cats: seq<Category>, actor: Actor, data: Record): (r: Result<NewNoteFields, ApiError>)
    ensures actor.Anonymous? ==> r == Err(NotAuthenticated)
    ensures actor.Authenticated? && ValidateNoteInput(data, cats, false).Err? ==>
      r == Err(BadRequest(ValidateNoteInput(data, cats, false).error))
    ensures r.Ok? <==> actor.Authenticated? && ValidateNoteInput(data, cats, false).Ok? && "category" !in data
    ensures r.Ok? ==> r.value == NewNoteFields(data["title"].s, data["content"].s, Some(actor.user.id))
  {
    if actor.Anonymous? then Err(NotAuthenticated)
    else match ValidateNoteInput(data, cats, false)
      case Err(es) => Err(BadRequest(es))
      case Ok(validated) =>
        var kwargs := validated["owner" := VRef(actor.user.id)];
        assert kwargs.Keys == (WritableFields * data.Keys) + {"owner"};
        assert "category" in data ==> "category" in kwargs.Keys && "category" !in NoteModelFields;
        assert "category" !in data ==> kwargs.Keys <= {"title", "content", "owner"} <= NoteModelFields;
        match ModelCreate(kwargs)
        case Err(e) => Err(ServerError(e))
        case Ok(f) => Ok(f)
  }

  /**
   * A created note belongs to the actor, whatever `owner` the request body
   * carried: the plan is the same with or without one.
   */
  lemma CreatePlanOwnedByActor(cats: seq<Category>, actor: Actor, data: Record, owner: Value)
    ensures CreatePlan(cats, actor, data).Ok? ==> CreatePlan(cats, actor, data).value.owner == Some(actor.user.id)
    ensures CreatePlan(cats, actor, data["owner" := owner]) == CreatePlan(cats, actor, data)
  {
    OwnerIsReadOnly(data, cats, false, owner);
    if actor.Authenticated? {
      match ValidateNoteInput(data, cats, false)
      case Err(_) =>
      case Ok(validated) =>
        var kwargs := validated["owner" := VRef(actor.user.id)];
        assert OwnerOf(kwargs) == Some(actor.user.id);
    }
  }

  /**
   * `create`: authentication, validation, owner fixed to the actor, insert.
   * A rejected request changes nothing.
   */
  method CreateNote(db: Store.Database, actor: Actor, data: Record, now: Timestamp) returns (r: Result<NoteId, ApiError>)
    requires db.Valid()
    modifies db
    ensures db.Valid() && db.categories == old(db.categories) && db.nextCategoryId == old(db.nextCategoryId)
    ensures actor.Anonymous? ==> r == Err(NotAuthenticated)
    ensures CreatePlan(old(db.categories), actor, data).Err? ==>
      r == Err(CreatePlan(old(db.categories), actor, data).error) && unchanged(db)
    ensures CreatePlan(old(db.categories), actor, data).Ok? ==>
      var f := CreatePlan(old(db.categories), actor, data).value;
      && r == Ok(old(db.nextNoteId)) && db.nextNoteId == old(db.nextNoteId) + 1
      && db.notes == old(db.notes) + [NewNote(old(db.nextNoteId), f.title, f.content, actor.user.id, now)]
  {
    if actor.Anonymous? {
      return Err(NotAuthenticated);
    }
    var validated := ValidateNoteInput(data, db.categories, false);
    if validated.Err? {
      return Err(BadRequest(validated.error));
    }
    // perform_create: serializer.save(owner=self.request.user)
    var saveData := validated.value["owner" := VRef(actor.user.id)];
    assert saveData["owner" := VRef(actor.user.id)] == saveData;
    var fields := Create(saveData, actor.user);
    if fields.Err? {
      return Err(ServerError(fields.error));
    }
    var inserted := db.InsertNote(fields.value.title, fields.value.content, fields.value.owner, now);
    r := Ok(inserted.value);
  }

  /**
   * `update` (`partial` false) and `partial_update` (`partial` true): the
   * note is looked up through the owner filter first, then the body is
   * validated, then the instance is updated and saved. Any failure leaves
   * the tables as they were.
   */
  method UpdateNote(db: Store.Database, actor: Actor, id: NoteId, data: Record, partial: bool, now: Timestamp)
    returns (r: Result<Note, ApiError>)
    requires db.Valid()
    modifies db
    ensures db.Valid() && db.categories == old(db.categories)
    ensures db.nextCategoryId == old(db.nextCategoryId) && db.nextNoteId == old(db.nextNoteId)
    ensures RetrieveNote(old(db.notes), actor, id).Err? ==>
      r == Err(RetrieveNote(old(db.notes), actor, id).error) && unchanged(db)
    ensures RetrieveNote(old(db.notes), actor, id).Ok? && ValidateNoteInput(data, old(db.categories), partial).Err? ==>
      r == Err(BadRequest(ValidateNoteInput(data, old(db.categories), partial).error)) && unchanged(db)
    ensures RetrieveNote(old(db.notes), actor, id).Ok? && ValidateNoteInput(data, old(db.categories), partial).Ok? ==>
      var i := NoteIndex(old(db.notes), id).value;
      var n := Saved(Updated(old(db.notes)[i], ValidateNoteInput(data, old(db.categories), partial).value), now);
      && r == Ok(n) && n.owner == actor.user.id
      && db.notes == old(db.notes)[i := n]
  {
    var found := RetrieveNote(db.notes, actor, id);
    if found.Err? {
      return Err(found.error);
    }
    var validated := ValidateNoteInput(data, db.categories, partial);
    if validated.Err? {
      return Err(BadRequest(validated.error));
    }
    ghost var i := NoteIndex(db.notes, id).value;
    assert db.notes[i] == found.value by {
      assert found.value in db.notes;
      var j :| 0 <= j < |db.notes| && db.notes[j] == found.value;
      assert db.notes[j].id == db.notes[i].id;
    }
    var changed := Updated(found.value, validated.value);
    var saved := db.SaveNote(id, changed.title, changed.content, changed.owner, now);
    r := Ok(Saved(changed, now));
  }

  /** `destroy`: the actor's note with that id is deleted; otherwise nothing changes. */
  method DestroyNote(db: Store.Database, actor: Actor, id: NoteId) returns (r: Result<(), ApiError>)
    requires db.Valid()
    modifies db
    ensures db.Valid() && db.categories == old(db.categories)
    ensures db.nextCategoryId == old(db.nextCategoryId) && db.nextNoteId == old(db.nextNoteId)
    ensures RetrieveNote(old(db.notes), actor, id).Err? ==>
      r == Err(RetrieveNote(old(db.notes), actor, id).error) && unchanged(db)
    ensures RetrieveNote(old(db.notes), actor, id).Ok? ==>
      r == Ok(()) && db.notes == RemoveNote(old(db.notes), id)
  {
    var found := RetrieveNote(db.notes, actor, id);
    if found.Err? {
      return Err(found.error);
    }
    db.DeleteNote(id);
    r := Ok(());
  }
}
