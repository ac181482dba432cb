/**
 * The tables behind core/models.py, updated in place: the category rows,
 * the note rows with their links to categories, and the primary-key
 * counters the database assigns from. Each method is one row-level change
 * the model declarations allow, and each keeps the table invariant.
 */
module Store {
  import opened Wrappers
  import opened Models

  datatype StoreError =
    | OwnerRequired
    | NoSuchNote(note: NoteId)
    | NoSuchCategory(category: CategoryId)
    | Invalid(error: FieldError)

  class Database {
    var categories: seq<Category>
    var notes: seq<Note>
    var nextCategoryId: CategoryId
    var nextNoteId: NoteId

    ghost predicate Valid()
      reads this
    {
      && StoreInvariant(categories, notes)
      && (forall i :: 0 <= i < |categories| ==> categories[i].id < nextCategoryId)
      && (forall i :: 0 <= i < |notes| ==> notes[i].id < nextNoteId)
    }

    constructor ()
      ensures Valid()
      ensures categories == [] && notes == []
    {
      categories := [];
      notes := [];
      nextCategoryId := 1;
      nextNoteId := 1;
    }

    /** Row of the category with the given id. */
    function CategoryById(id: CategoryId): (r: Option<Category>)
      reads this
      ensures r.Some? <==> id in CategoryIds(categories)
      ensures r.Some? ==> r.value in categories && r.value.id == id
    {
      match CategoryIndex(categories, id)
      case None => None
      case Some(i) => Some(categories[i])
    }

    /** Row of the note with the given id. */
    function NoteById(id: NoteId): (r: Option<Note>)
      reads this
      ensures r.Some? <==> id in NoteIds(notes)
      ensures r.Some? ==> r.value in notes && r.value.id == id
    {
      match NoteIndex(notes, id)
      case None => None
      case Some(i) => Some(notes[i])
    }

    /**
     * Inserts a category row. A blank, over-long or already used name is
     * rejected (`max_length=64, unique=True`) and nothing changes.
     */
    method CreateCategory(name: string) returns (r: Result<CategoryId, StoreError>)
      requires Valid()
      modifies this
      ensures Valid()
      ensures notes == old(notes) && nextNoteId == old(nextNoteId)
      ensures CategoryNameError(old(categories), name).Some? ==>
        && r == Err(Invalid(CategoryNameError(old(categories), name).value))
        && categories == old(categories) && nextCategoryId == old(nextCategoryId)
      ensures CategoryNameError(old(categories), name).None? ==>
        && r == Ok(old(nextCategoryId))
        && categories == old(categories) + [Category(old(nextCategoryId), name)]
        && nextCategoryId == old(nextCategoryId) + 1
    {
      var e := CategoryNameError(categories, name);
      if e.Some? {
        return Err(Invalid(e.value));
      }
      var c := Category(nextCategoryId, name);
      AddNameKeepsUnique(categories, c);
      assert CategoryIds(categories + [c]) == CategoryIds(categories) + {c.id};
      categories := categories + [c];
      r := Ok(nextCategoryId);
      nextCategoryId := nextCategoryId + 1;
    }

    /**
     * Renames a category. The new name must be valid and unused by every
     * other row (a row may keep its own name).
     */
    method RenameCategory(id: CategoryId, name: string) returns (r: Result<(), StoreError>)
      requires Valid()
      modifies this`categories
      ensures Valid()
      ensures CategoryIndex(old(categories), id).None? ==> r == Err(NoSuchCategory(id)) && categories == old(categories)
      ensures CategoryIndex(old(categories), id).Some? ==>
        var i := CategoryIndex(old(categories), id).value;
        match CategoryNameError(Others(old(categories), i), name)
        case Some(e) => r == Err(Invalid(e)) && categories == old(categories)
        case None => r == Ok(()) && categories == old(categories)[i := Category(id, name)]
    {
      var found := CategoryIndex(categories, id);
      if found.None? {
        return Err(NoSuchCategory(id));
      }
      var i := found.value;
      var others := Others(categories, i);
      var e := CategoryNameError(others, name);
      if e.Some? {
        return Err(Invalid(e.value));
      }
      var renamed := categories[i := Category(id, name)];
      RenameKeepsInvariant(categories, notes, i, name);
      categories := renamed;
      r := Ok(());
    }

    /** Deletes a category row; its links are deleted with it and the notes stay. */
    method DeleteCategory(id: CategoryId) returns (r: Result<(), StoreError>)
      requires Valid()
      modifies this`categories, this`notes
      ensures Valid()
      ensures CategoryIndex(old(categories), id).None? ==>
        r == Err(NoSuchCategory(id)) && categories == old(categories) && notes == old(notes)
      ensures CategoryIndex(old(categories), id).Some? ==>
        && r == Ok(())
        && categories == Others(old(categories), CategoryIndex(old(categories), id).value)
        && notes == Unlinked(old(notes), id)
    {
      var found := CategoryIndex(categories, id);
      if found.None? {
        return Err(NoSuchCategory(id));
      }
      var i := found.value;
      var rest := Others(categories, i);
      RemoveCategoryKeepsInvariant(categories, notes, i);
      var kept := Unlinked(notes, id);
      categories := rest;
      notes := kept;
      r := Ok(());
    }

    /**
     * `Note.objects.create(...)`: inserts a row with a fresh key, both
     * timestamps at `now` and no links. A note without an owner violates
     * the non-null foreign key and nothing is inserted. The ORM itself does
     * not check the title.
     */
    method InsertNote(title: string, content: string, owner: Option<UserId>, now: Timestamp)
      returns (r: Result<NoteId, StoreError>)
      requires Valid()
      modifies this`notes, this`nextNoteId
      ensures Valid()
      ensures owner.None? ==> r == Err(OwnerRequired) && notes == old(notes) && nextNoteId == old(nextNoteId)
      ensures owner.Some? ==>
        && r == Ok(old(nextNoteId))
        && notes == old(notes) + [NewNote(old(nextNoteId), title, content, owner.value, now)]
        && nextNoteId == old(nextNoteId) + 1
    {
      if owner.None? {
        return Err(OwnerRequired);
      }
      var n := NewNote(nextNoteId, title, content, owner.value, now);
      notes := notes + [n];
      r := Ok(nextNoteId);
      nextNoteId := nextNoteId + 1;
    }

    /**
     * `note.save()` of an existing row with new field values: title, content
     * and owner are written, `updated_at` becomes `now`, `created_at` and the
     * links are kept.
     */
    method SaveNote(id: NoteId, title: string, content: string, owner: UserId, now: Timestamp)
      returns (r: Result<(), StoreError>)
      requires Valid()
      modifies this`notes
      ensures Valid()
      ensures NoteIndex(old(notes), id).None? ==> r == Err(NoSuchNote(id)) && notes == old(notes)
      ensures NoteIndex(old(notes), id).Some? ==>
        var i := NoteIndex(old(notes), id).value;
        && r == Ok(())
        && notes == old(notes)[i := Saved(old(notes)[i].(title := title, content := content, owner := owner), now)]
    {
      var found := NoteIndex(notes, id);
      if found.None? {
        return Err(NoSuchNote(id));
      }
      var i := found.value;
      var n := Saved(notes[i].(title := title, content := content, owner := owner), now);
      notes := notes[i := n];
      r := Ok(());
    }

    /** Deletes the note row with the given id, with its links. */
    method DeleteNote(id: NoteId)
      requires Valid()
      modifies this`notes
      ensures Valid()
      ensures notes == RemoveNote(old(notes), id)
    {
      RemoveNoteIdsUnique(notes, id);
      var kept := RemoveNote(notes, id);
      forall i | 0 <= i < |kept| ensures kept[i].categories <= CategoryIds(categories) && kept[i].id < nextNoteId {
        assert kept[i] in notes;
      }
      notes := kept;
    }

    /** Deleting user `u`: `on_delete=CASCADE` deletes every note `u` owns and no other. */
    method DeleteUser(u: UserId)
      requires Valid()
      modifies this`notes
      ensures Valid()
      ensures notes == WithoutOwner(old(notes), u)
    {
      WithoutOwnerIdsUnique(notes, u);
      var kept := WithoutOwner(notes, u);
      forall i | 0 <= i < |kept| ensures kept[i].categories <= CategoryIds(categories) && kept[i].id < nextNoteId {
        assert kept[i] in notes;
      }
      notes := kept;
    }

    /**
     * `note.categories.add(category)`: links the two rows. Both must exist;
     * linking an already linked category leaves the single link in place.
     */
    method AddLink(noteId: NoteId, categoryId: CategoryId) returns (r: Result<(), StoreError>)
      requires Valid()
      modifies this`notes
      ensures Valid()
      ensures NoteIndex(old(notes), noteId).None? ==> r == Err(NoSuchNote(noteId)) && notes == old(notes)
      ensures NoteIndex(old(notes), noteId).Some? && categoryId !in CategoryIds(categories) ==>
        r == Err(NoSuchCategory(categoryId)) && notes == old(notes)
      ensures NoteIndex(old(notes), noteId).Some? && categoryId in CategoryIds(categories) ==>
        var i := NoteIndex(old(notes), noteId).value;
        r == Ok(()) && notes == old(notes)[i := Linked(old(notes)[i], categoryId)]
    {
      var found := NoteIndex(notes, noteId);
      if found.None? {
        return Err(NoSuchNote(noteId));
      }
      if categoryId !in CategoryIds(categories) {
        return Err(NoSuchCategory(categoryId));
      }
      var i := found.value;
      notes := notes[i := Linked(notes[i], categoryId)];
      r := Ok(());
    }
  }
}
