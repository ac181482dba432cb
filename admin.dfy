/**
 * The admin site of api/admin.py. Superusers see and edit every note;
 * any other staff user sees only their own notes, can only pick themself
 * as owner, and becomes the owner of every note they add. The list pages
 * show derived values (the category names of a note, the number of notes
 * of a category), and the "duplicate" action copies the selected notes.
 */
module Admin {
  import opened Wrappers
  import opened Models
  import opened Text
  import Store

  // ---- NoteAdmin ----

  /** `NoteAdmin.get_queryset`: every note for a superuser, otherwise the user's own notes. */
  function AdminQueryset(notes: seq<Note>, actor: User): (r: seq<Note>)
    ensures forall n :: n in r <==> n in notes && (actor.isSuperuser || n.owner == actor.id)
    ensures actor.isSuperuser ==> r == notes
  {
    if actor.isSuperuser then notes else OwnedBy(notes, actor.id)
  }

  /** Users with the given id (`User.objects.filter(id=...)`). */
  function UsersWithId(users: seq<User>, id: UserId): (r: seq<User>)
    ensures forall u :: u in r <==> u in users && u.id == id
  {
    if users == [] then []
    else if users[0].id == id then [users[0]] + UsersWithId(users[1..], id)
    else UsersWithId(users[1..], id)
  }

  /**
   * `formfield_for_foreignkey` for the `owner` field: a non-superuser may
   * only choose themself; a superuser keeps the default choice of all users.
   */
  function OwnerChoices(users: seq<User>, actor: User): (r: seq<User>)
    ensures forall u :: u in r <==> u in users && (actor.isSuperuser || u.id == actor.id)
  {
    if actor.isSuperuser then users else UsersWithId(users, actor.id)
  }

  /** The note change form once Django has validated it; `pk` is absent for a note being added. */
  datatype NoteForm = NoteForm(pk: Option<NoteId>, title: string, content: string, owner: UserId)

  /**
   * The ownership rule of `save_model`: a note being added by a
   * non-superuser is given that user as owner; an existing note, or any
   * note saved by a superuser, keeps the owner chosen in the form. Nothing
   * else in the form changes.
   */
  function AssignOwner(form: NoteForm, actor: User): (r: NoteForm)
    ensures form.pk.None? && !actor.isSuperuser ==> r.owner == actor.id
    ensures !(form.pk.None? && !actor.isSuperuser) ==> r.owner == form.owner
    ensures r.(owner := form.owner) == form
  {
    if form.pk.None? && !actor.isSuperuser then form.(owner := actor.id) else form
  }

  /**
   * Together, the owner choices and `save_model` mean that every note a
   * non-superuser saves, new or existing, is saved as theirs.
   */
  lemma NonSuperuserSavesOwnNotes(users: seq<User>, actor: User, form: NoteForm)
    requires !actor.isSuperuser
    requires exists u :: u in OwnerChoices(users, actor) && u.id == form.owner
    ensures AssignOwner(form, actor).owner == actor.id
  {
  }

  /**
   * `save_model` then the save it delegates to: a new note is inserted with
   * the owner `AssignOwner` gives it; an existing note is saved with the
   * form's fields. Only the note table changes. The change view has loaded
   * an existing note through `get_queryset` before this runs, so its key is
   * among the notes the actor may see.
   */
  method SaveModel(db: Store.Database, actor: User, form: NoteForm, now: Timestamp) returns (r: Result<NoteId, Store.StoreError>)
    requires db.Valid()
    requires form.pk.Some? ==> NoteIndex(AdminQueryset(db.notes, actor), form.pk.value).Some?
    modifies db
    ensures db.Valid() && db.categories == old(db.categories) && db.nextCategoryId == old(db.nextCategoryId)
    ensures form.pk.None? ==>
      var owner := AssignOwner(form, actor).owner;
      && r == Ok(old(db.nextNoteId)) && db.nextNoteId == old(db.nextNoteId) + 1
      && db.notes == old(db.notes) + [NewNote(old(db.nextNoteId), form.title, form.content, owner, now)]
      && (!actor.isSuperuser ==> owner == actor.id)
    ensures form.pk.Some? ==> NoteIndex(old(db.notes), form.pk.value).Some?
    ensures form.pk.Some? ==>
      var i := NoteIndex(old(db.notes), form.pk.value).value;
      && (!actor.isSuperuser ==> old(db.notes)[i].owner == actor.id)
      && r == Ok(form.pk.value) && db.nextNoteId == old(db.nextNoteId)
      && db.notes == old(db.notes)[i := Saved(old(db.notes)[i].(title := form.title, content := form.content, owner := form.owner), now)]
  {
    var obj := AssignOwner(form, actor);
    if obj.pk.None? {
      r := db.InsertNote(obj.title, obj.content, Some(obj.owner), now);
    } else {
      ghost var visible := AdminQueryset(db.notes, actor);
      ghost var i := NoteIndex(db.notes, obj.pk.value);
      assert i.Some? && (!actor.isSuperuser ==> db.notes[i.value].owner == actor.id) by {
        var n := visible[NoteIndex(visible, obj.pk.value).value];
        assert n in db.notes && n.id == obj.pk.value;
        var j :| 0 <= j < |db.notes| && db.notes[j] == n;
        assert db.notes[j].id == db.notes[i.value].id;
      }
      var saved := db.SaveNote(obj.pk.value, obj.title, obj.content, obj.owner, now);
      r := Ok(obj.pk.value);
    }
  }

  /** Prefix `duplicate_note` puts before a copied title. */
  const CopyPrefix: string := "C\U{00F3}pia de "

  function CopyTitle(title: string): (r: string)
    ensures |r| == |title| + 9 && r[..9] == CopyPrefix && r[9..] == title
  {
    CopyPrefix + title
  }

  /**
   * The row `note.pk = None; note.title = ...; note.save()` inserts: a new
   * key, the prefixed title, the same content and owner, both timestamps at
   * the time of the save, and no category links (a new row has none).
   */
  function Copy(n: Note, id: NoteId, now: Timestamp): Note {
    NewNote(id, CopyTitle(n.title), n.content, n.owner, now)
  }

  /** The copies of the selected notes, with consecutive keys from `firstId`, in selection order. */
  function Copies(selection: seq<Note>, firstId: NoteId, now: Timestamp): (r: seq<Note>)
    ensures |r| == |selection|
    ensures forall c :: c in r ==> c.categories == {} && c.createdAt == now && c.updatedAt == now
    decreases |selection|
  {
    if selection == [] then []
    else Copies(selection[..|selection| - 1], firstId, now) + [Copy(selection[|selection| - 1], firstId + |selection| - 1, now)]
  }

  /**
   * One copy per selected note, in order: copy `k` has key `firstId + k`,
   * shows as "Cópia de " followed by the original's title, and keeps its
   * content and owner.
   */
  lemma {:induction false} CopiesAt(selection: seq<Note>, firstId: NoteId, now: Timestamp, k: nat)
    requires k < |selection|
    ensures |Copies(selection, firstId, now)| == |selection|
    ensures var c := Copies(selection, firstId, now)[k];
      && c.id == firstId + k
      && NoteStr(c) == CopyPrefix + NoteStr(selection[k])
      && c.content == selection[k].content && c.owner == selection[k].owner
      && c.createdAt == now && c.updatedAt == now && c.categories == {}
    decreases |selection|
  {
    var last := |selection| - 1;
    var front := selection[..last];
    if k < last {
      CopiesAt(front, firstId, now, k);
    } else if last > 0 {
      CopiesAt(front, firstId, now, 0);
    }
  }

  /**
   * The copy of a valid title is a valid title exactly when the original
   * has at most 91 characters: a title of 92 to 100 characters yields a
   * copy longer than the 100 characters `Note.title` allows. The action does
   * not validate it; whether the row is stored depends on the database.
   */
  lemma CopyCanExceedTitleLimit(title: string)
    requires TitleError(title).None?
    ensures TitleError(CopyTitle(title)).None? <==> |title| <= TitleMaxLength - 9
    ensures |title| > TitleMaxLength - 9 ==> TitleError(CopyTitle(title)) == Some(TooLong("title", TitleMaxLength))
  {
  }

  /**
   * `duplicate_note`: the loop inserts one copy per selected note and the
   * originals stay as they were; the count reported is the number of
   * selected notes.
   */
  method DuplicateNote(db: Store.Database, selection: seq<Note>, now: Timestamp) returns (count: nat)
    requires db.Valid()
    modifies db
    ensures db.Valid() && db.categories == old(db.categories) && db.nextCategoryId == old(db.nextCategoryId)
    ensures db.notes == old(db.notes) + Copies(selection, old(db.nextNoteId), now)
    ensures db.nextNoteId == old(db.nextNoteId) + |selection|
    ensures count == |selection|
  {
    var i := 0;
    while i < |selection|
      invariant 0 <= i <= |selection|
      invariant db.Valid() && db.categories == old(db.categories) && db.nextCategoryId == old(db.nextCategoryId)
      invariant db.nextNoteId == old(db.nextNoteId) + i
      invariant db.notes == old(db.notes) + Copies(selection[..i], old(db.nextNoteId), now)
    {
      var note := selection[i];
      var inserted := db.InsertNote(CopyTitle(note.title), note.content, Some(note.owner), now);
      assert selection[..i + 1][..i] == selection[..i];
      i := i + 1;
    }
    assert selection[..i] == selection;
    count := |selection|;
  }

  /** `categories_list`: the linked categories' names joined by ", ". */
  function CategoriesList(n: Note, cats: seq<Category>): (r: string)
    ensures LinkedNames(n, cats) == [] ==> r == ""
    ensures |LinkedNames(n, cats)| == 1 ==> r == LinkedNames(n, cats)[0]
    ensures r == Join(LinkedNames(n, cats), ", ")
    ensures forall k :: 0 <= k < |LinkedNames(n, cats)| ==> |LinkedNames(n, cats)[k]| <= |r|
  {
    var names := LinkedNames(n, cats);
    forall k | 0 <= k < |names| ensures |names[k]| <= |Join(names, ", ")| {
      JoinLongerThanPart(names, ", ", k);
    }
    Join(names, ", ")
  }

  /**
   * With the tables' invariant (names are never blank), the list is empty
   * exactly when the note has no linked category, and otherwise starts with
   * the first linked name.
   */
  lemma CategoriesListEmptyIff(n: Note, cats: seq<Category>)
    requires forall i :: 0 <= i < |cats| ==> ValidCategoryName(cats[i].name)
    ensures CategoriesList(n, cats) == "" <==> forall c :: c in cats ==> c.id !in n.categories
  {
    var names := LinkedNames(n, cats);
    assert forall c :: c in cats && c.id in n.categories ==> c.name in names;
    if names != [] {
      assert names[0] in names;
      var c :| c in cats && c.id in n.categories && c.name == names[0];
      var i :| 0 <= i < |cats| && cats[i] == c;
      assert |CategoriesList(n, cats)| >= |names[0]| > 0;
    }
  }

  // ---- CategoryAdmin ----

  /** The notes linked to a category (`category.notes`, the reverse of the many-to-many). */
  function LinkedTo(notes: seq<Note>, c: CategoryId): (r: seq<Note>)
    ensures forall n :: n in r <==> n in notes && c in n.categories
    ensures |r| <= |notes|
  {
    if notes == [] then []
    else if c in notes[0].categories then [notes[0]] + LinkedTo(notes[1..], c)
    else LinkedTo(notes[1..], c)
  }

  /** `note_count`: how many notes are linked to the category. */
  function NoteCount(c: Category, notes: seq<Note>): (r: nat)
    ensures r <= |notes|
    ensures r == 0 <==> forall n :: n in notes ==> c.id !in n.categories
  {
    var linked := LinkedTo(notes, c.id);
    assert linked != [] ==> linked[0] in linked;
    |linked|
  }

  /**
   * Linking a category to note `i` raises its count by one when the link is
   * new and leaves it unchanged when the link already exists; the counts of
   * other categories do not move.
   */
  lemma {:induction false} NoteCountAfterLink(notes: seq<Note>, i: nat, c: Category, d: Category)
    requires i < |notes|
    ensures NoteCount(c, notes[i := Linked(notes[i], c.id)]) ==
      NoteCount(c, notes) + (if c.id in notes[i].categories then 0 else 1)
    ensures d.id != c.id ==> NoteCount(d, notes[i := Linked(notes[i], c.id)]) == NoteCount(d, notes)
  {
    var linked := notes[i := Linked(notes[i], c.id)];
    if i == 0 {
      assert linked[1..] == notes[1..];
    } else {
      assert linked[1..] == notes[1..][i - 1 := Linked(notes[i], c.id)];
      NoteCountAfterLink(notes[1..], i - 1, c, d);
    }
  }
}
