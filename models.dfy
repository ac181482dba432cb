/**
 * The records of the note application (core/models.py): users, categories
 * and notes, the field rules declared on them, the invariants of the tables
 * that hold them, and the value-level effect of the model behaviour the
 * field declarations ask for (timestamps on save, many-to-many links,
 * cascade on user deletion).
 */
module Models {
  import opened Wrappers

  type UserId = nat
  type CategoryId = nat
  type NoteId = nat
  /** Clock readings are abstract: a later reading is a larger number. */
  type Timestamp = nat

  /** `Category.name` is declared with `max_length=64`. */
  const CategoryNameMaxLength: nat := 64
  /** `Note.title` is declared with `max_length=100`. */
  const TitleMaxLength: nat := 100

  /** The authentication user, as far as the core looks at it. */
  datatype User = User(id: UserId, username: string, isSuperuser: bool)

  /** `request.user`: an anonymous visitor, or a logged-in user. */
  datatype Actor = Anonymous | Authenticated(user: User)

  datatype Category = Category(id: CategoryId, name: string)

  /** A note row together with its set of linked category ids (the many-to-many field). */
  datatype Note = Note(
    id: NoteId,
    title: string,
    content: string,
    createdAt: Timestamp,
    updatedAt: Timestamp,
    categories: set<CategoryId>,
    owner: UserId)

  /** A validation error attached to one field. */
  datatype FieldError =
    | Required(field: string)
    | Null(field: string)
    | Blank(field: string)
    | TooLong(field: string, maxLength: nat)
    | NotUnique(field: string)
    | DoesNotExist(field: string, pk: int)
    | IncorrectType(field: string)

  /** `Category.__str__`: the category shows as its name, at most 64 characters when the name is valid. */
  function CategoryStr(c: Category): (s: string)
    ensures s == c.name
    ensures ValidCategoryName(c.name) ==> 0 < |s| <= CategoryNameMaxLength
  {
    c.name
  }

  /** `Note.__str__`: the note shows as its title. */
  function NoteStr(n: Note): (s: string)
    ensures s == n.title
  {
    n.title
  }

  predicate ValidCategoryName(name: string) {
    0 < |name| <= CategoryNameMaxLength
  }

  function Names(cats: seq<Category>): set<string> {
    set c | c in cats :: c.name
  }

  function CategoryIds(cats: seq<Category>): set<CategoryId> {
    set c | c in cats :: c.id
  }

  function NoteIds(notes: seq<Note>): set<NoteId> {
    set n | n in notes :: n.id
  }

  predicate NamesUnique(cats: seq<Category>) {
    forall i, j :: 0 <= i < j < |cats| ==> cats[i].name != cats[j].name
  }

  predicate CategoryIdsUnique(cats: seq<Category>) {
    forall i, j :: 0 <= i < j < |cats| ==> cats[i].id != cats[j].id
  }

  predicate NoteIdsUnique(notes: seq<Note>) {
    forall i, j :: 0 <= i < j < |notes| ==> notes[i].id != notes[j].id
  }

  /** Every link of every note points at an existing category row. */
  predicate LinksResolve(notes: seq<Note>, cats: seq<Category>) {
    forall i :: 0 <= i < |notes| ==> notes[i].categories <= CategoryIds(cats)
  }

  /**
   * What the tables keep true: category names are unique and valid, primary
   * keys are unique, and the link table only refers to existing categories.
   */
  predicate StoreInvariant(cats: seq<Category>, notes: seq<Note>) {
    && NamesUnique(cats)
    && CategoryIdsUnique(cats)
    && (forall i :: 0 <= i < |cats| ==> ValidCategoryName(cats[i].name))
    && NoteIdsUnique(notes)
    && LinksResolve(notes, cats)
  }

  /**
   * The rules of `name = CharField(max_length=64, unique=True)` for a
   * proposed name, checked against the category rows `others`: it may not
   * be blank, longer than 64 characters or already used.
   */
  function CategoryNameError(others: seq<Category>, name: string): (e: Option<FieldError>)
    ensures e.None? <==> ValidCategoryName(name) && name !in Names(others)
    ensures name != "" && name in Names(others) ==> e.Some?
  {
    if name == "" then Some(Blank("name"))
    else if |name| > CategoryNameMaxLength then Some(TooLong("name", CategoryNameMaxLength))
    else if name in Names(others) then Some(NotUnique("name"))
    else None
  }

  /** A name that passed the rules above can be added without breaking uniqueness. */
  lemma AddNameKeepsUnique(cats: seq<Category>, c: Category)
    requires NamesUnique(cats)
    requires CategoryNameError(cats, c.name).None?
    ensures NamesUnique(cats + [c])
  {
    forall i | 0 <= i < |cats|
      ensures cats[i].name != c.name
    {
      assert cats[i] in cats;
    }
  }

  /** The rules of `title = CharField(max_length=100)`: required, not blank, at most 100 characters. */
  function TitleError(title: string): (e: Option<FieldError>)
    ensures e.None? <==> 0 < |title| <= TitleMaxLength
  {
    if title == "" then Some(Blank("title"))
    else if |title| > TitleMaxLength then Some(TooLong("title", TitleMaxLength))
    else None
  }

  /**
   * A freshly inserted note row: both `auto_now_add` and `auto_now`
   * timestamps take the insertion time and no category is linked yet.
   */
  function NewNote(id: NoteId, title: string, content: string, owner: UserId, now: Timestamp): (n: Note)
    ensures n.id == id && n.title == title && n.content == content && n.owner == owner
    ensures n.createdAt == now && n.updatedAt == now && n.categories == {}
  {
    Note(id, title, content, now, now, {}, owner)
  }

  /**
   * Saving an existing row: `updated_at` (`auto_now`) takes the save time,
   * `created_at` (`auto_now_add`) keeps its value, and nothing else changes.
   */
  function Saved(n: Note, now: Timestamp): (r: Note)
    ensures r.createdAt == n.createdAt && r.updatedAt == now
    ensures r.(updatedAt := n.updatedAt) == n
  {
    n.(updatedAt := now)
  }

  /** The row after one save at each of the given times, in order. */
  function SavedAt(n: Note, times: seq<Timestamp>): Note
    decreases |times|
  {
    if times == [] then n else SavedAt(Saved(n, times[0]), times[1..])
  }

  /**
   * However many times a note is saved, `created_at` keeps the value it got
   * at creation and `updated_at` is the time of the last save.
   */
  lemma {:induction false} CreatedAtSetOnce(n: Note, times: seq<Timestamp>)
    ensures SavedAt(n, times).createdAt == n.createdAt
    ensures times != [] ==> SavedAt(n, times).updatedAt == times[|times| - 1]
    ensures SavedAt(n, times).(updatedAt := n.updatedAt) == n
    decreases |times|
  {
    if times != [] {
      CreatedAtSetOnce(Saved(n, times[0]), times[1..]);
      if |times| > 1 {
        assert times[1..][|times[1..]| - 1] == times[|times| - 1];
      }
    }
  }

  /** `note.categories.add(c)`: the link set gains `c`; the note row itself is not saved. */
  function Linked(n: Note, c: CategoryId): (r: Note)
    ensures c in r.categories && r.categories - {c} == n.categories - {c}
    ensures r.(categories := n.categories) == n
  {
    n.(categories := n.categories + {c})
  }

  /** Links form a set: adding the same category a second time changes nothing. */
  lemma LinkTwice(n: Note, c: CategoryId)
    ensures Linked(Linked(n, c), c) == Linked(n, c)
    ensures c in n.categories ==> Linked(n, c) == n
  {
  }

  /** Names of the categories linked to a note, in the order of the category table. */
  function LinkedNames(n: Note, cats: seq<Category>): (r: seq<string>)
    ensures |r| <= |cats|
    ensures forall s :: s in r <==> exists c :: c in cats && c.id in n.categories && c.name == s
  {
    if cats == [] then []
    else if cats[0].id in n.categories then [cats[0].name] + LinkedNames(n, cats[1..])
    else LinkedNames(n, cats[1..])
  }

  /** `Note.objects.filter(owner=u)`: the notes owned by `u`, in table order. */
  function OwnedBy(notes: seq<Note>, u: UserId): (r: seq<Note>)
    ensures forall n :: n in r <==> n in notes && n.owner == u
    ensures |r| <= |notes|
  {
    if notes == [] then []
    else if notes[0].owner == u then [notes[0]] + OwnedBy(notes[1..], u)
    else OwnedBy(notes[1..], u)
  }

  /** The note rows left after deleting user `u`: `on_delete=CASCADE` removes exactly the notes `u` owns. */
  function WithoutOwner(notes: seq<Note>, u: UserId): (r: seq<Note>)
    ensures forall n :: n in r <==> n in notes && n.owner != u
    ensures |r| <= |notes|
  {
    if notes == [] then []
    else if notes[0].owner != u then [notes[0]] + WithoutOwner(notes[1..], u)
    else WithoutOwner(notes[1..], u)
  }

  /** Deleting a user splits the table: what the cascade removes plus what it keeps is the whole table. */
  lemma {:induction false} CascadePartition(notes: seq<Note>, u: UserId)
    ensures multiset(OwnedBy(notes, u)) + multiset(WithoutOwner(notes, u)) == multiset(notes)
    ensures |OwnedBy(notes, u)| + |WithoutOwner(notes, u)| == |notes|
  {
    if notes != [] {
      CascadePartition(notes[1..], u);
      assert notes == [notes[0]] + notes[1..];
    }
  }

  /** A filter of a table with unique keys still has unique keys. */
  lemma {:induction false} OwnedByIdsUnique(notes: seq<Note>, u: UserId)
    requires NoteIdsUnique(notes)
    ensures NoteIdsUnique(OwnedBy(notes, u))
  {
    if notes != [] {
      assert NoteIdsUnique(notes[1..]) by {
        forall i, j | 0 <= i < j < |notes[1..]| ensures notes[1..][i].id != notes[1..][j].id {
          assert notes[1..][i] == notes[i + 1] && notes[1..][j] == notes[j + 1];
        }
      }
      OwnedByIdsUnique(notes[1..], u);
      if notes[0].owner == u {
        var rest := OwnedBy(notes[1..], u);
        forall k | 0 <= k < |rest| ensures rest[k].id != notes[0].id {
          assert rest[k] in notes[1..];
          var j :| 0 <= j < |notes[1..]| && notes[1..][j] == rest[k];
          assert notes[j + 1] == rest[k];
        }
      }
    }
  }

  /** The ids of the notes `u` owns. */
  function OwnedIds(notes: seq<Note>, u: UserId): set<NoteId> {
    set n | n in notes && n.owner == u :: n.id
  }

  /** The rows after the first still have unique keys, none of them the first row's. */
  lemma NoteIdsUniqueTail(notes: seq<Note>)
    requires NoteIdsUnique(notes) && notes != []
    ensures NoteIdsUnique(notes[1..])
    ensures forall m :: m in notes[1..] ==> m.id != notes[0].id
  {
    var rest := notes[1..];
    forall i, j | 0 <= i < j < |rest| ensures rest[i].id != rest[j].id {
      assert rest[i] == notes[i + 1] && rest[j] == notes[j + 1];
    }
    forall m | m in rest ensures m.id != notes[0].id {
      var j :| 0 <= j < |rest| && rest[j] == m;
      assert notes[j + 1] == m;
    }
  }

  /** The ids `u` owns: the first row's, if it is `u`'s, and those of the rest. */
  lemma OwnedIdsCons(notes: seq<Note>, u: UserId)
    requires notes != []
    ensures OwnedIds(notes, u) == (if notes[0].owner == u then {notes[0].id} else {}) + OwnedIds(notes[1..], u)
  {
    assert notes == [notes[0]] + notes[1..];
  }

  /** With unique keys, the owner filter holds exactly one row per note id `u` owns. */
  lemma {:induction false} OwnedByCount(notes: seq<Note>, u: UserId)
    requires NoteIdsUnique(notes)
    ensures |OwnedBy(notes, u)| == |OwnedIds(notes, u)|
  {
    if notes != [] {
      var rest := notes[1..];
      NoteIdsUniqueTail(notes);
      OwnedByCount(rest, u);
      OwnedIdsCons(notes, u);
      if notes[0].owner == u {
        assert notes[0].id !in OwnedIds(rest, u);
      }
    }
  }

  /** Position of the note row with the given id, if there is one. */
  function NoteIndex(notes: seq<Note>, id: NoteId): (r: Option<nat>)
    ensures r.Some? ==> r.value < |notes| && notes[r.value].id == id
    ensures r.None? <==> id !in NoteIds(notes)
  {
    if notes == [] then None
    else if notes[0].id == id then Some(0)
    else match NoteIndex(notes[1..], id)
      case None => None
      case Some(i) => Some(i + 1)
  }

  /** The table without the row whose id is `id`. */
  function RemoveNote(notes: seq<Note>, id: NoteId): (r: seq<Note>)
    ensures forall n :: n in r <==> n in notes && n.id != id
    ensures |r| <= |notes|
  {
    if notes == [] then []
    else if notes[0].id == id then RemoveNote(notes[1..], id)
    else [notes[0]] + RemoveNote(notes[1..], id)
  }

  /** Removing a row keeps the keys unique. */
  lemma {:induction false} RemoveNoteIdsUnique(notes: seq<Note>, id: NoteId)
    requires NoteIdsUnique(notes)
    ensures NoteIdsUnique(RemoveNote(notes, id))
  {
    if notes != [] {
      var rest := notes[1..];
      assert NoteIdsUnique(rest) by {
        forall i, j | 0 <= i < j < |rest| ensures rest[i].id != rest[j].id {
          assert rest[i] == notes[i + 1] && rest[j] == notes[j + 1];
        }
      }
      RemoveNoteIdsUnique(rest, id);
      if notes[0].id != id {
        var r := RemoveNote(rest, id);
        forall k | 0 <= k < |r| ensures r[k].id != notes[0].id {
          assert r[k] in rest;
          var j :| 0 <= j < |rest| && rest[j] == r[k];
          assert notes[j + 1] == r[k];
        }
      }
    }
  }

  /** The same cascade keeps the keys unique. */
  lemma {:induction false} WithoutOwnerIdsUnique(notes: seq<Note>, u: UserId)
    requires NoteIdsUnique(notes)
    ensures NoteIdsUnique(WithoutOwner(notes, u))
  {
    if notes != [] {
      var rest := notes[1..];
      assert NoteIdsUnique(rest) by {
        forall i, j | 0 <= i < j < |rest| ensures rest[i].id != rest[j].id {
          assert rest[i] == notes[i + 1] && rest[j] == notes[j + 1];
        }
      }
      WithoutOwnerIdsUnique(rest, u);
      if notes[0].owner != u {
        var r := WithoutOwner(rest, u);
        forall k | 0 <= k < |r| ensures r[k].id != notes[0].id {
          assert r[k] in rest;
          var j :| 0 <= j < |rest| && rest[j] == r[k];
          assert notes[j + 1] == r[k];
        }
      }
    }
  }

  /** Deleting a category row also deletes its rows in the link table. */
  function Unlinked(notes: seq<Note>, c: CategoryId): (r: seq<Note>)
    ensures |r| == |notes|
    ensures forall i :: 0 <= i < |r| ==> r[i] == notes[i].(categories := notes[i].categories - {c})
  {
    if notes == [] then [] else [notes[0].(categories := notes[0].categories - {c})] + Unlinked(notes[1..], c)
  }
  /** Position of the category row with the given id, if there is one. */
  function CategoryIndex(cats: seq<Category>, id: CategoryId): (r: Option<nat>)
    ensures r.Some? ==> r.value < |cats| && cats[r.value].id == id
    ensures r.None? <==> id !in CategoryIds(cats)
  {
    if cats == [] then None
    else if cats[0].id == id then Some(0)
    else match CategoryIndex(cats[1..], id)
      case None => None
      case Some(i) => Some(i + 1)
  }

  /** The category rows other than the one at position `i`. */
  function Others(cats: seq<Category>, i: nat): (r: seq<Category>)
    requires i < |cats|
    ensures |r| == |cats| - 1
    ensures forall k :: 0 <= k < i ==> r[k] == cats[k]
    ensures forall k :: i <= k < |r| ==> r[k] == cats[k + 1]
  {
    cats[..i] + cats[i + 1..]
  }

  /** Removing row `i` removes exactly its key from the set of keys. */
  lemma OthersIds(cats: seq<Category>, i: nat)
    requires CategoryIdsUnique(cats) && i < |cats|
    ensures CategoryIds(Others(cats, i)) == CategoryIds(cats) - {cats[i].id}
  {
    var rest := Others(cats, i);
    forall x | x in CategoryIds(cats) && x != cats[i].id ensures x in CategoryIds(rest) {
      var c :| c in cats && c.id == x;
      var j :| 0 <= j < |cats| && cats[j] == c;
      assert rest[if j < i then j else j - 1] == c;
    }
    forall x | x in CategoryIds(rest) ensures x in CategoryIds(cats) - {cats[i].id} {
      var c :| c in rest && c.id == x;
      var j :| 0 <= j < |rest| && rest[j] == c;
      assert c == cats[if j < i then j else j + 1];
    }
  }

  /** Renaming row `i` to a name no other row uses keeps the invariant and the set of keys. */
  lemma RenameKeepsInvariant(cats: seq<Category>, notes: seq<Note>, i: nat, name: string)
    requires StoreInvariant(cats, notes) && i < |cats|
    requires CategoryNameError(Others(cats, i), name).None?
    ensures StoreInvariant(cats[i := Category(cats[i].id, name)], notes)
    ensures CategoryIds(cats[i := Category(cats[i].id, name)]) == CategoryIds(cats)
  {
    var others := Others(cats, i);
    var renamed := cats[i := Category(cats[i].id, name)];
    assert forall k :: 0 <= k < |others| ==> others[k] == (if k < i then cats[k] else cats[k + 1]);
    forall j, k | 0 <= j < k < |renamed| ensures renamed[j].name != renamed[k].name {
      if j == i {
        assert renamed[k] == others[k - 1];
        assert others[k - 1] in others;
      } else if k == i {
        assert renamed[j] == others[j];
        assert others[j] in others;
      }
    }
    assert CategoryIds(renamed) == CategoryIds(cats) by {
      forall x | x in CategoryIds(cats) ensures x in CategoryIds(renamed) {
        var c :| c in cats && c.id == x;
        var j :| 0 <= j < |cats| && cats[j] == c;
        assert renamed[j].id == x;
      }
      forall x | x in CategoryIds(renamed) ensures x in CategoryIds(cats) {
        var c :| c in renamed && c.id == x;
        var j :| 0 <= j < |renamed| && renamed[j] == c;
        assert cats[j].id == x;
      }
    }
  }

  /** Deleting row `i` together with its links keeps the invariant. */
  lemma RemoveCategoryKeepsInvariant(cats: seq<Category>, notes: seq<Note>, i: nat)
    requires StoreInvariant(cats, notes) && i < |cats|
    ensures StoreInvariant(Others(cats, i), Unlinked(notes, cats[i].id))
    ensures CategoryIds(Others(cats, i)) == CategoryIds(cats) - {cats[i].id}
  {
    var id := cats[i].id;
    OthersIds(cats, i);
    var kept := Unlinked(notes, id);
    assert forall k :: 0 <= k < |kept| ==> kept[k].id == notes[k].id;
  }
}
