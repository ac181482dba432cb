# Notes app: a verified model

This project models the core of a small Django note-taking application in
Dafny and proves what that core promises. Each user keeps private notes.
A note has a title, content, creation and update times, a set of shared
categories and an owner. The application has four ways in:

- a REST API for categories and notes;
- the Django admin;
- a page that lists the logged-in user's notes;
- a browser script that drives the note form and sends its requests.

The model covers six parts:

- **Records and tables** (`Models`, `Store`): users, categories and notes.
  - The field rules: a unique, non-blank category name of at most 64
    characters, and a required title of at most 100 characters.
  - The table invariant: unique names and unique keys, and links that
    only point at existing categories.
  - The row-level changes the application makes, as methods of a
    `Database` class that keep that invariant: category insert, rename and
    delete; note insert and save with `auto_now_add`/`auto_now`
    timestamps; many-to-many `add`; note deletion; and user deletion with
    `on_delete=CASCADE`. The many-to-many `remove`, `clear` and `set` are
    not modelled.
- **Serializers** (`Serializers`):
  - the response record of a note, where `category_name` is popped into
    `category`, and which cannot be built for a note loaded from the table
    (see below);
  - validation of a request body, where `owner` is read-only and
    `category` is optional and nullable;
  - `create`, which always sets the owner to the request's user;
  - the category serializer's `name` field.
- **REST viewsets** (`ApiViews`):
  - Authentication is checked before anything else.
  - Categories are shared by everyone.
  - Notes are always looked up through the owner filter. Another user's
    note is therefore indistinguishable from a missing one, and every
    request refused before the write leaves the tables unchanged. A note
    POST without `category` is not refused: the row is inserted and the
    response then fails to render.
- **Admin** (`Admin`):
  - Superusers see everything; any other user sees only their own notes.
  - A non-superuser can only pick themself as owner, and owns every note
    they add.
  - The "duplicate" action copies notes in a loop.
  - Two derived list columns: the joined category names and the number
    of notes per category.
- **Note list page** (`PageViews`): the user's own notes, most recently
  updated first, as a permutation of the owner-filtered rows. Anonymous
  visitors are redirected to the login page.
- **Browser script** (`NotesJs`):
  - `getCSRFToken` as a loop proved against a specification of "the value
    of the first trimmed `csrftoken=` entry". This includes ECMAScript's
    `trim` and `substring` semantics.
  - The note modal as a class with an option array, covering create mode
    and edit mode.
  - The requests a submission or a delete sends: PATCH `/api/notes/{id}/`
    while editing, POST `/api/notes/` otherwise.

`Text` holds the string operations several files share: Python's
`join`, JavaScript's `split` on one character, and decimal numerals.

**The serializer and the note model disagree.** `NoteSerializer` is
written for a note with one optional `category` foreign key
(api/serializers.py:26-29, 40-46). The note model has a many-to-many
`categories` field instead (core/models.py:28), and migration 0003
removes the old `category` column. The model follows the code as
written and states the consequences:

- A note instance carries a `category` attribute only after
  `ModelSerializer.update` has set it (`Serializers.CategoryAttr`). A row
  loaded from the table, or returned by `Note.objects.create`, lacks it.
- `get_category_name` reads `obj.category`, so rendering such a row fails
  with `AttributeError` (`Serializers.StoredNoteFailsToRender`). The
  `category` field itself is declared `allow_null=True`, which turns the
  missing attribute into `null`. The method field has no such guard.
  Listing a user's notes, retrieving one, creating one, and updating one
  without `category` in the body all render such a row. Only an update
  whose body carries `category` renders (`Serializers.RenderAfterUpdate`).
- A validated `category` reaches `Note.objects.create` as an unexpected
  keyword, so creation fails (`Serializers.CategoryBreaksCreate`).
- Update sets `category` only as a plain attribute, which the save does
  not write (`Serializers.Updated`).

The viewset members of `ApiViews` stop at the row they find, insert or
save; the response body is `Serializers.ToRepresentation` of that row.
The representation the design evidently intends, with the names of the
linked categories, is `Serializers.LinkedRepresentation` (see
"## Findings").

The test suite posts `category_names`. No serializer field reads that
key, so it is ignored like any other unknown key.

## Model

| member | source | states |
|---|---|---|
| Models.CategoryStr | core/models.py:12-13 | a category shows as exactly its name, which is non-blank and at most 64 characters when the name is valid |
| Models.NoteStr | core/models.py:31-32 | a note shows as exactly its title |
| Models.CategoryNameError | core/models.py:10 | a proposed name is accepted iff it is non-blank, at most 64 characters and used by no other row; a used name is always rejected |
| Models.AddNameKeepsUnique | core/models.py:10 | adding a category whose name passed the rules keeps all names distinct |
| Models.TitleError | core/models.py:24 | a title is accepted iff it has 1 to 100 characters |
| Models.NewNote | core/models.py:24-29 | a new row has the given key, fields and owner, both timestamps at the insertion time and no links |
| Models.Saved | core/models.py:26-27 | a save sets `updated_at` to the save time, keeps `created_at` and changes nothing else |
| Models.CreatedAtSetOnce | core/models.py:26-27 | after any number of saves `created_at` is its creation value, `updated_at` is the last save's time, and all other fields are unchanged |
| Models.Linked | core/models.py:28 | linking adds the category to the note's link set and changes nothing else |
| Models.LinkTwice | core/models.py:28 | links form a set: linking twice equals linking once, and linking an already linked category is a no-op |
| Models.OwnedBy | core/models.py:29 | the owner filter holds exactly the rows owned by the user |
| Models.WithoutOwner | core/models.py:29 | deleting a user keeps exactly the rows the user does not own |
| Models.CascadePartition | core/models.py:29 | the deleted rows and the kept rows together are the whole table, as a multiset and in number |
| Models.OwnedByIdsUnique | core/models.py:29 | the owner filter of a table with unique keys has unique keys |
| Models.OwnedByCount | core/models.py:29 | with unique keys, the owner filter has exactly one row per note id the user owns |
| Models.NoteIndex | core/models.py:16-29 | a lookup by primary key finds a row with that key, and finds none iff no row has it |
| Models.RemoveNote | core/models.py:16-29 | deleting a note keeps exactly the rows with a different key |
| Models.RemoveNoteIdsUnique | core/models.py:16-29 | deleting a note keeps the keys unique |
| Models.WithoutOwnerIdsUnique | core/models.py:29 | the cascade keeps the keys unique |
| Models.Unlinked | core/models.py:28 | deleting a category removes it from every note's link set, with all notes staying in place |
| Models.CategoryIndex | core/models.py:5-10 | a lookup by primary key finds a category with that key, and finds none iff no row has it |
| Models.Others | core/models.py:5-10 | the rows other than the one at a position, in order |
| Models.OthersIds | core/models.py:5-10 | removing a category row removes exactly its key from the key set |
| Models.StoreInvariant | core/models.py:5-29 | what the tables keep true: unique and valid category names, unique primary keys, and links that only point at existing categories |
| Models.RenameKeepsInvariant | core/models.py:10 | renaming to a valid name that is unused by the other rows keeps the table invariant and the key set |
| Models.RemoveCategoryKeepsInvariant | core/models.py:10-28 | deleting a category with its links keeps the table invariant and removes exactly its key |
| Store.Database.constructor | core/models.py:5-29 | the tables start empty and satisfy the invariant |
| Store.Database.CategoryById | core/models.py:5-10 | a category is found iff its key exists, and is the row with that key |
| Store.Database.NoteById | core/models.py:16-29 | a note is found iff its key exists, and is the row with that key |
| Store.Database.CreateCategory | core/models.py:10 | a name that breaks a rule is rejected with that error and nothing changes; otherwise one row with a fresh key is appended and the invariant holds |
| Store.Database.RenameCategory | core/models.py:10 | an unknown key or a rejected name changes nothing; otherwise only that row's name changes |
| Store.Database.DeleteCategory | core/models.py:28 | the row is removed and its links disappear from every note; an unknown key changes nothing |
| Store.Database.InsertNote | core/models.py:24-29 | a note without an owner is refused and nothing changes; otherwise one new row with a fresh key and both timestamps at `now` is appended |
| Store.Database.SaveNote | core/models.py:26-27 | only the saved row changes: new title, content and owner, `updated_at` at `now`, the same `created_at` and links |
| Store.Database.DeleteNote | core/models.py:16-29 | the table afterwards is the table without that key |
| Store.Database.DeleteUser | core/models.py:29 | the table afterwards holds exactly the notes of other users |
| Store.Database.AddLink | core/models.py:28 | an unknown note or category changes nothing; otherwise only that note gains the link |
| Text.Join | api/admin.py:42 | joining no parts gives the empty string; otherwise the result starts with the first part |
| Text.JoinSnoc | api/admin.py:42 | appending a part to a non-empty list appends the separator and that part to the joined string, so the result is the parts in order with one separator between neighbours |
| Text.Split | static/js/notes.js:7 | splitting always gives at least one piece, and no piece holds the separator |
| Text.JoinSplit | static/js/notes.js:7 | joining the pieces of a split with the separator gives back the string |
| Text.SplitJoin | static/js/notes.js:7 | splitting a join of separator-free parts gives back the parts |
| Text.NatToString | static/js/notes.js:61 | a numeral is non-empty and made only of digits |
| Text.ParseNat | static/js/notes.js:61 | a string reads as a number iff it is a non-empty run of digits |
| Text.ParseNatToString | static/js/notes.js:61 | every number's numeral reads back as that number |
| Serializers.GetCategoryName | api/serializers.py:44-46 | an instance without the `category` attribute raises `AttributeError`; otherwise there is no name iff the attribute holds None, and else it is that category's name |
| Serializers.NameOrNull | api/serializers.py:44-46 | a missing name becomes `null` and a name becomes that text |
| Serializers.BaseRepresentation | api/serializers.py:26-46 | the default representation fails iff the instance lacks `category`, with the error of `get_category_name`; otherwise it has exactly the keys of `Meta.fields`, the row's fields, the owner as a username and `category_name` as the name or null |
| Serializers.ToRepresentation | api/serializers.py:48-55 | the output fails iff the instance lacks `category`; otherwise its keys are exactly `Meta.fields` without `category_name`, `category` holds the name or null, and every other entry equals the default representation's |
| Serializers.StoredNoteFailsToRender | api/serializers.py:44-55 | every note instance as the ORM returns it, without the `category` attribute, fails to render with `AttributeError` |
| Serializers.LinkedRepresentation | api/serializers.py:48-55 | the corrected representation: the row's fields as before, and `category` listing exactly the names of the linked categories; every stored note renders |
| Serializers.TitleErrors | api/serializers.py:33-42 | the title is accepted iff it is a valid text of 1 to 100 characters, or it is absent from a partial update |
| Serializers.ContentErrors | api/serializers.py:33-42 | the content is accepted iff it is a non-blank text, or it is absent from a partial update |
| Serializers.CategoryErrors | api/serializers.py:26-28 | `category` is accepted iff it is absent, null, the empty string (which a related field reads as null), or names the key of an existing category as an integer or a numeral string; a boolean has the wrong type |
| Serializers.ValidateNoteInput | api/serializers.py:25-42 | a body is valid iff no field has an error; the errors are reported; the validated data is exactly the writable keys the body supplied, unchanged, and never holds `owner` |
| Serializers.OwnerIsReadOnly | api/serializers.py:25 | any client-supplied `owner` leaves validation unchanged |
| Serializers.CategoryOptional | api/serializers.py:26-28 | a body with a valid title and content is valid with `category` left out or null |
| Serializers.ModelCreate | api/serializers.py:63 | the model accepts the keyword arguments iff all of them are note fields, and otherwise names the unexpected ones |
| Serializers.Create | api/serializers.py:57-63 | the created note's owner is always the request user; success depends only on the keys other than `owner`; title and content pass through |
| Serializers.CategoryBreaksCreate | api/serializers.py:57-63 | validated data holding `category` always fails to create, naming `category` as unexpected |
| Serializers.Updated | api/serializers.py:18-29 | an update writes the validated title and content and changes nothing else of the note |
| Serializers.UpdatedInstance | api/serializers.py:18-29 | after an update the instance holds the updated row; a validated `category` is set on it, as None for null or the empty string and otherwise as the category row of the table with that key; without one the attribute stays as it was |
| Serializers.RenderAfterUpdate | api/serializers.py:44-55 | the response to an update of a loaded note renders iff the validated body carried `category` |
| Serializers.ValidateCategoryInput | api/serializers.py:13-15 | a category body is valid iff its `name` is a text that passes the name rules, and then the name is that text |
| Serializers.ValidateCategoryUpdate | api/serializers.py:8-15 | a partial update without `name` validates to no change; any other body is accepted or refused exactly as a new row's, with the same error |
| ApiViews.ListCategories | api/views.py:13-15 | anonymous requests are refused; any user gets every category row |
| ApiViews.RetrieveCategory | api/views.py:13-15 | anonymous requests are refused; a category is found iff its key exists, whoever asks |
| ApiViews.CreateCategory | api/views.py:13-15 | succeeds iff the actor is logged in and the name is valid, and then appends exactly that row and advances the category key counter by one; any refusal changes nothing; the note table and the note key counter never change |
| ApiViews.UpdateCategory | api/views.py:13-15 | refuses anonymous requests and unknown keys; for an existing key it succeeds iff the update body validates, a partial update without `name` keeping the row as it is; on success exactly that row takes the validated name; any refusal changes nothing; the note table and both key counters never change |
| ApiViews.DestroyCategory | api/views.py:13-15 | fails exactly as retrieval fails, changing nothing; otherwise removes the row and its links; both key counters stay |
| ApiViews.ListNotes | api/views.py:28-33 | anonymous requests are refused; the list holds exactly the actor's notes |
| ApiViews.ListCountIsOwnedCount | api/views.py:28-33 | the list has as many entries as the actor owns notes, with unique keys |
| ApiViews.RetrieveNote | api/views.py:28-33 | a note is found iff the actor owns a note with that key; what is found is that note and is the actor's |
| ApiViews.OthersNotesLookMissing | api/views.py:28-33 | another user's note gives not-found, the same answer as when that note does not exist |
| ApiViews.OwnNoteResponseFails | api/views.py:28-33 | a note the actor can retrieve, as loaded from the table, still fails to render; the corrected representation shows it under its own key |
| ApiViews.CreatePlan | api/views.py:35-40 | anonymous requests and invalid bodies are refused with their errors; the plan succeeds iff the actor is logged in, the body validates and holds no `category`; the note then has the body's title and content and the actor as owner |
| ApiViews.CreatePlanOwnedByActor | api/views.py:35-40 | a created note's owner is the actor, and the outcome is the same whatever `owner` the body carried |
| ApiViews.CreateNote | api/views.py:26-40 | anonymous or invalid requests, or a failed create, change nothing; otherwise exactly one note owned by the actor is appended and the note key counter advances by one; the category table and its counter never change |
| ApiViews.UpdateNote | api/views.py:26-33 | a note outside the actor's own, or an invalid body, changes nothing; otherwise only that note changes, to the validated fields saved at `now`, and it stays the actor's; the category table and both key counters never change |
| ApiViews.DestroyNote | api/views.py:26-33 | a note outside the actor's own changes nothing; otherwise exactly that note is deleted; the category table and both key counters never change |
| Admin.AdminQueryset | api/admin.py:63-67 | a superuser sees every note, in order; anyone else sees exactly their own notes |
| Admin.UsersWithId | api/admin.py:71 | the filter holds exactly the users with that id |
| Admin.OwnerChoices | api/admin.py:69-72 | for a non-superuser the only owner choices are users with their own id; a superuser keeps every user |
| Admin.AssignOwner | api/admin.py:74-77 | a new note saved by a non-superuser gets that user as owner; otherwise the chosen owner stays; nothing else in the form changes |
| Admin.NonSuperuserSavesOwnNotes | api/admin.py:69-77 | whatever a non-superuser saves, new or existing, is saved as theirs |
| Admin.SaveModel | api/admin.py:63-77 | a new note is appended with the assigned owner, which is the actor for a non-superuser; an existing note, which the change view found through the admin queryset and so is the actor's own unless they are a superuser, is saved with the form's fields; the note key counter advances by one on an insert and stays on a save, and the category table and its counter never change |
| Admin.CopyTitle | api/admin.py:55 | a copy's title is "Cópia de " (nine characters) followed by the original title |
| Admin.Copies | api/admin.py:52-56 | there are as many copies as selected notes, each with fresh timestamps and no links |
| Admin.CopiesAt | api/admin.py:52-56 | there is one copy per selected note, in order, each with a consecutive new key, the prefixed title, the same content and owner, fresh timestamps and no links |
| Admin.CopyCanExceedTitleLimit | api/admin.py:55-56 | the copy of a valid title is a valid title iff the original has at most 91 characters; a valid title of 92 to 100 characters gives a copy that is too long |
| Admin.DuplicateNote | api/admin.py:52-59 | the originals stay as they were, the copies are appended after them, and the reported count is the number selected; the note key counter advances by that count, and the category table and its counter stay |
| Models.LinkedNames | api/admin.py:42 | the names listed are exactly those of the categories linked to the note |
| Admin.CategoriesList | api/admin.py:40-42 | the result is the names of the note's linked categories joined with ", " (see `Text.JoinSnoc` for what joining means); no linked category gives the empty string, a single one gives its name, and every linked name fits in the list |
| Admin.CategoriesListEmptyIff | api/admin.py:40-42 | the joined list is empty iff the note has no linked category |
| Admin.LinkedTo | api/admin.py:15-16 | the reverse relation holds exactly the notes linked to the category |
| Admin.NoteCount | api/admin.py:15-16 | the count is at most the number of notes, and is zero iff no note is linked to the category |
| Admin.NoteCountAfterLink | api/admin.py:15-16 | a new link raises that category's count by one, a repeated link leaves it alone, and other categories' counts do not move |
| PageViews.InsertByRecent | notes/views.py:12 | inserting into a list sorted by `updated_at` descending keeps it sorted and adds exactly one element |
| PageViews.SortByRecent | notes/views.py:12 | the sorted list is ordered by `updated_at` non-increasing and is a permutation of the input |
| PageViews.NoteListPage | notes/views.py:6-12 | anonymous visitors are redirected; otherwise the list is sorted and is a permutation of the user's notes |
| PageViews.NoteListHoldsOwnNotes | notes/views.py:11-12 | the page holds exactly the user's notes, each once, one per note id the user owns, most recent first |
| NotesJs.LeadingWhitespace | static/js/notes.js:9 | counts the leading white space: all of it is white space and the next character is not |
| NotesJs.TrailingStart | static/js/notes.js:9 | finds where the trailing white space starts: all of it is white space and the character before it is not |
| NotesJs.Trim | static/js/notes.js:9 | a trimmed string has no white space at either end |
| NotesJs.TrimPadding | static/js/notes.js:9 | the original is the trimmed string with only white space before and after it |
| NotesJs.TrimUnpadded | static/js/notes.js:9 | a string with no white space at either end is its own trim |
| NotesJs.TrimIdempotent | static/js/notes.js:9 | trimming twice equals trimming once |
| NotesJs.Substring | static/js/notes.js:10-11 | `substring` within bounds is the slice, and an end past the string reads to the end |
| NotesJs.EntryValue | static/js/notes.js:10-11 | an entry matches iff it starts with `csrftoken=`, and the entry is then that prefix followed by the value |
| NotesJs.CsrfToken | static/js/notes.js:3-17 | the token is null iff the cookie string is empty or no trimmed entry starts with `csrftoken=` |
| NotesJs.GetCsrfToken | static/js/notes.js:3-17 | the loop with its early exit returns exactly the specified token: null for no cookie, else the first matching entry's decoded value |
| NotesJs.FirstCsrfNone | static/js/notes.js:8-14 | the result is null iff no trimmed entry matches |
| NotesJs.FirstCsrfAt | static/js/notes.js:8-14 | the first matching entry decides the result, whatever follows it |
| NotesJs.EmptyCookieHasNoToken | static/js/notes.js:4-6 | an empty cookie string gives null |
| NotesJs.FirstMatchWins | static/js/notes.js:7-12 | for a cookie of `;`-separated entries, the first one that trims to `csrftoken=v` gives decode of `v`, whatever later entries say |
| NotesJs.NoMatchNoToken | static/js/notes.js:10 | with no entry starting with `csrftoken=` after trimming, the result is null |
| NotesJs.PrefixMustStartEntry | static/js/notes.js:10 | `xcsrftoken=a` gives null: the name must start the entry |
| NotesJs.NoteUrl | static/js/notes.js:61 | a note URL lies under `/api/notes/`, ends with `/`, and has something in between |
| NotesJs.NoteIdOf | static/js/notes.js:61 | a URL yields an id iff it is `/api/notes/` followed by a non-empty run of digits and `/`, and the id is the value of those digits |
| NotesJs.NoteUrlNamesNote | static/js/notes.js:61 | a note's URL yields exactly that note's id, and the collection URL yields none, so the two differ |
| NotesJs.SubmitTarget | static/js/notes.js:60-62 | no note being edited gives POST to `/api/notes/`; a note being edited gives PATCH to a URL that names exactly that note |
| NotesJs.DeleteRequest | static/js/notes.js:94-100 | a delete is a DELETE of the URL naming that note, with the CSRF token and no body |
| NotesJs.Marks | static/js/notes.js:40-42 | an option is marked iff its value is among the note's categories |
| NotesJs.Chosen | static/js/notes.js:58 | the submitted names are exactly the values of the selected options |
| NotesJs.ChosenAfterMarks | static/js/notes.js:40-42 | after the edit modal marks its options, the submitted names are exactly the category names that are both options and the note's |
| NotesJs.NoteModal.constructor | static/js/notes.js:115-135 | the page starts hidden and not editing, with one unselected option per category name, in list order |
| NotesJs.NoteModal.ResetForm | static/js/notes.js:25 | resetting empties title and content and clears every option |
| NotesJs.NoteModal.OpenCreate | static/js/notes.js:23-28 | the create modal is shown and reset, is not editing (so the next submission is a POST), and labels its button "Create Note" |
| NotesJs.NoteModal.OpenEdit | static/js/notes.js:31-45 | the edit modal is shown with the note's fields and is editing that note (so the next submission is a PATCH of its URL); each option is selected iff its value is among the note's categories; the button reads "Update Note" |
| NotesJs.NoteModal.MarkOptions | static/js/notes.js:40-42 | after the loop every option is selected iff its value is among the categories |
| NotesJs.NoteModal.Close | static/js/notes.js:48-50 | closing hides the modal and changes nothing else |
| NotesJs.NoteModal.Submit | static/js/notes.js:53-76 | the request's method and URL follow the editing state, its CSRF header is the cookie token, and its body is the form's title, content and selected option values |

## Left out

- The ORM, the database and transactions. Tables are sequences, and each
  row-level change is one method of `Store.Database`. Primary keys come
  from counters that never reuse a key.
- Integrity errors are not modelled as exceptions. Each operation checks
  its rule first and returns an error value.
- HTTP routing, status codes and response framing. The endpoints return
  a `Result` whose errors name the outcome: not authenticated, not found,
  bad request, or a failed create.
- Clocks. A save takes its time as a `now` parameter, so one insertion
  gives `created_at == updated_at`. `Admin.DuplicateNote` takes a single
  `now` that stamps every copy, where the source saves each copy at its
  own time.
- DRF's coercion of numbers to text, and its trimming of surrounding
  white space in `CharField` input. A text field here accepts only a text
  value, as given.
- Serializers.CategoryErrors: of the strings Python's `int` reads as a
  key, only plain digit strings are accepted. A sign, surrounding white
  space, underscores or a float value are reported as the wrong type,
  because the model has no number parser beyond decimal digits.
- Dictionary key order. A representation is a map, so the model does not
  capture that `category` moves to the end of the JSON object.
- PageViews.SortByRecent: the order among notes with the same
  `updated_at`, because the database does not fix it.
- The admin's form validation (required fields, title length) and
  `save_related`, which writes the many-to-many links.
  `Admin.SaveModel` receives a form that has already been validated.
- `owner_link` (api/admin.py:46-48), because its output comes from
  `reverse` and `format_html`, which are library calls.
- Admin messages, list display, filters, search and fieldsets, because
  they are presentation only.
- Category-name normalisation, name-or-id category references and retry
  after conflicts, because no file of the application implements them.
- `decodeURIComponent`, modelled as a total function parameter `decode`.
  The `URIError` it throws on a malformed escape is not modelled.
- The DOM and `fetch`: the responses, `window.location.reload` and
  console logging.
- The `X-CSRFToken` header when there is no token: browsers send `null`
  as the text "null", while a request here keeps the value as `None`.
- The category `<select>` being filled from `/api/categories/`. The
  options are given to `NoteModal`'s constructor in list order.
- Store.Database.SaveNote: a save whose key matches no row is refused
  here, while Django's `save()` would insert a row with that key. Every
  caller has looked the row up first (`ApiViews.UpdateNote` through the
  owner filter, `Admin.SaveModel` through the admin queryset), so no path
  of the application reaches that case.
- Store.Database.CreateCategory: the table itself refuses a blank or
  over-long name, which Django leaves to validation. Every caller
  validates first, so no path of the application reaches that difference.
- Concurrency, because the application has none.
- The migration (core/migrations/0003_remove_note_category_note_categories.py),
  which is schema history. It is used only to settle which note field exists.
- The test factories, which are test scaffolding.

## Findings

| source | as written | input that shows it | evidently intended | confidence | as-written member | corrected member |
|---|---|---|---|---|---|---|
| api/serializers.py:44-46 | `get_category_name` reads `obj.category`, an attribute the note model (core/models.py:24-29) no longer has | any note loaded from the table, e.g. `GET /api/notes/{id}/` for one's own note | the response names the note's linked categories | high, not executed | Serializers.StoredNoteFailsToRender | Serializers.LinkedRepresentation |
