/**
 * The REST serializers of api/serializers.py: how a note is turned into a
 * response record, how a request body is validated into the data the
 * model is written from, and how `create` fixes the owner.
 *
 * `NoteSerializer` is written against a note with a single optional
 * `category`; the note model of core/models.py has a many-to-many
 * `categories` instead. The model follows the serializer as written and
 * states the consequences where they arise: a stored note cannot be
 * rendered (`BaseRepresentation`, `StoredNoteFailsToRender`), a validated
 * `category` breaks creation (`ModelCreate`), and update sets it only as a
 * plain attribute (`Updated`, `UpdatedInstance`). `LinkedRepresentation`
 * is the representation the design evidently intends.
 */
module Serializers {
  import opened Wrappers
  import opened Models
  import opened Text

  /** A field value of a request or response record. */
  datatype Value =
    | VNull
    | VBool(b: bool)
    | VInt(i: int)
    | VStr(s: string)
    | VTime(t: Timestamp)
    | VRef(pk: nat)   // a model instance, by primary key
    | VStrList(items: seq<string>)

  type Record = map<string, Value>

  /** `NoteSerializer.Meta.fields`. */
  const MetaFields: set<string> :=
    {"id", "title", "content", "created_at", "updated_at", "owner", "category", "category_name"}

  /**
   * Fields a client may write. `owner` and `category_name` are declared
   * read-only; `id` and the two timestamps are not editable on the model.
   */
  const WritableFields: set<string> := {"title", "content", "category"}

  /**
   * The `category` attribute of a note instance, which `get_category_name`
   * reads. The note model has no such field, so an instance loaded from the
   * table or returned by `objects.create` lacks it (`Missing`). Only
   * `ModelSerializer.update` sets it, as a plain attribute holding a
   * category or None.
   */
  datatype CategoryAttr = Missing | Assigned(category: Option<Category>)

  /** The note as the serializer reads it: the row, its owner's user record and the `category` attribute. */
  datatype NoteInstance = NoteInstance(note: Note, owner: User, category: CategoryAttr)

  /** Rendering a note fails with the `AttributeError` of reading an attribute the instance lacks. */
  datatype RenderError = AttributeError(attribute: string)

  /**
   * `get_category_name`: reads `obj.category`, which raises on an instance
   * without that attribute; otherwise the category's name, or nothing when
   * the attribute holds None.
   */
  function GetCategoryName(inst: NoteInstance): (r: Result<Option<string>, RenderError>)
    ensures r.Err? <==> inst.category.Missing?
    ensures r.Err? ==> r.error == AttributeError("category")
    ensures r.Ok? ==> (r.value.None? <==> inst.category.category.None?)
    ensures r.Ok? && r.value.Some? ==> r.value.value == CategoryStr(inst.category.category.value)
  {
    match inst.category
    case Missing => Err(AttributeError("category"))
    case Assigned(c) => Ok(if c.Some? then Some(c.value.name) else None)
  }

  /** A name as a response value: the text, or `null`. */
  function NameOrNull(name: Option<string>): (v: Value)
    ensures name.Some? <==> v.VStr?
    ensures name.Some? ==> v == VStr(name.value)
    ensures name.None? ==> v == VNull
  {
    if name.Some? then VStr(name.value) else VNull
  }

  /**
   * The entries of a representation that come straight from the row: key,
   * title, content, the two timestamps, and the owner through
   * `StringRelatedField` (the user's username).
   */
  function RowFields(n: Note, owner: User): (r: Record)
    ensures r.Keys == MetaFields - {"category", "category_name"}
    ensures r["owner"] == VStr(owner.username)
  {
    map[
      "id" := VInt(n.id),
      "title" := VStr(n.title),
      "content" := VStr(n.content),
      "created_at" := VTime(n.createdAt),
      "updated_at" := VTime(n.updatedAt),
      "owner" := VStr(owner.username)]
  }

  /**
   * `super().to_representation(instance)`: one entry per field of
   * `Meta.fields`. The `category` field, declared with `allow_null=True`,
   * turns a missing attribute into `null` and shows a category by its
   * primary key; the `category_name` method field lets the
   * `AttributeError` of `get_category_name` escape, so an instance without
   * the attribute cannot be rendered at all.
   */
  function BaseRepresentation(inst: NoteInstance): (r: Result<Record, RenderError>)
    ensures r.Err? <==> inst.category.Missing?
    ensures r.Err? ==> r.error == GetCategoryName(inst).error
    ensures r.Ok? ==> r.value.Keys == MetaFields
    ensures r.Ok? ==> r.value["category_name"] == NameOrNull(GetCategoryName(inst).value)
    ensures r.Ok? ==> forall k :: k in RowFields(inst.note, inst.owner) ==> r.value[k] == RowFields(inst.note, inst.owner)[k]
  {
    match GetCategoryName(inst)
    case Err(e) => Err(e)
    case Ok(name) =>
      var category := if inst.category.Assigned? && inst.category.category.Some? then VInt(inst.category.category.value.id) else VNull;
      Ok(RowFields(inst.note, inst.owner)["category" := category]["category_name" := NameOrNull(name)])
  }

  /**
   * `to_representation`: when `super().to_representation` succeeds, the
   * `category_name` entry is popped and its value stored under `category`.
   * The result then has every field of `Meta.fields` but `category_name`;
   * `category` holds the name or `null`; every other entry is the base
   * representation's. When it raises, the error is the result.
   */
  method ToRepresentation(inst: NoteInstance) returns (representation: Result<Record, RenderError>)
    ensures representation.Err? <==> inst.category.Missing?
    ensures representation.Err? ==> representation.error == AttributeError("category")
    ensures representation.Ok? ==> representation.value.Keys == MetaFields - {"category_name"}
    ensures representation.Ok? ==> representation.value["category"] == NameOrNull(GetCategoryName(inst).value)
    ensures representation.Ok? ==> forall k :: k in representation.value && k != "category" ==>
      representation.value[k] == BaseRepresentation(inst).value[k]
  {
    var base := BaseRepresentation(inst);
    if base.Err? {
      return Err(base.error);
    }
    var rep := base.value;
    var name := rep["category_name"];
    rep := rep - {"category_name"};
    rep := rep["category" := name];
    representation := Ok(rep);
  }

  /**
   * Every note the ORM hands back, from a query or from `objects.create`,
   * fails to render: the serializer reads a `category` attribute that the
   * note model does not have.
   */
  lemma StoredNoteFailsToRender(n: Note, owner: User)
    ensures GetCategoryName(NoteInstance(n, owner, Missing)) == Err(AttributeError("category"))
    ensures BaseRepresentation(NoteInstance(n, owner, Missing)) == Err(AttributeError("category"))
  {
  }

  /**
   * The representation evidently intended for the note model as it stands:
   * the row's entries as before, and `category` listing the names of the
   * categories linked through `categories`. Every stored note renders.
   */
  function LinkedRepresentation(n: Note, owner: User, cats: seq<Category>): (r: Record)
    ensures r.Keys == MetaFields - {"category_name"}
    ensures forall k :: k in RowFields(n, owner) ==> r[k] == RowFields(n, owner)[k]
    ensures r["category"].VStrList?
    ensures forall s :: s in r["category"].items <==> exists c :: c in cats && c.id in n.categories && c.name == s
  {
    RowFields(n, owner)["category" := VStrList(LinkedNames(n, cats))]
  }

  /** Errors of the required text field `title` (`max_length=100`); a partial update may omit it. */
  function TitleErrors(data: Record, partial: bool): (es: seq<FieldError>)
    ensures es == [] <==>
      if "title" in data then data["title"].VStr? && TitleError(data["title"].s).None? else partial
  {
    if "title" !in data then (if partial then [] else [Required("title")])
    else match data["title"]
      case VNull => [Null("title")]
      case VStr(s) => (match TitleError(s) case Some(e) => [e] case None => [])
      case _ => [IncorrectType("title")]
  }

  /** Errors of the required text field `content` (a `TextField`: not blank, no length limit). */
  function ContentErrors(data: Record, partial: bool): (es: seq<FieldError>)
    ensures es == [] <==>
      if "content" in data then data["content"].VStr? && data["content"].s != "" else partial
  {
    if "content" !in data then (if partial then [] else [Required("content")])
    else match data["content"]
      case VNull => [Null("content")]
      case VStr(s) => if s == "" then [Blank("content")] else []
      case _ => [IncorrectType("content")]
  }

  /**
   * A `category` value that stands for no category: `null`, or the empty
   * string, which a related field turns into `null` before the key lookup.
   */
  predicate NoCategory(v: Value) {
    v == VNull || v == VStr("")
  }

  /**
   * The primary key a `category` value names: an integer, or a string of
   * decimal digits, which the key lookup `queryset.get(pk=...)` converts.
   */
  function CategoryKey(v: Value): Option<int> {
    match v
    case VInt(k) => Some(k)
    case VStr(s) => (match ParseNat(s) case Some(k) => Some(k as int) case None => None)
    case _ => None
  }

  /**
   * Errors of `category = PrimaryKeyRelatedField(required=False,
   * allow_null=True)`: it may be left out, be `null` or be the empty string,
   * which counts as `null`; otherwise it must
   * name the primary key of an existing category, as an integer or as a
   * numeral string. Any other value has the wrong type.
   */
  function CategoryErrors(data: Record, cats: seq<Category>): (es: seq<FieldError>)
    ensures es == [] <==>
      "category" !in data || NoCategory(data["category"])
      || (CategoryKey(data["category"]).Some? && CategoryKey(data["category"]).value in CategoryIds(cats))
    ensures "category" in data && data["category"] == VStr("") ==> es == []
    ensures "category" in data && data["category"].VStr? && ParseNat(data["category"].s).Some? ==>
      (es == [] <==> ParseNat(data["category"].s).value in CategoryIds(cats))
    ensures "category" in data && (data["category"].VBool? || data["category"].VStrList?) ==>
      es == [IncorrectType("category")]
  {
    if "category" !in data || NoCategory(data["category"]) then []
    else match CategoryKey(data["category"])
      case None => [IncorrectType("category")]
      case Some(k) => if k in CategoryIds(cats) then [] else [DoesNotExist("category", k)]
  }

  /** All field errors of a request body, field by field. */
  function NoteInputErrors(data: Record, cats: seq<Category>, partial: bool): seq<FieldError> {
    TitleErrors(data, partial) + ContentErrors(data, partial) + CategoryErrors(data, cats)
  }

  /**
   * `is_valid()` for a note request body: either every error of every
   * field, or the validated data, which holds only the writable fields the
   * body supplied, unchanged. Read-only fields (`owner` among them) and
   * unknown keys are ignored.
   */
  function ValidateNoteInput(data: Record, cats: seq<Category>, partial: bool): (r: Result<Record, seq<FieldError>>)
    ensures r.Ok? <==> NoteInputErrors(data, cats, partial) == []
    ensures r.Err? ==> r.error == NoteInputErrors(data, cats, partial)
    ensures r.Ok? ==> r.value.Keys == WritableFields * data.Keys
    ensures r.Ok? ==> forall k :: k in r.value ==> r.value[k] == data[k]
    ensures r.Ok? ==> "owner" !in r.value
  {
    var errors := NoteInputErrors(data, cats, partial);
    if errors != [] then Err(errors)
    else Ok(map k | k in WritableFields && k in data :: data[k])
  }

  /** A client-supplied `owner` has no effect on validation: the field is read-only. */
  lemma OwnerIsReadOnly(data: Record, cats: seq<Category>, partial: bool, owner: Value)
    ensures ValidateNoteInput(data["owner" := owner], cats, partial) == ValidateNoteInput(data, cats, partial)
  {
    var d := data["owner" := owner];
    assert TitleErrors(d, partial) == TitleErrors(data, partial);
    assert ContentErrors(d, partial) == ContentErrors(data, partial);
    assert CategoryErrors(d, cats) == CategoryErrors(data, cats);
    assert (map k | k in WritableFields && k in d :: d[k]) == (map k | k in WritableFields && k in data :: data[k]);
  }

  /** `category` may be left out or be `null`: a body with a valid title and content passes either way. */
  lemma CategoryOptional(title: string, content: string, cats: seq<Category>)
    requires TitleError(title).None? && content != ""
    ensures ValidateNoteInput(map["title" := VStr(title), "content" := VStr(content)], cats, false).Ok?
    ensures ValidateNoteInput(map["title" := VStr(title), "content" := VStr(content), "category" := VNull], cats, false)
      == Ok(map["title" := VStr(title), "content" := VStr(content), "category" := VNull])
  {
    var d := map["title" := VStr(title), "content" := VStr(content), "category" := VNull];
    assert NoteInputErrors(d, cats, false) == [];
    assert (map k | k in WritableFields && k in d :: d[k]) == d;
  }

  /** Keyword arguments `Note(...)` accepts: the concrete fields of the note model. */
  const NoteModelFields: set<string> := {"id", "title", "content", "created_at", "updated_at", "owner"}

  datatype CreateError = UnexpectedKeywords(names: set<string>)

  /** What `Note.objects.create` receives once the keyword arguments are accepted. */
  datatype NewNoteFields = NewNoteFields(title: string, content: string, owner: Option<UserId>)

  /** A text keyword argument; a model text field left out defaults to the empty string. */
  function TextOf(kwargs: Record, k: string): string {
    if k in kwargs && kwargs[k].VStr? then kwargs[k].s else ""
  }

  /** The owner keyword argument, when it names a user. */
  function OwnerOf(kwargs: Record): Option<UserId> {
    if "owner" in kwargs && kwargs["owner"].VRef? then Some(kwargs["owner"].pk) else None
  }

  /**
   * `ModelSerializer.create` handing the validated data to
   * `Note.objects.create(**validated_data)`. The note model has no
   * `category` field, so a validated `category` is an unexpected keyword
   * and creation fails with nothing written. Supplied `id` and timestamps
   * are not modelled (validation never lets them through).
   */
  function ModelCreate(kwargs: Record): (r: Result<NewNoteFields, CreateError>)
    ensures r.Ok? <==> kwargs.Keys <= NoteModelFields
    ensures r.Err? ==> r.error == UnexpectedKeywords(kwargs.Keys - NoteModelFields)
    ensures r.Ok? ==> r.value == NewNoteFields(TextOf(kwargs, "title"), TextOf(kwargs, "content"), OwnerOf(kwargs))
  {
    var unknown := kwargs.Keys - NoteModelFields;
    if unknown != {} then Err(UnexpectedKeywords(unknown))
    else Ok(NewNoteFields(TextOf(kwargs, "title"), TextOf(kwargs, "content"), OwnerOf(kwargs)))
  }

  /**
   * `NoteSerializer.create`: the owner in the validated data is set to the
   * request's user before the model is created, whatever it was. Success
   * depends only on the other keys; title and content pass through.
   */
  method Create(validatedData: Record, requestUser: User) returns (r: Result<NewNoteFields, CreateError>)
    ensures r.Ok? <==> validatedData.Keys - {"owner"} <= NoteModelFields
    ensures r.Err? ==> r.error == UnexpectedKeywords(validatedData.Keys - NoteModelFields)
    ensures r.Ok? ==> r.value.owner == Some(requestUser.id)
    ensures r.Ok? ==> r.value.title == TextOf(validatedData, "title") && r.value.content == TextOf(validatedData, "content")
  {
    var data := validatedData;
    data := data["owner" := VRef(requestUser.id)];
    assert data.Keys == validatedData.Keys + {"owner"};
    assert data.Keys - NoteModelFields == validatedData.Keys - NoteModelFields;
    r := ModelCreate(data);
  }

  /** A validated legacy `category` makes creation fail: the note model has no such field. */
  lemma CategoryBreaksCreate(validatedData: Record, requestUser: User)
    requires "category" in validatedData
    ensures ModelCreate(validatedData["owner" := VRef(requestUser.id)]).Err?
    ensures "category" in ModelCreate(validatedData["owner" := VRef(requestUser.id)]).error.names
  {
  }

  /**
   * `ModelSerializer.update` on an instance: every validated field is set on
   * it. Title and content are written by the following save; `category` is
   * only a plain attribute of the instance, which the save does not write.
   * Nothing else of the note changes.
   */
  function Updated(n: Note, validated: Record): (r: Note)
    ensures r.(title := n.title, content := n.content) == n
    ensures "title" in validated && validated["title"].VStr? ==> r.title == validated["title"].s
    ensures !("title" in validated && validated["title"].VStr?) ==> r.title == n.title
    ensures "content" in validated && validated["content"].VStr? ==> r.content == validated["content"].s
    ensures !("content" in validated && validated["content"].VStr?) ==> r.content == n.content
  {
    var title := if "title" in validated && validated["title"].VStr? then validated["title"].s else n.title;
    var content := if "content" in validated && validated["content"].VStr? then validated["content"].s else n.content;
    n.(title := title, content := content)
  }

  /**
   * The instance after `ModelSerializer.update`: besides title and content,
   * a validated `category` is set on it as a plain attribute, holding the
   * category it names or None; without one the attribute stays as it was.
   */
  function UpdatedInstance(inst: NoteInstance, validated: Record, cats: seq<Category>): (r: NoteInstance)
    ensures r.note == Updated(inst.note, validated) && r.owner == inst.owner
    ensures "category" !in validated ==> r.category == inst.category
    ensures "category" in validated && NoCategory(validated["category"]) ==> r.category == Assigned(None)
    ensures "category" in validated && CategoryErrors(validated, cats) == [] && !NoCategory(validated["category"]) ==>
      && r.category.Assigned? && r.category.category.Some?
      && r.category.category.value in cats
      && Some(r.category.category.value.id as int) == CategoryKey(validated["category"])
  {
    var attr :=
      if "category" !in validated then inst.category
      else if NoCategory(validated["category"]) then Assigned(None)
      else match CategoryKey(validated["category"])
        case None => Assigned(None)
        case Some(k) =>
          if k < 0 then Assigned(None)
          else match CategoryIndex(cats, k)
            case None => Assigned(None)
            case Some(j) => Assigned(Some(cats[j]));
    NoteInstance(Updated(inst.note, validated), inst.owner, attr)
  }

  /**
   * The response to an update of a note loaded from the table renders only
   * when the body carried `category`: only then does the instance have the
   * attribute `get_category_name` reads.
   */
  lemma RenderAfterUpdate(n: Note, owner: User, validated: Record, cats: seq<Category>)
    ensures BaseRepresentation(UpdatedInstance(NoteInstance(n, owner, Missing), validated, cats)).Ok?
      <==> "category" in validated
  {
  }

  /** `CategorySerializer` input: the `name` field (`id` is read-only), judged against the other rows. */
  function ValidateCategoryInput(data: Record, others: seq<Category>): (r: Result<string, FieldError>)
    ensures r.Ok? <==> "name" in data && data["name"].VStr? && CategoryNameError(others, data["name"].s).None?
    ensures r.Ok? ==> r.value == data["name"].s
  {
    if "name" !in data then Err(Required("name"))
    else match data["name"]
      case VNull => Err(Null("name"))
      case VStr(s) => (match CategoryNameError(others, s) case Some(e) => Err(e) case None => Ok(s))
      case _ => Err(IncorrectType("name"))
  }

  /**
   * `CategorySerializer` input for an update: a partial update
   * (`partial_update`) may leave `name` out, which validates to no change;
   * anything else is judged as for a new row.
   */
  function ValidateCategoryUpdate(data: Record, others: seq<Category>, partial: bool): (r: Result<Option<string>, FieldError>)
    ensures partial && "name" !in data ==> r == Ok(None)
    ensures !(partial && "name" !in data) ==>
      && (r.Ok? <==> ValidateCategoryInput(data, others).Ok?)
      && (r.Ok? ==> r.value == Some(data["name"].s))
      && (r.Err? ==> r.error == ValidateCategoryInput(data, others).error)
  {
    if partial && "name" !in data then Ok(None)
    else match ValidateCategoryInput(data, others)
      case Err(e) => Err(e)
      case Ok(name) => Ok(Some(name))
  }
}
