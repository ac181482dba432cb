/**
 * The browser script static/js/notes.js: reading the CSRF token from the
 * cookie string, the note form modal (create or edit, with its category
 * options) and the request a submission or a delete sends. The DOM is
 * modelled by the handful of values the script reads and writes; the
 * request is the value `fetch` would be given.
 */
module NotesJs {
  import opened Wrappers
  import opened Text
  import opened Models

  // ---- String built-ins ----

  /**
   * ECMAScript's WhiteSpace and LineTerminator code points, the ones
   * `String.prototype.trim` removes (ECMAScript 2023, sections 12.2 and 12.3):
   * tab, line feed, vertical tab, form feed, carriage return, the space
   * separators of category Zs, the line and paragraph separators, and the
   * byte order mark.
   */
  const JsWhitespace: set<char> := {
    '\t', '\n', '\U{000B}', '\U{000C}', '\r', ' ', '\U{00A0}', '\U{1680}',
    '\U{2000}', '\U{2001}', '\U{2002}', '\U{2003}', '\U{2004}', '\U{2005}',
    '\U{2006}', '\U{2007}', '\U{2008}', '\U{2009}', '\U{200A}',
    '\U{2028}', '\U{2029}', '\U{202F}', '\U{205F}', '\U{3000}', '\U{FEFF}'
  }

  predicate IsJsWhitespace(c: char) {
    c in JsWhitespace
  }

  /** Every character of `w` is white space. */
  predicate AllWhitespace(w: string) {
    forall k :: 0 <= k < |w| ==> IsJsWhitespace(w[k])
  }

  /** How many white-space characters `s` starts with. */
  function LeadingWhitespace(s: string): (n: nat)
    ensures n <= |s| && AllWhitespace(s[..n])
    ensures n < |s| ==> !IsJsWhitespace(s[n])
  {
    if s != [] && IsJsWhitespace(s[0]) then
      var m := LeadingWhitespace(s[1..]);
      forall k | 0 <= k < m + 1 ensures IsJsWhitespace(s[k]) {
        if k > 0 {
          assert s[1..][..m][k - 1] == s[k];
        }
      }
      m + 1
    else 0
  }

  /** Where the white space `s` ends with begins. */
  function TrailingStart(s: string): (n: nat)
    ensures n <= |s| && AllWhitespace(s[n..])
    ensures n > 0 ==> !IsJsWhitespace(s[n - 1])
  {
    if s != [] && IsJsWhitespace(s[|s| - 1]) then
      var m := TrailingStart(s[..|s| - 1]);
      forall k | m <= k < |s| ensures IsJsWhitespace(s[k]) {
        if k < |s| - 1 {
          assert s[..|s| - 1][m..][k - m] == s[k];
        }
      }
      m
    else |s|
  }

  /** `s.trim()`: the result has no white space at either end. */
  function Trim(s: string): (r: string)
    ensures |r| <= |s|
    ensures r != [] ==> !IsJsWhitespace(r[0]) && !IsJsWhitespace(r[|r| - 1])
  {
    var t := s[LeadingWhitespace(s)..];
    t[..TrailingStart(t)]
  }

  /** What `trim` removes is white space only: `s` is the trimmed string with white space before and after it. */
  lemma TrimPadding(s: string)
    ensures exists pre, post {:trigger AllWhitespace(pre), AllWhitespace(post)} ::
      s == pre + Trim(s) + post && AllWhitespace(pre) && AllWhitespace(post)
  {
    var n := LeadingWhitespace(s);
    var t := s[n..];
    var m := TrailingStart(t);
    ThreePieces(s, n, m);
  }

  lemma ThreePieces(s: string, n: nat, m: nat)
    requires n <= |s| && m <= |s| - n
    ensures s == s[..n] + s[n..][..m] + s[n..][m..]
  {
    assert s == s[..n] + s[n..];
    assert s[n..] == s[n..][..m] + s[n..][m..];
  }

  /** Trimming removes white space only: a string with no white space at either end is its own trim. */
  lemma TrimUnpadded(s: string)
    requires s != [] ==> !IsJsWhitespace(s[0]) && !IsJsWhitespace(s[|s| - 1])
    ensures Trim(s) == s
  {
    assert LeadingWhitespace(s) == 0;
    assert s[0..] == s;
    assert TrailingStart(s) == |s|;
  }

  /** Trimming twice is trimming once. */
  lemma TrimIdempotent(s: string)
    ensures Trim(Trim(s)) == Trim(s)
  {
    TrimUnpadded(Trim(s));
  }

  /** An index as `substring` reads it: clamped into `0..|s|`. */
  function Clamp(k: int, len: nat): (r: nat)
    ensures r <= len
    ensures 0 <= k <= len ==> r == k
  {
    if k < 0 then 0 else if k > len then len else k
  }

  /**
   * `s.substring(start, end)`: both ends are clamped into the string and
   * swapped when the start is past the end.
   */
  function Substring(s: string, start: int, end: int): (r: string)
    ensures 0 <= start <= end <= |s| ==> r == s[start..end]
    ensures end >= |s| && 0 <= start <= |s| ==> r == s[start..]
    ensures |r| <= |s|
  {
    var a := Clamp(start, |s|);
    var b := Clamp(end, |s|);
    if a <= b then s[a..b] else s[b..a]
  }

  // ---- getCSRFToken ----

  const CsrfCookieName: string := "csrftoken"
  /** What a matching cookie entry starts with: the name and `=`. */
  const CsrfPrefix: string := CsrfCookieName + "="

  /**
   * The value of one trimmed cookie entry when it is the CSRF cookie, read
   * as the script does: its first 10 characters are the prefix, and the
   * value is the rest.
   */
  function EntryValue(entry: string): (r: Option<string>)
    ensures r.Some? <==> |CsrfPrefix| <= |entry| && entry[..|CsrfPrefix|] == CsrfPrefix
    ensures r.Some? ==> entry == CsrfPrefix + r.value
  {
    var n := |CsrfCookieName|;
    if Substring(entry, 0, n + 1) == CsrfPrefix then
      Some(Substring(entry, n + 1, |entry|))
    else None
  }

  /** The value carried by a raw cookie entry: trimmed, then read as above. */
  function Match(entry: string): Option<string> {
    EntryValue(Trim(entry))
  }

  /** No entry, once trimmed, is the CSRF cookie. */
  predicate NoCsrfEntry(entries: seq<string>) {
    forall k :: 0 <= k < |entries| ==> Match(entries[k]).None?
  }

  /** The decoded value of the first entry that, once trimmed, is the CSRF cookie. */
  function FirstCsrf(entries: seq<string>, decode: string -> string): Option<string> {
    if entries == [] then None
    else match Match(entries[0])
      case Some(v) => Some(decode(v))
      case None => FirstCsrf(entries[1..], decode)
  }

  /**
   * What `getCSRFToken` returns for the cookie string `document.cookie`:
   * null for an empty cookie string, otherwise the first CSRF entry's value.
   * `decodeURIComponent` is the parameter `decode`.
   */
  function CsrfToken(cookie: string, decode: string -> string): (r: Option<string>)
    ensures r.None? <==> cookie == "" || NoCsrfEntry(Split(cookie, ';'))
  {
    if cookie == "" then None
    else
      FirstCsrfNone(Split(cookie, ';'), decode);
      FirstCsrf(Split(cookie, ';'), decode)
  }

  /** `getCSRFToken`: the indexed loop over the entries that stops at the first match. */
  method GetCsrfToken(cookie: string, decode: string -> string) returns (cookieValue: Option<string>)
    ensures cookieValue == CsrfToken(cookie, decode)
  {
    cookieValue := None;
    var name := CsrfCookieName;
    if cookie != "" {
      var cookies := Split(cookie, ';');
      var i := 0;
      while i < |cookies|
        invariant 0 <= i <= |cookies|
        invariant cookieValue == None
        invariant FirstCsrf(cookies, decode) == FirstCsrf(cookies[i..], decode)
      {
        var entry := Trim(cookies[i]);
        if Substring(entry, 0, |name| + 1) == name + "=" {
          cookieValue := Some(decode(Substring(entry, |name| + 1, |entry|)));
          break;
        }
        assert cookies[i..][1..] == cookies[i + 1..];
        i := i + 1;
      }
    }
  }

  /** The result is null exactly when no entry matches. */
  lemma {:induction false} FirstCsrfNone(entries: seq<string>, decode: string -> string)
    ensures FirstCsrf(entries, decode).None? <==> NoCsrfEntry(entries)
  {
    if entries != [] && Match(entries[0]).None? {
      FirstCsrfNone(entries[1..], decode);
      assert forall k :: 1 <= k < |entries| ==> entries[k] == entries[1..][k - 1];
    }
  }

  /** The first matching entry decides the result; later entries are never looked at. */
  lemma {:induction false} FirstCsrfAt(entries: seq<string>, k: nat, decode: string -> string)
    requires k < |entries| && Match(entries[k]).Some?
    requires forall j :: 0 <= j < k ==> Match(entries[j]).None?
    ensures FirstCsrf(entries, decode) == Some(decode(Match(entries[k]).value))
  {
    if k > 0 {
      assert Match(entries[0]).None?;
      assert entries[1..][k - 1] == entries[k];
      forall j | 0 <= j < k - 1 ensures Match(entries[1..][j]).None? {
        assert entries[1..][j] == entries[j + 1];
      }
      FirstCsrfAt(entries[1..], k - 1, decode);
    }
  }

  /** No cookie string, no token. */
  lemma EmptyCookieHasNoToken(decode: string -> string)
    ensures CsrfToken("", decode) == None
  {
  }

  /**
   * For a cookie string of entries `parts` joined by `;`, an entry that
   * trims to `csrftoken=v` with no match before it gives `decode(v)`,
   * whatever the later entries hold.
   */
  lemma FirstMatchWins(parts: seq<string>, k: nat, v: string, decode: string -> string)
    requires forall i :: 0 <= i < |parts| ==> ';' !in parts[i]
    requires k < |parts| && Trim(parts[k]) == CsrfPrefix + v
    requires forall j :: 0 <= j < k ==> Match(parts[j]).None?
    ensures CsrfToken(Join(parts, ";"), decode) == Some(decode(v))
  {
    JoinLongerThanPart(parts, ";", k);
    SplitJoin(parts, ';');
    assert (CsrfPrefix + v)[..|CsrfPrefix|] == CsrfPrefix;
    var w := Match(parts[k]).value;
    assert CsrfPrefix + w == CsrfPrefix + v;
    assert w == (CsrfPrefix + w)[|CsrfPrefix|..];
    FirstCsrfAt(parts, k, decode);
  }

  /**
   * Only an entry that starts with `csrftoken=` matches: with no entry
   * that does, the result is null.
   */
  lemma NoMatchNoToken(parts: seq<string>, decode: string -> string)
    requires forall i :: 0 <= i < |parts| ==> ';' !in parts[i]
    requires forall j :: 0 <= j < |parts| ==> Match(parts[j]).None?
    ensures CsrfToken(Join(parts, ";"), decode) == None
  {
    if parts != [] {
      SplitJoin(parts, ';');
      FirstCsrfNone(parts, decode);
    }
  }

  /** `xcsrftoken=a` is not the CSRF cookie: the name must start the entry. */
  lemma PrefixMustStartEntry(decode: string -> string)
    ensures CsrfToken("xcsrftoken=a", decode) == None
  {
    var s := "xcsrftoken=a";
    assert ';' !in s;
    TrimUnpadded(s);
    assert s[..|CsrfPrefix|][0] == 'x' != CsrfPrefix[0];
    assert Match(s) == None;
  }

  // ---- Requests ----

  datatype HttpMethod = Post | Patch | Delete

  /** The JSON body of a submission: `category_names` holds the selected option values. */
  datatype NoteBody = NoteBody(title: string, content: string, categoryNames: seq<string>)

  /** What `fetch` is given: method, URL, the `X-CSRFToken` header value (null when there is no cookie) and the body. */
  datatype Request = Request(verb: HttpMethod, url: string, csrfToken: Option<string>, body: Option<NoteBody>)

  const NotesUrl: string := "/api/notes/"

  /** `/api/notes/${id}/`: the URL of one note. */
  function NoteUrl(id: NoteId): (r: string)
    ensures |r| > |NotesUrl| + 1 && r[..|NotesUrl|] == NotesUrl && r[|r| - 1] == '/'
  {
    NotesUrl + NatToString(id) + "/"
  }

  /** The note id a URL names, or None when it is the collection URL or any other URL. */
  function NoteIdOf(url: string): (r: Option<NoteId>)
    ensures r.Some? <==> exists d :: url == NotesUrl + d + "/" && ParseNat(d).Some?
    ensures r.Some? ==> exists d :: url == NotesUrl + d + "/" && ParseNat(d) == Some(r.value)
  {
    if |url| > |NotesUrl| + 1 && url[..|NotesUrl|] == NotesUrl && url[|url| - 1] == '/' then
      var d := url[|NotesUrl|..|url| - 1];
      assert url == NotesUrl + d + "/";
      ParseNat(d)
    else None
  }

  /** A note URL names that note, and the collection URL names none, so the two never meet. */
  lemma NoteUrlNamesNote(id: NoteId)
    ensures NoteIdOf(NoteUrl(id)) == Some(id)
    ensures NoteIdOf(NotesUrl) == None
    ensures NoteUrl(id) != NotesUrl
  {
    var u := NoteUrl(id);
    assert u[|NotesUrl|..|u| - 1] == NatToString(id);
    ParseNatToString(id);
  }

  /**
   * The method and URL `processNoteForm` chooses: PATCH to the note's URL
   * while a note is being edited, POST to the collection otherwise.
   */
  function SubmitTarget(editing: Option<NoteId>): (r: (HttpMethod, string))
    ensures editing.None? ==> r == (Post, NotesUrl)
    ensures editing.Some? ==> r.0 == Patch && NoteIdOf(r.1) == Some(editing.value)
  {
    match editing
    case None => (Post, NotesUrl)
    case Some(id) =>
      NoteUrlNamesNote(id);
      (Patch, NoteUrl(id))
  }

  /** `deleteNote(id)`: a DELETE of the note's URL, with the CSRF header and no body. */
  function DeleteRequest(id: NoteId, cookie: string, decode: string -> string): (r: Request)
    ensures r.verb == Delete && NoteIdOf(r.url) == Some(id) && r.body.None?
    ensures r.csrfToken == CsrfToken(cookie, decode)
  {
    NoteUrlNamesNote(id);
    Request(Delete, NoteUrl(id), CsrfToken(cookie, decode), None)
  }

  // ---- The note modal ----

  /** Whether each option is selected after `option.selected = categories.includes(option.value)`. */
  function Marks(values: seq<string>, categories: seq<string>): (r: seq<bool>)
    ensures |r| == |values|
    ensures forall i :: 0 <= i < |values| ==> (r[i] <==> values[i] in categories)
  {
    seq(|values|, i requires 0 <= i < |values| => values[i] in categories)
  }

  /** `selectedOptions` mapped to their values, in option order. */
  function Chosen(values: seq<string>, selected: seq<bool>): (r: seq<string>)
    requires |selected| == |values|
    ensures forall v :: v in r <==> exists i :: 0 <= i < |values| && selected[i] && values[i] == v
    ensures |r| <= |values|
  {
    if values == [] then []
    else
      var rest := Chosen(values[1..], selected[1..]);
      forall v | v in rest ensures exists i :: 0 <= i < |values| && selected[i] && values[i] == v {
        var j :| 0 <= j < |values| - 1 && selected[1..][j] && values[1..][j] == v;
        assert selected[j + 1] && values[j + 1] == v;
      }
      forall i | 1 <= i < |values| && selected[i] ensures values[i] in rest {
        assert selected[1..][i - 1] && values[1..][i - 1] == values[i];
      }
      if selected[0] then [values[0]] + rest else rest
  }

  /**
   * After the edit modal marks its options, the submitted category names
   * are exactly the note's categories that are among the options.
   */
  lemma ChosenAfterMarks(values: seq<string>, categories: seq<string>)
    ensures forall v :: v in Chosen(values, Marks(values, categories)) <==> v in values && v in categories
  {
    var marks := Marks(values, categories);
    forall v ensures v in Chosen(values, marks) <==> v in values && v in categories {
      if v in values && v in categories {
        var i :| 0 <= i < |values| && values[i] == v;
        assert marks[i];
      }
    }
  }

  /**
   * The modal and its form. `currentEditingNoteId` is the script's global
   * of that name; `optionValues` are the values of the category `<select>`
   * options, one per category name, and `selected` their selection.
   */
  class NoteModal {
    var hidden: bool
    var currentEditingNoteId: Option<NoteId>
    var title: string
    var content: string
    var submitLabel: string
    const optionValues: seq<string>
    const selected: array<bool>

    ghost predicate Valid()
      reads this
    {
      selected.Length == |optionValues|
    }

    /**
     * The page once the category list has loaded: the modal is hidden, no
     * note is being edited, and there is one unselected option per category
     * name, in the order the list gave them.
     */
    constructor (categoryNames: seq<string>, labelText: string)
      ensures Valid() && fresh(selected)
      ensures hidden && currentEditingNoteId == None
      ensures title == "" && content == "" && submitLabel == labelText
      ensures optionValues == categoryNames && selected[..] == seq(|categoryNames|, _ => false)
    {
      hidden := true;
      currentEditingNoteId := None;
      title := "";
      content := "";
      submitLabel := labelText;
      optionValues := categoryNames;
      selected := new bool[|categoryNames|](_ => false);
    }

    /** `noteForm.reset()`: empty fields and no selected option. */
    method ResetForm()
      requires Valid()
      modifies this`title, this`content, selected
      ensures title == "" && content == ""
      ensures selected[..] == seq(selected.Length, _ => false)
    {
      title := "";
      content := "";
      forall i | 0 <= i < selected.Length {
        selected[i] := false;
      }
    }

    /** `openCreateNoteModal`: shown, reset, not editing, so the next submission is a POST. */
    method OpenCreate()
      requires Valid()
      modifies this, selected
      ensures Valid() && !hidden
      ensures currentEditingNoteId == None && SubmitTarget(currentEditingNoteId) == (Post, NotesUrl)
      ensures title == "" && content == "" && submitLabel == "Create Note"
      ensures selected[..] == seq(selected.Length, _ => false)
    {
      hidden := false;
      ResetForm();
      currentEditingNoteId := None;
      submitLabel := "Create Note";
    }

    /**
     * `openEditNoteModal`: shown, filled with the note's fields, editing
     * `noteId` so the next submission is a PATCH of that note, and each
     * option selected exactly when its value is among the note's categories.
     */
    method OpenEdit(noteId: NoteId, noteTitle: string, noteContent: string, categories: seq<string>)
      requires Valid()
      modifies this, selected
      ensures Valid() && !hidden
      ensures currentEditingNoteId == Some(noteId)
      ensures SubmitTarget(currentEditingNoteId).0 == Patch
      ensures NoteIdOf(SubmitTarget(currentEditingNoteId).1) == Some(noteId)
      ensures title == noteTitle && content == noteContent && submitLabel == "Update Note"
      ensures selected[..] == Marks(optionValues, categories)
    {
      hidden := false;
      ResetForm();
      currentEditingNoteId := Some(noteId);
      title := noteTitle;
      content := noteContent;
      MarkOptions(categories);
      submitLabel := "Update Note";
    }

    /** The `forEach` over the options: each is selected exactly when its value is among `categories`. */
    method MarkOptions(categories: seq<string>)
      requires Valid()
      modifies selected
      ensures selected[..] == Marks(optionValues, categories)
    {
      var i := 0;
      while i < selected.Length
        invariant 0 <= i <= selected.Length
        invariant forall j :: 0 <= j < i ==> (selected[j] <==> optionValues[j] in categories)
      {
        selected[i] := optionValues[i] in categories;
        i := i + 1;
      }
    }

    /** `closeModal`: hides the modal and nothing else. */
    method Close()
      modifies this`hidden
      ensures hidden
    {
      hidden := true;
    }

    /**
     * The request `processNoteForm` sends: the target chosen by whether a
     * note is being edited, the CSRF token, and the form's title, content
     * and selected option values. The form itself is left as it is.
     */
    method Submit(cookie: string, decode: string -> string) returns (r: Request)
      requires Valid()
      ensures (r.verb, r.url) == SubmitTarget(currentEditingNoteId)
      ensures r.csrfToken == CsrfToken(cookie, decode)
      ensures r.body == Some(NoteBody(title, content, Chosen(optionValues, selected[..])))
    {
      var names := Chosen(optionValues, selected[..]);
      var target := SubmitTarget(currentEditingNoteId);
      var token := GetCsrfToken(cookie, decode);
      r := Request(target.0, target.1, token, Some(NoteBody(title, content, names)));
    }
  }
}
