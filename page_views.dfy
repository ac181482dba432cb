/**
 * The page view of notes/views.py: a logged-in user's own notes, most
 * recently updated first. Anonymous visitors are sent to the login page
 * (`LoginRequiredMixin`) and get no list.
 */
module PageViews {
  import opened Models

  datatype Page = NoteList(notes: seq<Note>) | RedirectToLogin

  /** `updated_at` never increases along the list. */
  predicate SortedByRecent(s: seq<Note>) {
    forall i, j :: 0 <= i < j < |s| ==> s[i].updatedAt >= s[j].updatedAt
  }

  /** Puts `n` in front of the first note that was updated no later than it. */
  function InsertByRecent(n: Note, s: seq<Note>): (r: seq<Note>)
    requires SortedByRecent(s)
    ensures SortedByRecent(r)
    ensures multiset(r) == multiset(s) + multiset{n}
    ensures |r| == |s| + 1
  {
    if s == [] then [n]
    else if n.updatedAt >= s[0].updatedAt then [n] + s
    else
      var rest := InsertByRecent(n, s[1..]);
      assert s == [s[0]] + s[1..];
      assert forall x :: x in rest ==> x in s[1..] || x == n by {
        forall x | x in rest ensures x in s[1..] || x == n {
          assert x in multiset(rest);
        }
      }
      assert forall k :: 0 <= k < |rest| ==> s[0].updatedAt >= rest[k].updatedAt by {
        forall k | 0 <= k < |rest| ensures s[0].updatedAt >= rest[k].updatedAt {
          assert rest[k] in rest;
          if rest[k] != n {
            var j :| 0 <= j < |s[1..]| && s[1..][j] == rest[k];
            assert s[j + 1] == rest[k];
          }
        }
      }
      [s[0]] + rest
  }

  /** `order_by("-updated_at")`: the same notes, most recently updated first. */
  function SortByRecent(s: seq<Note>): (r: seq<Note>)
    ensures SortedByRecent(r)
    ensures multiset(r) == multiset(s)
    ensures |r| == |s|
  {
    if s == [] then []
    else
      assert s == [s[0]] + s[1..];
      InsertByRecent(s[0], SortByRecent(s[1..]))
  }

  /** `NoteListView.get_queryset`, behind the login requirement. */
  function NoteListPage(notes: seq<Note>, actor: Actor): (r: Page)
    ensures actor.Anonymous? <==> r == RedirectToLogin
    ensures r.NoteList? ==> SortedByRecent(r.notes)
    ensures r.NoteList? ==> multiset(r.notes) == multiset(OwnedBy(notes, actor.user.id))
  {
    if actor.Anonymous? then RedirectToLogin
    else NoteList(SortByRecent(OwnedBy(notes, actor.user.id)))
  }

  /**
   * The page lists exactly the user's notes, each of them once, one entry
   * per note id the user owns, in order of `updated_at` descending.
   */
  lemma NoteListHoldsOwnNotes(notes: seq<Note>, actor: Actor)
    requires NoteIdsUnique(notes) && actor.Authenticated?
    ensures var page := NoteListPage(notes, actor).notes;
      && (forall n :: n in page <==> n in notes && n.owner == actor.user.id)
      && (forall n :: n in page ==> multiset(page)[n] == 1)
      && |page| == |OwnedIds(notes, actor.user.id)|
      && SortedByRecent(page)
  {
    var owned := OwnedBy(notes, actor.user.id);
    var page := NoteListPage(notes, actor).notes;
    OwnedByCount(notes, actor.user.id);
    OwnedByIdsUnique(notes, actor.user.id);
    forall n | n in page ensures multiset(page)[n] == 1 {
      assert multiset(page)[n] == multiset(owned)[n];
      DistinctOccursOnce(owned, n);
    }
    forall n ensures n in page <==> n in owned {
      assert n in page <==> n in multiset(page);
      assert n in owned <==> n in multiset(owned);
    }
  }

  /** In a list with unique ids a note occurs at most once. */
  lemma {:induction false} DistinctOccursOnce(s: seq<Note>, n: Note)
    requires NoteIdsUnique(s) && n in s
    ensures multiset(s)[n] == 1
  {
    assert s == [s[0]] + s[1..];
    var rest := s[1..];
    NoteIdsUniqueTail(s);
    if s[0] == n {
      assert n !in rest;
    } else {
      DistinctOccursOnce(rest, n);
    }
  }
}
