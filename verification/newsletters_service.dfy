/** The newsletter reading services of
    src/modules/newsletters/newsletters.service.ts: the filtered, newest-first
    listing with cursor pagination, and the owner-checked get, update and
    delete of one record. */
module Newsletters {
  import opened Common
  import opened Store

  datatype StatusFilter = All | Unread | Read | Archived

  /** The `where` clause a status filter adds. */
  predicate MatchesStatus(n: Newsletter, status: StatusFilter) {
    match status
    case All => true
    case Unread => !n.isRead && !n.isArchived
    case Read => n.isRead && !n.isArchived
    case Archived => n.isArchived
  }

  /** The rows a listing query considers: the caller's, passing the filter. */
  predicate Listed(n: Newsletter, userId: string, status: StatusFilter) {
    n.userId == userId && MatchesStatus(n, status)
  }

  function ReceivedAt(n: Newsletter): int {
    n.receivedAt
  }

  datatype Page = Page(newsletters: seq<Newsletter>, nextCursor: Option<string>, hasMore: bool)

  /** Position of the first row with this id. */
  function PositionOf(rows: seq<Newsletter>, id: string): (r: Option<nat>)
    ensures r.Some? ==> r.value < |rows| && rows[r.value].id == id
    ensures r.Some? ==> forall j :: 0 <= j < r.value ==> rows[j].id != id
    ensures r.None? ==> forall j :: 0 <= j < |rows| ==> rows[j].id != id
  {
    if |rows| == 0 then None
    else if rows[0].id == id then Some(0)
    else
      match PositionOf(rows[1..], id)
      case None => None
      case Some(k) => Some(k + 1)
  }

  /** Where a page starts: at the top without a cursor, just after the
      cursor row with one (`cursor: { id }, skip: 1`), and nowhere when the
      cursor names no listed row. */
  function PageStart(rows: seq<Newsletter>, cursor: Option<string>): (b: Option<nat>)
    ensures !Truthy(cursor) ==> b == Some(0)
    ensures Truthy(cursor) ==>
      match PositionOf(rows, cursor.value)
      case None => b.None?
      case Some(i) => b == Some(i + 1)
    ensures b.Some? ==> b.value <= |rows|
  {
    if !Truthy(cursor) then Some(0)
    else match PositionOf(rows, cursor.value)
      case None => None
      case Some(i) => Some(i + 1)
  }

  function Min(a: int, b: int): int {
    if a < b then a else b
  }

  /** `take: limit + 1` from the start of the page: at most one row more
      than the page size, in listing order. */
  function Fetch(rows: seq<Newsletter>, cursor: Option<string>, limit: nat): (w: seq<Newsletter>)
    ensures PageStart(rows, cursor).None? ==> w == []
    ensures PageStart(rows, cursor).Some? ==>
      var b := PageStart(rows, cursor).value;
      w <= rows[b..] && |w| == Min(limit + 1, |rows| - b)
  {
    match PageStart(rows, cursor)
    case None => []
    case Some(b) => rows[b..][..Min(limit + 1, |rows| - b)]
  }

  /** `hasMore = fetched.length > limit`; the look-ahead row is dropped and
      the next cursor is the id of the last row kept. */
  function Paginate(fetched: seq<Newsletter>, limit: nat): (p: Page)
    requires 1 <= limit
    requires |fetched| <= limit + 1
    ensures p.hasMore <==> |fetched| > limit
    ensures p.newsletters <= fetched
    ensures !p.hasMore ==> p.newsletters == fetched
    ensures p.hasMore ==> |p.newsletters| == limit
    ensures p.hasMore ==> p.nextCursor == Some(p.newsletters[limit - 1].id)
    ensures !p.hasMore ==> p.nextCursor == None
  {
    var hasMore := |fetched| > limit;
    var items := if hasMore then fetched[..|fetched| - 1] else fetched;
    var nextCursor := if hasMore then Some(items[|items| - 1].id) else None;
    Page(items, nextCursor, hasMore)
  }

  lemma SortedSlice(xs: seq<Newsletter>, b: nat, e: nat)
    requires b <= e <= |xs|
    requires SortedDesc(xs, ReceivedAt)
    ensures SortedDesc(xs[b..e], ReceivedAt)
  {
    assert forall i :: 0 <= i < e - b ==> xs[b..e][i] == xs[b + i];
  }

  /** A page is a contiguous stretch of the listing. */
  lemma PageIsSlice(rows: seq<Newsletter>, cursor: Option<string>, limit: nat) returns (b: nat)
    requires 1 <= limit
    ensures var items := Paginate(Fetch(rows, cursor, limit), limit).newsletters;
      b + |items| <= |rows| && items == rows[b..b + |items|]
  {
    var fetched := Fetch(rows, cursor, limit);
    var items := Paginate(fetched, limit).newsletters;
    b := if PageStart(rows, cursor).Some? then PageStart(rows, cursor).value else |rows|;
    assert fetched == rows[b..b + |fetched|];
    assert items == fetched[..|items|];
  }

  /** A page cut from a sorted listing is sorted and holds only listed rows. */
  lemma {:induction false} PageOfListing(rows: seq<Newsletter>, cursor: Option<string>, limit: nat)
    requires 1 <= limit
    requires SortedDesc(rows, ReceivedAt)
    ensures var p := Paginate(Fetch(rows, cursor, limit), limit);
      && SortedDesc(p.newsletters, ReceivedAt)
      && (forall n :: n in p.newsletters ==> n in rows)
  {
    var items := Paginate(Fetch(rows, cursor, limit), limit).newsletters;
    var b := PageIsSlice(rows, cursor, limit);
    SortedSlice(rows, b, b + |items|);
    SliceMembers(rows, b, b + |items|);
  }

  lemma SliceMembers(xs: seq<Newsletter>, b: nat, e: nat)
    requires b <= e <= |xs|
    ensures forall n :: n in xs[b..e] ==> n in xs
  {
    forall n | n in xs[b..e]
      ensures n in xs
    {
      var i :| 0 <= i < e - b && xs[b..e][i] == n;
      assert xs[b + i] == n;
    }
  }

  /** Without a cursor the page is the whole listing when it fits, and says
      there is more exactly when it does not. */
  lemma FirstPage(rows: seq<Newsletter>, cursor: Option<string>, limit: nat)
    requires 1 <= limit
    requires !Truthy(cursor)
    ensures var p := Paginate(Fetch(rows, cursor, limit), limit);
      && (p.hasMore <==> |rows| > limit)
      && (!p.hasMore ==> p.newsletters == rows)
  {
  }

  /** Ids a cursor can name: no two rows share one, and none is empty. */
  predicate CursorIds(rows: seq<Newsletter>) {
    && (forall i, j :: 0 <= i < j < |rows| ==> rows[i].id != rows[j].id)
    && (forall i :: 0 <= i < |rows| ==> rows[i].id != "")
  }

  lemma TwoOccurrences(xs: seq<Newsletter>, i: nat, j: nat)
    requires i < j < |xs|
    ensures xs[i] == xs[j] ==> multiset(xs)[xs[i]] >= 2
  {
    assert xs == xs[..j] + xs[j..];
    assert xs[i] == xs[..j][i] && xs[j] == xs[j..][0];
  }

  /** The listing of a store whose records sit under their own, non-empty
      ids, each listed once, has ids a cursor can name. */
  lemma ListingIds(m: map<string, Newsletter>, rows: seq<Newsletter>)
    requires forall id :: id in m ==> m[id].id == id
    requires "" !in m
    requires forall v :: v in rows ==> exists k :: k in m && m[k] == v
    requires forall v :: multiset(rows)[v] <= 1
    ensures CursorIds(rows)
  {
    forall i | 0 <= i < |rows| ensures rows[i].id != "" {
      assert rows[i] in rows;
    }
    forall i, j | 0 <= i < j < |rows| ensures rows[i].id != rows[j].id {
      assert rows[i] in rows && rows[j] in rows;
      TwoOccurrences(rows, i, j);
    }
  }

  /** With ids a cursor can name, a cursor naming a row resumes the
      listing just after it. */
  lemma CursorResumes(rows: seq<Newsletter>, i: nat, cursor: Option<string>)
    requires CursorIds(rows) && i < |rows|
    requires cursor == Some(rows[i].id)
    ensures PageStart(rows, cursor) == Some(i + 1)
  {
    assert PositionOf(rows, rows[i].id) == Some(i);
  }

  /** A page that says there is more holds the `limit` rows from where it
      starts, and its cursor is the id of the last of them. */
  lemma FullPage(rows: seq<Newsletter>, cursor: Option<string>, limit: nat) returns (b: nat)
    requires 1 <= limit
    requires Paginate(Fetch(rows, cursor, limit), limit).hasMore
    ensures PageStart(rows, cursor) == Some(b)
    ensures b + limit < |rows|
    ensures var p := Paginate(Fetch(rows, cursor, limit), limit);
      p.newsletters == rows[b..b + limit] && p.nextCursor == Some(rows[b + limit - 1].id)
  {
    var fetched := Fetch(rows, cursor, limit);
    b := PageStart(rows, cursor).value;
    assert fetched == rows[b..][..limit + 1];
    assert fetched[..limit] == rows[b..b + limit];
  }

  /** A page starting at `e` is the stretch of the listing from `e`. */
  lemma PageFrom(rows: seq<Newsletter>, cursor: Option<string>, limit: nat, e: nat)
    requires 1 <= limit
    requires PageStart(rows, cursor) == Some(e)
    ensures var q := Paginate(Fetch(rows, cursor, limit), limit).newsletters;
      e + |q| <= |rows| && q == rows[e..e + |q|]
  {
    var b := PageIsSlice(rows, cursor, limit);
  }

  lemma AdjacentSlices(xs: seq<Newsletter>, b: nat, e: nat, f: nat)
    requires b <= e <= f <= |xs|
    ensures xs[b..e] + xs[e..f] == xs[b..f]
  {
  }

  /** Following `nextCursor` resumes the listing where the page ended: a
      page that says there is more holds the `limit` rows from where it
      starts, and the next page starts just after them. */
  lemma NextPageContinues(rows: seq<Newsletter>, cursor: Option<string>, limit: nat) returns (b: nat)
    requires 1 <= limit
    requires CursorIds(rows)
    requires Paginate(Fetch(rows, cursor, limit), limit).hasMore
    ensures PageStart(rows, cursor) == Some(b) && b + limit < |rows|
    ensures Paginate(Fetch(rows, cursor, limit), limit).newsletters == rows[b..b + limit]
    ensures PageStart(rows, Paginate(Fetch(rows, cursor, limit), limit).nextCursor) == Some(b + limit)
  {
    b := FullPage(rows, cursor, limit);
    CursorResumes(rows, b + limit - 1, Paginate(Fetch(rows, cursor, limit), limit).nextCursor);
  }

  /** A page and the page its cursor leads to are one stretch of the
      listing: no row is skipped and none is repeated. */
  lemma ConsecutivePages(rows: seq<Newsletter>, cursor: Option<string>, limit: nat) returns (b: nat)
    requires 1 <= limit
    requires CursorIds(rows)
    requires Paginate(Fetch(rows, cursor, limit), limit).hasMore
    ensures PageStart(rows, cursor) == Some(b)
    ensures var p := Paginate(Fetch(rows, cursor, limit), limit);
      var q := Paginate(Fetch(rows, p.nextCursor, limit), limit);
      p.newsletters + q.newsletters == rows[b..b + limit + |q.newsletters|]
  {
    var p := Paginate(Fetch(rows, cursor, limit), limit);
    b := NextPageContinues(rows, cursor, limit);
    PagesAdjoin(rows, p.newsletters, p.nextCursor, limit, b);
  }

  /** The stretch of `limit` rows from `b`, followed by the page that starts
      right after it, is again one stretch of the listing. */
  lemma PagesAdjoin(rows: seq<Newsletter>, page: seq<Newsletter>, next: Option<string>, limit: nat, b: nat)
    requires 1 <= limit
    requires b + limit <= |rows| && page == rows[b..b + limit]
    requires PageStart(rows, next) == Some(b + limit)
    ensures var q := Paginate(Fetch(rows, next, limit), limit).newsletters;
      page + q == rows[b..b + limit + |q|]
  {
    PageFrom(rows, next, limit, b + limit);
    var q := Paginate(Fetch(rows, next, limit), limit).newsletters;
    AdjacentSlices(rows, b, b + limit, b + limit + |q|);
  }

  /** `fetchNewsletters({ userId, cursor, limit, status })`. The schema bounds
      `limit` to 1..100. `listing` is the ordered query result the page is
      cut from. */
  method FetchNewsletters(s: Store, userId: string, cursor: Option<string>, limit: nat, status: StatusFilter)
    returns (p: Page, ghost listing: seq<Newsletter>)
    requires 1 <= limit <= 100
    ensures SortedDesc(listing, ReceivedAt)
    ensures forall n :: n in listing <==> n in s.newsletters.Values && Listed(n, userId, status)
    ensures |listing| == |Selected(s.newsletters, (n: Newsletter) => Listed(n, userId, status))|
    ensures Valid(s) && "" !in s.newsletters ==> CursorIds(listing)
    // the page is the slice after the cursor's row, at most `limit` long
    ensures p == Paginate(Fetch(listing, cursor, limit), limit)
    ensures |p.newsletters| <= limit
    ensures SortedDesc(p.newsletters, ReceivedAt)
    ensures forall n :: n in p.newsletters ==> n in s.newsletters.Values && Listed(n, userId, status)
    ensures p.hasMore ==> |p.newsletters| == limit
    ensures p.hasMore ==> p.nextCursor == Some(p.newsletters[limit - 1].id)
    ensures !p.hasMore ==> p.nextCursor == None
    // without a cursor the first page holds the whole listing when it fits,
    // and says there is more exactly when it does not
    ensures !Truthy(cursor) ==>
      (p.hasMore <==> |Selected(s.newsletters, (n: Newsletter) => Listed(n, userId, status))| > limit)
    ensures !Truthy(cursor) && !p.hasMore ==>
      forall n :: n in s.newsletters.Values && Listed(n, userId, status) ==> n in p.newsletters
  {
    var rows := ListSorted(s.newsletters, (n: Newsletter) => Listed(n, userId, status), ReceivedAt);
    listing := rows;
    p := Paginate(Fetch(rows, cursor, limit), limit);
    PageOfListing(rows, cursor, limit);
    if !Truthy(cursor) {
      FirstPage(rows, cursor, limit);
    }
    if Valid(s) && "" !in s.newsletters {
      ListingIds(s.newsletters, rows);
    }
  }

  /** `getNewsletter(id, userId)`: found only among the caller's records. */
  function GetNewsletter(s: Store, id: string, userId: string): (r: Result<Newsletter>)
    ensures r.Ok? <==> id in s.newsletters && s.newsletters[id].userId == userId
    ensures r.Ok? ==> r.value == s.newsletters[id]
    ensures r.Err? ==> r.error == NotFound("Newsletter not found: " + id)
  {
    if id in s.newsletters && s.newsletters[id].userId == userId then Ok(s.newsletters[id])
    else Err(NotFound("Newsletter not found: " + id))
  }

  /** The optional body of an update; an absent field is left as it is. */
  datatype NewsletterPatch = NewsletterPatch(isRead: Option<bool>, isArchived: Option<bool>)

  /** `b` differs from `a` at most in the read and archived flags. */
  predicate SameBesidesFlags(a: Newsletter, b: Newsletter) {
    a.(isRead := b.isRead, isArchived := b.isArchived) == b
  }

  /** Everything but the newsletters is untouched, and so is every newsletter
      other than `id`. */
  predicate OnlyNewsletterChanged(s: Store, t: Store, id: string) {
    && t.users == s.users && t.subscriptions == s.subscriptions && t.queue == s.queue
    && (forall k :: k in s.newsletters && k != id ==> k in t.newsletters && t.newsletters[k] == s.newsletters[k])
    && (forall k :: k in t.newsletters && k != id ==> k in s.newsletters)
  }

  /** `updateNewsletter(id, userId, data)`: owner-checked; only the two flags
      named in the patch change, on that one record. */
  function UpdateNewsletter(s: Store, id: string, userId: string, patch: NewsletterPatch): (st: Step<Newsletter>)
    ensures st.result.Err? <==> GetNewsletter(s, id, userId).Err?
    ensures st.result.Err? ==> st.store == s && st.result.error.NotFound?
    ensures st.result.Ok? ==>
      && id in st.store.newsletters
      && st.result.value == st.store.newsletters[id]
      && SameBesidesFlags(s.newsletters[id], st.result.value)
      && st.result.value.isRead == (if patch.isRead.Some? then patch.isRead.value else s.newsletters[id].isRead)
      && st.result.value.isArchived == (if patch.isArchived.Some? then patch.isArchived.value else s.newsletters[id].isArchived)
      && OnlyNewsletterChanged(s, st.store, id)
  {
    match GetNewsletter(s, id, userId)
    case Err(e) => Step(Err(e), s)
    case Ok(existing) =>
      var updated := existing.(
        isRead := if patch.isRead.Some? then patch.isRead.value else existing.isRead,
        isArchived := if patch.isArchived.Some? then patch.isArchived.value else existing.isArchived);
      Step(Ok(updated), s.(newsletters := s.newsletters[id := updated]))
  }

  /** `deleteNewsletter(id, userId)`: owner-checked; removes that record and
      nothing else. */
  function DeleteNewsletter(s: Store, id: string, userId: string): (st: Step<bool>)
    ensures st.result.Err? <==> GetNewsletter(s, id, userId).Err?
    ensures st.result.Err? ==> st.store == s && st.result.error.NotFound?
    ensures st.result.Ok? ==>
      && st.result.value
      && st.store.newsletters.Keys == s.newsletters.Keys - {id}
      && OnlyNewsletterChanged(s, st.store, id)
  {
    match GetNewsletter(s, id, userId)
    case Err(e) => Step(Err(e), s)
    case Ok(_) => Step(Ok(true), s.(newsletters := s.newsletters - {id}))
  }

  /** Deleting keeps the store's unique constraints. */
  lemma DeletePreservesValid(s: Store, id: string, userId: string)
    requires Valid(s)
    ensures Valid(DeleteNewsletter(s, id, userId).store)
  {
  }

  /** Updating the flags keeps the store's unique constraints. */
  lemma UpdatePreservesValid(s: Store, id: string, userId: string, patch: NewsletterPatch)
    requires Valid(s)
    ensures Valid(UpdateNewsletter(s, id, userId, patch).store)
  {
  }

  /** Another user can neither read, change nor remove a record. */
  lemma ForeignRecordsUntouchable(s: Store, id: string, userId: string, patch: NewsletterPatch)
    requires id in s.newsletters && s.newsletters[id].userId != userId
    ensures GetNewsletter(s, id, userId).Err?
    ensures UpdateNewsletter(s, id, userId, patch).store == s
    ensures DeleteNewsletter(s, id, userId).store == s
  {
  }
}
