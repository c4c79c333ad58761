/** Refreshing the event feed: a cursor and a history that are only committed when every page
    of a refresh was read. */
module EventFeed {
  import opened Results
  import opened EventWindow

  datatype EventPage = EventPage(events: seq<Event>, nextCursor: int, hasMore: bool)

  const MAX_PAGES: nat := 4
  const PAGE_SIZE: nat := 200

  /** The server's answer to each cursor during one refresh; None is a failed request. Within a refresh
      the client asks for strictly growing cursors, so no cursor is asked for twice. */
  type Server = int -> Option<EventPage>

  datatype Drained = Drained(cursor: int, events: seq<Event>)

  /** What reading up to `pages` pages from `cursor` yields: None if a request fails or the server
      moves the cursor backwards. */
  function Drain(server: Server, cursor: int, last: int, pages: nat): (r: Option<Drained>)
    ensures r.Some? ==> r.value.cursor >= cursor
    decreases pages
  {
    if cursor >= last || pages == 0 then Some(Drained(cursor, []))
    else
      match server(cursor)
      case None => None
      case Some(page) =>
        if page.nextCursor < cursor then None
        else if page.nextCursor == cursor || !page.hasMore then Some(Drained(page.nextCursor, page.events))
        else
          match Drain(server, page.nextCursor, last, pages - 1)
          case None => None
          case Some(rest) => Some(Drained(rest.cursor, page.events + rest.events))
  }

  // ---------- In terms of the pages read ----------

  /** Where reading stands after some pages. */
  function CursorAfter(begin: int, pages: seq<EventPage>): int {
    if pages == [] then begin else pages[|pages| - 1].nextCursor
  }

  function EventsIn(pages: seq<EventPage>): seq<Event> {
    if pages == [] then [] else EventsIn(pages[..|pages| - 1]) + pages[|pages| - 1].events
  }

  /** `pages` are the answers to one cursor after the other, none of which moves back. Reading stops at
      `last`, after `budget` pages, or behind a page that does not advance or says that it is the last. */
  ghost predicate Reading(server: Server, begin: int, last: int, budget: nat, pages: seq<EventPage>) {
    && |pages| <= budget
    && (forall i :: 0 <= i < |pages| ==> PageRead(server, begin, last, pages, i))
    && (forall i :: 0 <= i < |pages| - 1 ==> !LastPage(begin, pages, i))
    && (CursorAfter(begin, pages) >= last || |pages| == budget || (pages != [] && LastPage(begin, pages, |pages| - 1)))
  }

  ghost predicate PageRead(server: Server, begin: int, last: int, pages: seq<EventPage>, i: nat)
    requires i < |pages|
  {
    var cursor := CursorAfter(begin, pages[..i]);
    cursor < last && server(cursor) == Some(pages[i]) && pages[i].nextCursor >= cursor
  }

  ghost predicate LastPage(begin: int, pages: seq<EventPage>, i: nat)
    requires i < |pages|
  {
    pages[i].nextCursor == CursorAfter(begin, pages[..i]) || !pages[i].hasMore
  }

  lemma {:induction false} EventsInCons(page: EventPage, pages: seq<EventPage>)
    ensures EventsIn([page] + pages) == page.events + EventsIn(pages)
  {
    if pages == [] {
      assert [page] + pages == [page] && [page][..0] == [];
      assert [] + page.events == page.events + [];
    } else {
      var n := |pages| - 1;
      EventsInCons(page, pages[..n]);
      assert ([page] + pages)[..n + 1] == [page] + pages[..n];
    }
  }

  lemma CursorCons(begin: int, page: EventPage, pages: seq<EventPage>, i: nat)
    requires i <= |pages|
    ensures CursorAfter(begin, ([page] + pages)[..i + 1]) == CursorAfter(page.nextCursor, pages[..i])
  {
    assert ([page] + pages)[..i + 1] == [page] + pages[..i];
  }

  /** A page that is not the last one, and reading on behind it. */
  lemma ReadingCons(server: Server, begin: int, last: int, budget: nat, page: EventPage, pages: seq<EventPage>)
    requires begin < last && server(begin) == Some(page) && page.nextCursor > begin && page.hasMore
    ensures Reading(server, begin, last, budget + 1, [page] + pages) <==> Reading(server, page.nextCursor, last, budget, pages)
  {
    var all := [page] + pages;
    assert all[..0] == [];
    assert PageRead(server, begin, last, all, 0) && !LastPage(begin, all, 0);
    forall i | 0 <= i < |pages|
      ensures PageRead(server, begin, last, all, i + 1) <==> PageRead(server, page.nextCursor, last, pages, i)
      ensures LastPage(begin, all, i + 1) <==> LastPage(page.nextCursor, pages, i)
    {
      CursorCons(begin, page, pages, i);
    }
    CursorCons(begin, page, pages, |pages|);
    assert all[..|pages| + 1] == all && pages[..|pages|] == pages;
    ReadingParts(server, begin, last, budget, page, pages);
  }

  lemma ReadingParts(server: Server, begin: int, last: int, budget: nat, page: EventPage, pages: seq<EventPage>)
    requires var all := [page] + pages;
      && PageRead(server, begin, last, all, 0) && !LastPage(begin, all, 0)
      && CursorAfter(begin, all) == CursorAfter(page.nextCursor, pages)
      && forall i :: 0 <= i < |pages| ==>
           && (PageRead(server, begin, last, all, i + 1) <==> PageRead(server, page.nextCursor, last, pages, i))
           && (LastPage(begin, all, i + 1) <==> LastPage(page.nextCursor, pages, i))
    ensures Reading(server, begin, last, budget + 1, [page] + pages) <==> Reading(server, page.nextCursor, last, budget, pages)
  {
    hide PageRead, LastPage, CursorAfter;
    var all := [page] + pages;
    assert (forall i :: 0 <= i < |all| ==> PageRead(server, begin, last, all, i)) <==>
           forall i :: 0 <= i < |pages| ==> PageRead(server, page.nextCursor, last, pages, i) by {
      forall i | 0 < i < |all| && PageRead(server, page.nextCursor, last, pages, i - 1)
        ensures PageRead(server, begin, last, all, i)
      {
      }
    }
    assert (forall i :: 0 <= i < |all| - 1 ==> !LastPage(begin, all, i)) <==>
           forall i :: 0 <= i < |pages| - 1 ==> !LastPage(page.nextCursor, pages, i) by {
      forall i | 0 < i < |all| - 1 && !LastPage(page.nextCursor, pages, i - 1)
        ensures !LastPage(begin, all, i)
      {
      }
    }
  }

  /** Draining is reading pages: what it yields is what some reading yields, and no reading yields
      anything else. */
  lemma {:induction false} DrainIsReading(server: Server, begin: int, last: int, budget: nat) returns (pages: seq<EventPage>)
    ensures var drained := Drain(server, begin, last, budget);
      drained.Some? ==>
        && Reading(server, begin, last, budget, pages)
        && drained.value == Drained(CursorAfter(begin, pages), EventsIn(pages))
    decreases budget
  {
    hide Reading;
    pages := [];
    if begin >= last || budget == 0 {
      NoPages(server, begin, last, budget);
    } else if server(begin).Some? && server(begin).value.nextCursor >= begin {
      var page := server(begin).value;
      if page.nextCursor == begin || !page.hasMore {
        pages := [page];
        OnePage(server, begin, last, budget, page);
      } else {
        var more := DrainIsReading(server, page.nextCursor, last, budget - 1);
        pages := [page] + more;
        ReadingCons(server, begin, last, budget - 1, page, more);
        EventsInCons(page, more);
        CursorCons(begin, page, more, |more|);
        assert pages[..|more| + 1] == pages && more[..|more|] == more;
      }
    }
  }

  lemma NoPages(server: Server, begin: int, last: int, budget: nat)
    requires begin >= last || budget == 0
    ensures Reading(server, begin, last, budget, []) && CursorAfter(begin, []) == begin && EventsIn([]) == []
  {
  }

  lemma OnePage(server: Server, begin: int, last: int, budget: nat, page: EventPage)
    requires begin < last && budget > 0 && server(begin) == Some(page)
    requires page.nextCursor == begin || (page.nextCursor > begin && !page.hasMore)
    ensures Reading(server, begin, last, budget, [page])
    ensures CursorAfter(begin, [page]) == page.nextCursor && EventsIn([page]) == page.events
  {
    assert [page][..0] == [];
  }

  lemma {:induction false} ReadingIsDrain(server: Server, begin: int, last: int, budget: nat, pages: seq<EventPage>)
    requires Reading(server, begin, last, budget, pages)
    ensures Drain(server, begin, last, budget) == Some(Drained(CursorAfter(begin, pages), EventsIn(pages)))
    decreases |pages|
  {
    if pages == [] {
    } else {
      var page, more := pages[0], pages[1..];
      assert pages == [page] + more && pages[..0] == [];
      assert PageRead(server, begin, last, pages, 0);
      hide Reading;
      FirstOfMany(server, begin, last, budget, pages);
      if more == [] {
        OnlyPage(begin, page);
        if page.nextCursor > begin && page.hasMore {
          ReadingCons(server, begin, last, budget - 1, page, more);
          ReadingIsDrain(server, page.nextCursor, last, budget - 1, more);
          assert page.events + [] == page.events;
        }
      } else {
        ReadingCons(server, begin, last, budget - 1, page, more);
        ReadingIsDrain(server, page.nextCursor, last, budget - 1, more);
        EventsInCons(page, more);
      }
    }
  }

  /** The pages of a refresh, four at most, can be read. */
  ghost predicate CanRead(server: Server, begin: int, last: int) {
    exists pages :: Reading(server, begin, last, 4, pages)
  }

  /** Reading them ends at the cursor and yields the events. */
  ghost predicate ReadsTo(server: Server, begin: int, last: int, cursor: int, events: seq<Event>) {
    exists pages :: Reading(server, begin, last, 4, pages) && cursor == CursorAfter(begin, pages) && events == EventsIn(pages)
  }

  lemma ReadingIff(server: Server, begin: int, last: int)
    ensures var drained := Drain(server, begin, last, 4);
      && (drained.Some? <==> CanRead(server, begin, last))
      && (drained.Some? ==> ReadsTo(server, begin, last, drained.value.cursor, drained.value.events))
  {
    hide Drain, Reading;
    var pages := DrainIsReading(server, begin, last, 4);
    forall other | Reading(server, begin, last, 4, other)
      ensures Drain(server, begin, last, 4).Some?
    {
      ReadingIsDrain(server, begin, last, 4, other);
    }
  }

  /** What a feed shows: the last version of everything fetched, oldest id first, without the oldest beyond
      the 500 newest. */
  lemma HistoryIsNewest(feed: Feed) returns (all: seq<Event>)
    requires feed.Valid()
    ensures AllVersions(feed.fetched, all)
    ensures feed.shown == feed.history == if |all| <= 500 then all else all[|all| - 500..]
  {
    hide Window;
    all := WindowContents(feed.fetched);
  }

  lemma OnlyPage(begin: int, page: EventPage)
    ensures CursorAfter(begin, [page]) == page.nextCursor && EventsIn([page]) == page.events && EventsIn([]) == []
  {
    assert [page][..0] == [];
  }

  lemma FirstOfMany(server: Server, begin: int, last: int, budget: nat, pages: seq<EventPage>)
    requires Reading(server, begin, last, budget, pages) && pages != []
    ensures budget > 0
    ensures |pages| > 1 ==> pages[0].nextCursor > begin && pages[0].hasMore
  {
    assert pages[..0] == [];
    assert PageRead(server, begin, last, pages, 0);
    assert |pages| > 1 ==> !LastPage(begin, pages, 0);
  }

  function Max(a: int, b: int): int {
    if a < b then b else a
  }

  class Feed {
    var cursor: int
    var history: seq<Event>
    var shown: seq<Event>
    /** Everything fetched since the history was last emptied. */
    ghost var fetched: seq<Event>

    ghost predicate Valid()
      reads this
    {
      history == Window(fetched) && shown == history
    }

    constructor ()
      ensures Valid() && cursor == 0 && history == [] && fetched == []
    {
      cursor, history, shown, fetched := 0, [], [], [];
    }

    method Reset()
      modifies this
      ensures Valid() && cursor == 0 && history == [] && fetched == []
    {
      cursor, history, shown, fetched := 0, [], [], [];
    }

    /** Reads new events; `ok` is false when a request fails or the server moves the cursor back. */
    method Refresh(last: int, server: Server) returns (ok: bool)
      requires Valid()
      modifies this
      ensures Valid()
      ensures !ok ==> cursor == old(cursor) && history == old(history) && fetched == old(fetched) && shown == old(shown)
      ensures last == 0 ==> ok && cursor == 0 && history == [] && fetched == []
      ensures last != 0 ==>
        var over := old(history == [] || cursor > last);
        var begin := if !over then old(cursor) else if last < 500 then 0 else last - 500;
        var drained := Drain(server, begin, last, 4);
        && (ok <==> drained.Some?)
        && (ok ==> cursor == drained.value.cursor && fetched == (if over then [] else old(fetched)) + drained.value.events)
      ensures cursor < old(cursor) ==> last == 0 || old(history == [] || cursor > last)
    {
      if last == 0 {
        Reset();
        return true;
      }
      hide Drain, Window, Merge, Prefixed;
      var position, recent := cursor, history;
      ghost var read := fetched;
      if position > last {
        position, recent, read := 0, [], [];
        WindowOfNothing();
      }
      if recent == [] {
        position := Max(0, last - MAX_HISTORY);
        EmptyWindow(read);
      }
      ghost var base, whole := read, Drain(server, position, last, MAX_PAGES);
      ghost var events: seq<Event> := [];
      var pages := 0;
      var more := true;
      PrefixedNothing(whole);
      while more && position < last && pages < MAX_PAGES
        invariant unchanged(this)
        invariant pages <= MAX_PAGES
        invariant recent == Window(read) && read == base + events
        invariant more ==> whole == Prefixed(events, Drain(server, position, last, MAX_PAGES - pages))
        invariant !more ==> whole == Some(Drained(position, events))
        decreases more, MAX_PAGES - pages
      {
        var answer := server(position);
        RoundOutcome(server, position, last, MAX_PAGES - pages, events);
        assert answer.None? || answer.value.nextCursor < position ==> whole == None;
        if answer.None? {
          return false;
        }
        var page := answer.value;
        if page.nextCursor < position {
          return false;
        }
        WindowAfterPage(base, events, page.events);
        if page.events != [] {
          recent := Merge(recent, page.events);
        }
        events := events + page.events;
        read := base + events;
        if page.nextCursor == position || !page.hasMore {
          more := false;
        } else {
          pages := pages + 1;
        }
        position := page.nextCursor;
      }
      if more {
        DrainDone(server, position, last, MAX_PAGES - pages);
      }
      assert whole == Some(Drained(position, events));
      cursor, history, shown, fetched := position, recent, recent, read;
      ok := true;
    }
  }

  function Prefixed(events: seq<Event>, rest: Option<Drained>): Option<Drained> {
    match rest
    case None => None
    case Some(d) => Some(Drained(d.cursor, events + d.events))
  }

  lemma PrefixedNothing(rest: Option<Drained>)
    ensures Prefixed([], rest) == rest
  {
    if rest.Some? {
      assert [] + rest.value.events == rest.value.events;
    }
  }

  lemma PrefixedTwice(a: seq<Event>, b: seq<Event>, rest: Option<Drained>)
    ensures Prefixed(a, Prefixed(b, rest)) == Prefixed(a + b, rest)
  {
    if rest.Some? {
      assert a + b + rest.value.events == a + (b + rest.value.events);
    }
  }

  /** One round of the loop. */
  lemma DrainStep(server: Server, cursor: int, last: int, pages: nat)
    requires cursor < last && pages > 0
    ensures Drain(server, cursor, last, pages) ==
      match server(cursor)
      case None => None
      case Some(page) =>
        if page.nextCursor < cursor then None
        else if page.nextCursor == cursor || !page.hasMore then Some(Drained(page.nextCursor, page.events))
        else Prefixed(page.events, Drain(server, page.nextCursor, last, pages - 1))
  {
  }

  /** What one round means for the whole refresh, `events` having been read before it. */
  lemma RoundOutcome(server: Server, cursor: int, last: int, pages: nat, events: seq<Event>)
    requires cursor < last && pages > 0
    ensures var whole, answer := Prefixed(events, Drain(server, cursor, last, pages)), server(cursor);
      && (answer.None? || answer.value.nextCursor < cursor ==> whole == None)
      && (answer.Some? && answer.value.nextCursor >= cursor ==>
            var page := answer.value;
            whole == if page.nextCursor == cursor || !page.hasMore then Some(Drained(page.nextCursor, events + page.events))
                     else Prefixed(events + page.events, Drain(server, page.nextCursor, last, pages - 1)))
  {
    hide Drain;
    DrainStep(server, cursor, last, pages);
    if server(cursor).Some? {
      PrefixedTwice(events, server(cursor).value.events, Drain(server, server(cursor).value.nextCursor, last, pages - 1));
    }
  }

  lemma WindowAfterPage(base: seq<Event>, events: seq<Event>, page: seq<Event>)
    ensures Merge(Window(base + events), page) == Window(base + (events + page))
    ensures page == [] ==> Window(base + (events + page)) == Window(base + events)
  {
    hide Window, Merge;
    MergeRefinesWindow(base + events, page);
    assert base + events + page == base + (events + page);
    assert page == [] ==> events + page == events;
  }

  lemma DrainDone(server: Server, cursor: int, last: int, pages: nat)
    requires cursor >= last || pages == 0
    ensures Drain(server, cursor, last, pages) == Some(Drained(cursor, []))
    ensures forall events :: Prefixed(events, Drain(server, cursor, last, pages)) == Some(Drained(cursor, events))
  {
    assert forall events: seq<Event> :: events + [] == events;
  }

  lemma WindowOfNothing()
    ensures Window([]) == []
  {
  }

  lemma EmptyWindow(fetched: seq<Event>)
    requires Window(fetched) == []
    ensures fetched == []
  {
    if fetched != [] {
      var n := |fetched| - 1;
      UpsertGrows(Latest([], fetched[..n]), fetched[n]);
      UpsertNonEmpty(Latest([], fetched[..n]), fetched[n]);
    }
  }

  lemma UpsertNonEmpty(events: seq<Event>, e: Event)
    ensures Upsert(events, e) != []
  {
  }

  // ---------- With a coordinator that pages through its ledger ----------

  ghost predicate Ledger(ledger: seq<Event>) {
    Increasing(ledger) && forall i :: 0 <= i < |ledger| ==> ledger[i].id > 0
  }

  /** The ledger's events after `cursor`, oldest first. */
  function After(ledger: seq<Event>, cursor: int): seq<Event> {
    if ledger == [] || ledger[0].id > cursor then ledger else After(ledger[1..], cursor)
  }

  /** The page the coordinator serves: at most PAGE_SIZE events after the cursor. */
  function PageOf(ledger: seq<Event>, cursor: int): EventPage {
    var rows := After(ledger, cursor);
    var hasMore := |rows| > PAGE_SIZE;
    var selected := if hasMore then rows[..PAGE_SIZE] else rows;
    EventPage(selected, if selected != [] then selected[|selected| - 1].id else cursor, hasMore)
  }

  /** A page in terms of the ledger's rows: the oldest 200 behind the cursor, or all if there are no more;
      it says whether there are more, and which id comes next. */
  lemma PageIs(ledger: seq<Event>, cursor: int) returns (beyond: seq<Event>)
    requires Increasing(ledger)
    ensures var page := PageOf(ledger, cursor);
      && (forall x :: x in page.events + beyond <==> x in ledger && x.id > cursor) && Increasing(page.events + beyond)
      && |page.events| <= 200 && (beyond != [] ==> |page.events| == 200) && (page.hasMore <==> beyond != [])
      && page.nextCursor == if page.events == [] then cursor else page.events[|page.events| - 1].id
  {
    hide After;
    var rows := After(ledger, cursor);
    AfterMembers(ledger, cursor);
    beyond := if |rows| > 200 then rows[200..] else [];
    assert PageOf(ledger, cursor).events + beyond == rows;
  }

  /** What had been appended of `ledger` when the page behind `cursor` was served. */
  function Appended(ledger: seq<Event>, known: int -> nat, cursor: int): seq<Event> {
    if known(cursor) <= |ledger| then ledger[..known(cursor)] else ledger
  }

  /** A coordinator that goes on appending: each page is cut from what had been appended when it
      was served. `ledger` is everything that is ever appended. */
  function Coordinator(ledger: seq<Event>, known: int -> nat): Server {
    (cursor: int) => Some(PageOf(Appended(ledger, known, cursor), cursor))
  }

  /** Every page is served after the snapshot whose last event id is `last`. */
  ghost predicate Since(ledger: seq<Event>, known: int -> nat, last: int) {
    forall cursor :: Reaches(Appended(ledger, known, cursor), last)
  }

  ghost predicate Reaches(ledger: seq<Event>, last: int) {
    ledger != [] && ledger[|ledger| - 1].id >= last
  }

  lemma {:induction false} AfterMembers(ledger: seq<Event>, cursor: int)
    requires Increasing(ledger)
    ensures Increasing(After(ledger, cursor))
    ensures forall x :: x in After(ledger, cursor) <==> x in ledger && x.id > cursor
  {
    if ledger == [] {
    } else if ledger[0].id > cursor {
      assert forall x :: x in ledger ==> x.id > cursor;
    } else {
      AfterMembers(ledger[1..], cursor);
      assert ledger == [ledger[0]] + ledger[1..];
    }
  }

  /** Asking again from the last id of a stretch continues right behind it. */
  lemma {:induction false} AfterSkips(ledger: seq<Event>, cursor: int, n: nat)
    requires Increasing(ledger) && 0 < n <= |After(ledger, cursor)|
    ensures After(ledger, After(ledger, cursor)[n - 1].id) == After(ledger, cursor)[n..]
  {
    if ledger[0].id > cursor {
      SkipPrefix(ledger, n);
    } else {
      AfterMembers(ledger[1..], cursor);
      AfterSkips(ledger[1..], cursor, n);
      assert After(ledger, cursor)[n - 1] in After(ledger[1..], cursor);
    }
  }

  lemma {:induction false} SkipPrefix(ledger: seq<Event>, n: nat)
    requires Increasing(ledger) && 0 < n <= |ledger|
    ensures After(ledger, ledger[n - 1].id) == ledger[n..]
  {
    if n > 1 {
      SkipPrefix(ledger[1..], n - 1);
      assert ledger[1..][n - 1..] == ledger[n..];
    } else if |ledger| > 1 {
      assert ledger[1..][0].id > ledger[0].id;
    }
  }

  /** The pending events of an earlier ledger are the first of the pending events. */
  lemma {:induction false} AfterOfPrefix(ledger: seq<Event>, n: nat, cursor: int)
    requires n <= |ledger|
    ensures var early, pending := After(ledger[..n], cursor), After(ledger, cursor);
      |early| <= |pending| && early == pending[..|early|]
  {
    if n > 0 && ledger[0].id <= cursor {
      AfterOfPrefix(ledger[1..], n - 1, cursor);
      assert ledger[..n][1..] == ledger[1..][..n - 1];
    }
  }

  lemma EndsWithLast(ledger: seq<Event>, cursor: int, last: int)
    requires Increasing(ledger) && Reaches(ledger, last) && cursor < last
    ensures var pending := After(ledger, cursor); pending != [] && pending[|pending| - 1] == ledger[|ledger| - 1]
  {
    hide After;
    var pending, end := After(ledger, cursor), ledger[|ledger| - 1];
    AfterMembers(ledger, cursor);
    assert end in pending;
    var k :| 0 <= k < |pending| && pending[k] == end;
    assert pending[|pending| - 1] in pending;
    UpToLast(ledger, pending[|pending| - 1]);
    NewestIsLast(pending, k);
  }

  lemma NewestIsLast(events: seq<Event>, k: nat)
    requires Increasing(events) && k < |events| && events[k].id >= events[|events| - 1].id
    ensures k == |events| - 1
  {
  }

  lemma UpToLast(ledger: seq<Event>, x: Event)
    requires Increasing(ledger) && x in ledger
    ensures x.id <= ledger[|ledger| - 1].id
  {
    var m :| 0 <= m < |ledger| && ledger[m] == x;
    assert m < |ledger| - 1 ==> ledger[m].id < ledger[|ledger| - 1].id;
  }

  /** One page: the next pending events, as many as a page holds or as had been appended. */
  ghost predicate NextStretch(ledger: seq<Event>, cursor: int, last: int, page: EventPage) {
    var pending, n := After(ledger, cursor), |page.events|;
    && 0 < n <= |pending| && n <= PAGE_SIZE && page.events == pending[..n]
    && page.nextCursor == pending[n - 1].id > cursor && After(ledger, page.nextCursor) == pending[n..]
    && (page.hasMore ==> n == PAGE_SIZE) && (!page.hasMore ==> page.nextCursor >= last)
  }

  /** A page of the coordinator continues right behind the cursor, however the ledger has grown. */
  lemma FaithfulStep(ledger: seq<Event>, known: int -> nat, cursor: int, last: int)
    requires Ledger(ledger) && Since(ledger, known, last) && cursor < last
    ensures Coordinator(ledger, known)(cursor).Some?
    ensures NextStretch(ledger, cursor, last, Coordinator(ledger, known)(cursor).value)
  {
    hide After;
    var served := Appended(ledger, known, cursor);
    assert Reaches(served, last);
    assert Increasing(served) && served == ledger[..|served|];
    var pending, early := After(ledger, cursor), After(served, cursor);
    AfterOfPrefix(ledger, |served|, cursor);
    EndsWithLast(served, cursor, last);
    AfterMembers(ledger, cursor);
    var n := if |early| > PAGE_SIZE then PAGE_SIZE else |early|;
    AfterSkips(ledger, cursor, n);
    assert pending[n - 1] in pending;
    assert early[..n] == pending[..n];
    assert |early| <= PAGE_SIZE ==> early == early[..n];
  }

  /** What a refresh reads of the pending events: a prefix, and the cursor is right behind it. Unless
      the refresh has read all the pages that it may, it has reached `last`; and it reads no page more
      than that takes. */
  ghost predicate ReadsOn(ledger: seq<Event>, cursor: int, last: int, pages: nat, drained: Drained) {
    var pending, n := After(ledger, cursor), |drained.events|;
    && n <= |pending| && n <= pages * PAGE_SIZE && drained.events == pending[..n]
    && After(ledger, drained.cursor) == pending[n..]
    && drained.cursor == (if n == 0 then cursor else pending[n - 1].id)
    && (drained.cursor >= last || n == pages * PAGE_SIZE)
    && forall j: nat {:trigger pending[j]} :: j + 1 < n && (j + 1) % PAGE_SIZE == 0 ==> pending[j].id < last
  }

  lemma ReadsNothing(ledger: seq<Event>, cursor: int, last: int, pages: nat)
    requires cursor >= last || pages == 0
    ensures ReadsOn(ledger, cursor, last, pages, Drained(cursor, []))
  {
  }

  lemma ReadsOnePage(ledger: seq<Event>, cursor: int, last: int, pages: nat, page: EventPage)
    requires NextStretch(ledger, cursor, last, page) && !page.hasMore && pages > 0
    ensures ReadsOn(ledger, cursor, last, pages, Drained(page.nextCursor, page.events))
  {
  }

  lemma ReadsFurther(ledger: seq<Event>, cursor: int, last: int, pages: nat, page: EventPage, rest: Drained)
    requires NextStretch(ledger, cursor, last, page) && page.hasMore && pages > 0 && cursor < last
    requires ReadsOn(ledger, page.nextCursor, last, pages - 1, rest) && (rest.events != [] ==> page.nextCursor < last)
    ensures ReadsOn(ledger, cursor, last, pages, Drained(rest.cursor, page.events + rest.events))
  {
    hide After;
    var pending, m, n := After(ledger, cursor), |page.events|, |rest.events|;
    var behind := After(ledger, page.nextCursor);
    assert pending[..m] + pending[m..][..n] == pending[..m + n];
    assert pending[m..][n..] == pending[m + n..];
    assert n > 0 ==> behind[n - 1] == pending[m + n - 1];
    forall j: nat | j + 1 < m + n && (j + 1) % PAGE_SIZE == 0 ensures pending[j].id < last {
      if j + 1 > m {
        assert behind[j - m] == pending[j] && (j - m + 1) % PAGE_SIZE == 0;
      }
    }
  }

  lemma DrainNothing(server: Server, cursor: int, last: int, pages: nat)
    ensures cursor >= last ==> Drain(server, cursor, last, pages) == Some(Drained(cursor, []))
  {
  }

  /** Against the coordinator's pages, whatever is appended meanwhile, a refresh succeeds and reads on. */
  lemma {:induction false} DrainReadsOn(ledger: seq<Event>, known: int -> nat, cursor: int, last: int, pages: nat)
    requires Ledger(ledger) && Since(ledger, known, last)
    ensures Drain(Coordinator(ledger, known), cursor, last, pages).Some?
    ensures ReadsOn(ledger, cursor, last, pages, Drain(Coordinator(ledger, known), cursor, last, pages).value)
    decreases pages
  {
    hide After, Drain, PageOf, ReadsOn, Since;
    var server := Coordinator(ledger, known);
    if cursor >= last || pages == 0 {
      DrainDone(server, cursor, last, pages);
      ReadsNothing(ledger, cursor, last, pages);
    } else {
      FaithfulStep(ledger, known, cursor, last);
      DrainStep(server, cursor, last, pages);
      var page := server(cursor).value;
      if page.hasMore {
        DrainReadsOn(ledger, known, page.nextCursor, last, pages - 1);
        DrainNothing(server, page.nextCursor, last, pages - 1);
        ReadsFurther(ledger, cursor, last, pages, page, Drain(server, page.nextCursor, last, pages - 1).value);
      } else {
        ReadsOnePage(ledger, cursor, last, pages, page);
      }
    }
  }

  /** A refresh reads every pending event up to `last` exactly when the first one beyond its page
      budget, if there is one, is newer than `last`. */
  lemma DrainCatchesUpIff(ledger: seq<Event>, known: int -> nat, cursor: int, last: int, pages: nat)
    requires Ledger(ledger) && Since(ledger, known, last)
    ensures var pending := After(ledger, cursor);
      && Drain(Coordinator(ledger, known), cursor, last, pages).Some?
      && ((forall x :: x in pending && x.id <= last ==> x in Drain(Coordinator(ledger, known), cursor, last, pages).value.events) <==>
            |pending| <= pages * PAGE_SIZE || pending[pages * PAGE_SIZE].id > last)
  {
    hide After, Drain, Coordinator, Since, ReadsOn, Ledger;
    DrainReadsOn(ledger, known, cursor, last, pages);
    var pending, budget := After(ledger, cursor), pages * PAGE_SIZE;
    var drained := Drain(Coordinator(ledger, known), cursor, last, pages).value;
    if |pending| <= budget || pending[budget].id > last {
      forall x | x in pending && x.id <= last ensures x in drained.events {
        ReadIfOld(ledger, cursor, last, pages, drained, x);
      }
    } else {
      NotRead(ledger, cursor, last, pages, drained);
    }
  }

  lemma ReadIfOld(ledger: seq<Event>, cursor: int, last: int, pages: nat, drained: Drained, x: Event)
    requires Ledger(ledger) && ReadsOn(ledger, cursor, last, pages, drained)
    requires var pending, budget := After(ledger, cursor), pages * PAGE_SIZE; |pending| <= budget || pending[budget].id > last
    requires x in After(ledger, cursor) && x.id <= last
    ensures x in drained.events
  {
    hide After;
    var pending, n := After(ledger, cursor), |drained.events|;
    forall k | n <= k < |pending|
      ensures pending[k].id > last
    {
      UnreadIsNewer(ledger, cursor, last, pages, drained, k);
    }
    var k :| 0 <= k < |pending| && pending[k] == x;
    assert drained.events[k] == x;
  }

  lemma UnreadIsNewer(ledger: seq<Event>, cursor: int, last: int, pages: nat, drained: Drained, k: nat)
    requires Ledger(ledger) && ReadsOn(ledger, cursor, last, pages, drained)
    requires var pending, budget := After(ledger, cursor), pages * PAGE_SIZE; |pending| <= budget || pending[budget].id > last
    requires |drained.events| <= k < |After(ledger, cursor)|
    ensures After(ledger, cursor)[k].id > last
  {
    hide After;
    var pending, n := After(ledger, cursor), |drained.events|;
    AfterMembers(ledger, cursor);
    AfterMembers(ledger, drained.cursor);
    if drained.cursor >= last {
      assert pending[k] == pending[n..][k - n] && pending[k] in pending[n..];
    } else {
      assert n < k ==> pending[n].id < pending[k].id;
    }
  }

  lemma NotRead(ledger: seq<Event>, cursor: int, last: int, pages: nat, drained: Drained)
    requires Ledger(ledger) && ReadsOn(ledger, cursor, last, pages, drained) && pages * PAGE_SIZE < |After(ledger, cursor)|
    ensures After(ledger, cursor)[pages * PAGE_SIZE] in After(ledger, cursor)
    ensures After(ledger, cursor)[pages * PAGE_SIZE] !in drained.events
  {
    hide After;
    AfterMembers(ledger, cursor);
    var pending, budget := After(ledger, cursor), pages * PAGE_SIZE;
    forall k | 0 <= k < |drained.events| ensures drained.events[k] != pending[budget] {
      assert pending[k].id < pending[budget].id;
    }
  }

  /** At most as many events as ids fit between two cursors. */
  lemma {:induction false} FewIds(events: seq<Event>, low: int, high: int)
    requires Increasing(events) && low <= high
    requires forall k :: 0 <= k < |events| ==> low < events[k].id <= high
    ensures |events| <= high - low
  {
    if events != [] {
      var n := |events| - 1;
      FewIds(events[..n], low, events[n].id - 1);
    }
  }

  /** Not more pending events than ids. */
  lemma PendingIds(ledger: seq<Event>, cursor: int, last: int, n: nat)
    requires Ledger(ledger) && n < |After(ledger, cursor)| && After(ledger, cursor)[n].id <= last
    ensures n + 1 <= last - cursor
  {
    hide After;
    var pending := After(ledger, cursor);
    AfterMembers(ledger, cursor);
    var part := pending[..n + 1];
    forall k | 0 <= k < |part| ensures cursor < part[k].id <= last {
      assert pending[k] in pending;
      assert k < n ==> pending[k].id < pending[n].id;
    }
    assert part[n].id <= last;
    FewIds(part, cursor, last);
  }

  lemma UpsertIntoNothing(e: Event)
    ensures Upsert([], e) == [e]
  {
  }

  lemma {:induction false} LatestOfIncreasing(events: seq<Event>)
    requires Increasing(events)
    ensures Latest([], events) == events
  {
    hide Upsert;
    if events != [] {
      var n := |events| - 1;
      LatestOfIncreasing(events[..n]);
      UpsertAfter(events[..n], [], events[n]);
      UpsertIntoNothing(events[n]);
      assert events[..n] + [] == events[..n] && events == events[..n] + [events[n]];
    }
  }

  /** Starting over catches up in one refresh: the cursor reaches `last`, and what is read is a stretch
      of the ledger that holds every event among the MAX_HISTORY ids up to `last`. The history is
      the newest part of that stretch. */
  lemma StartingOverCatchesUp(ledger: seq<Event>, known: int -> nat, last: int)
    requires Ledger(ledger) && Since(ledger, known, last) && last > 0
    ensures var begin := Max(0, last - MAX_HISTORY);
      var drained := Drain(Coordinator(ledger, known), begin, last, MAX_PAGES);
      && drained.Some? && drained.value.cursor >= last
      && ReadsOn(ledger, begin, last, 3, drained.value)
      && (forall x :: x in ledger && begin < x.id <= last ==> x in drained.value.events)
      && Window(drained.value.events) == Newest(MAX_HISTORY, drained.value.events)
  {
    hide After, Drain, Coordinator, Since, ReadsOn, Window, Newest, Increasing;
    var begin := Max(0, last - MAX_HISTORY);
    DrainReadsOn(ledger, known, begin, last, MAX_PAGES);
    DrainCatchesUpIff(ledger, known, begin, last, MAX_PAGES);
    var drained := Drain(Coordinator(ledger, known), begin, last, MAX_PAGES).value;
    ThreePagesDo(ledger, begin, last, drained);
    AfterMembers(ledger, begin);
    DrainedWindow(ledger, begin, last, drained);
  }

  /** As many ids as a history holds fit into three pages. */
  lemma ThreePagesDo(ledger: seq<Event>, begin: int, last: int, drained: Drained)
    requires Ledger(ledger) && begin == Max(0, last - MAX_HISTORY) && last > 0
    requires ReadsOn(ledger, begin, last, MAX_PAGES, drained)
    ensures ReadsOn(ledger, begin, last, 3, drained) && drained.cursor >= last
    ensures var pending := After(ledger, begin);
      |pending| <= MAX_PAGES * PAGE_SIZE || pending[MAX_PAGES * PAGE_SIZE].id > last
  {
    hide After;
    var pending := After(ledger, begin);
    if |drained.events| > 3 * PAGE_SIZE {
      assert pending[599].id < last;
      PendingIds(ledger, begin, last, 599);
    }
    if |pending| > MAX_PAGES * PAGE_SIZE && pending[MAX_PAGES * PAGE_SIZE].id <= last {
      PendingIds(ledger, begin, last, MAX_PAGES * PAGE_SIZE);
    }
  }

  lemma DrainedWindow(ledger: seq<Event>, begin: int, last: int, drained: Drained)
    requires Ledger(ledger) && ReadsOn(ledger, begin, last, MAX_PAGES, drained)
    ensures Window(drained.events) == Newest(MAX_HISTORY, drained.events)
  {
    hide After, Newest, Latest;
    AfterMembers(ledger, begin);
    PrefixIncreasing(After(ledger, begin), |drained.events|);
    LatestOfIncreasing(drained.events);
  }

  lemma PrefixIncreasing(events: seq<Event>, n: nat)
    requires Increasing(events) && n <= |events|
    ensures Increasing(events[..n])
  {
  }

  // ---------- Over any number of refreshes ----------

  /** What was fetched is a stretch of the ledger, and the cursor stands right behind it. */
  ghost predicate InStep(ledger: seq<Event>, base: int, fetched: seq<Event>, cursor: int) {
    var pending, n := After(ledger, base), |fetched|;
    n <= |pending| && fetched == pending[..n] && After(ledger, cursor) == pending[n..]
  }

  lemma NothingInStep(ledger: seq<Event>, begin: int)
    ensures InStep(ledger, begin, [], begin)
  {
    hide After;
    assert After(ledger, begin)[0..] == After(ledger, begin);
  }

  /** Reading on from right behind a stretch extends the stretch. */
  lemma StretchExtends(ledger: seq<Event>, base: int, fetched: seq<Event>, cursor: int, last: int, pages: nat, drained: Drained)
    requires InStep(ledger, base, fetched, cursor) && ReadsOn(ledger, cursor, last, pages, drained)
    ensures InStep(ledger, base, fetched + drained.events, drained.cursor)
  {
    hide After;
    var pending, m, n := After(ledger, base), |fetched|, |drained.events|;
    assert pending[m..][..n] == pending[m..m + n] && pending[..m] + pending[m..m + n] == pending[..m + n];
    assert pending[m..][n..] == pending[m + n..];
  }

  lemma StretchIsWindow(ledger: seq<Event>, base: int, fetched: seq<Event>, cursor: int)
    requires Increasing(ledger) && InStep(ledger, base, fetched, cursor)
    ensures Window(fetched) == Newest(MAX_HISTORY, fetched)
  {
    hide After, Latest, Newest;
    AfterMembers(ledger, base);
    PrefixIncreasing(After(ledger, base), |fetched|);
    LatestOfIncreasing(fetched);
  }

  /** The ledger's events up to `cursor`. */
  function UpTo(ledger: seq<Event>, cursor: int): (r: seq<Event>)
    ensures r + After(ledger, cursor) == ledger
  {
    if ledger == [] || ledger[0].id > cursor then [] else [ledger[0]] + UpTo(ledger[1..], cursor)
  }

  lemma {:induction false} UpToMembers(ledger: seq<Event>, cursor: int)
    requires Increasing(ledger)
    ensures forall x :: x in UpTo(ledger, cursor) <==> x in ledger && x.id <= cursor
  {
    if ledger != [] && ledger[0].id <= cursor {
      UpToMembers(ledger[1..], cursor);
    }
  }

  /** What was fetched lies right behind what the ledger holds up to where fetching began. */
  lemma UpToStretch(ledger: seq<Event>, base: int, fetched: seq<Event>, cursor: int)
    requires InStep(ledger, base, fetched, cursor)
    ensures UpTo(ledger, cursor) == UpTo(ledger, base) + fetched
  {
    hide After, UpTo;
    var before, pending, n := UpTo(ledger, base), After(ledger, base), |fetched|;
    assert before + pending == (before + pending[..n]) + pending[n..];
    assert |UpTo(ledger, cursor)| == |before + fetched|;
    assert UpTo(ledger, cursor) == ledger[..|before + fetched|];
    assert before + fetched == ledger[..|before + fetched|];
  }

  /** Exactly when the history is the newest part of the whole ledger up to the cursor: what was fetched
      fills it, or nothing in the ledger lies at or before the point where fetching began. */
  lemma HistoryIsNewestIff(ledger: seq<Event>, base: int, fetched: seq<Event>, cursor: int)
    requires Increasing(ledger) && InStep(ledger, base, fetched, cursor)
    ensures Window(fetched) == Newest(MAX_HISTORY, UpTo(ledger, cursor)) <==>
      |fetched| >= MAX_HISTORY || forall x :: x in ledger ==> x.id > base
  {
    hide After, UpTo, Window, InStep;
    StretchIsWindow(ledger, base, fetched, cursor);
    UpToStretch(ledger, base, fetched, cursor);
    UpToMembers(ledger, base);
    var before := UpTo(ledger, base);
    NewestOfStretch(before, fetched);
    if before == [] {
      assert forall x :: x in ledger && x.id <= base ==> x in before;
    } else {
      assert before[0] in before;
    }
  }

  lemma NewestOfStretch(before: seq<Event>, fetched: seq<Event>)
    ensures Newest(MAX_HISTORY, fetched) == Newest(MAX_HISTORY, before + fetched) <==> |fetched| >= MAX_HISTORY || before == []
  {
    var all := before + fetched;
    if |fetched| >= MAX_HISTORY {
      assert all[|all| - MAX_HISTORY..] == fetched[|fetched| - MAX_HISTORY..];
    } else if before == [] {
      assert all == fetched;
    } else {
      assert |Newest(MAX_HISTORY, all)| > |fetched|;
    }
  }

  /** Starting over leaves the newest events of the whole ledger up to the cursor exactly when it reads
      as many as a history holds, or when nothing in the ledger is as old as where it starts. */
  lemma StartingOverIsCompleteIff(ledger: seq<Event>, known: int -> nat, last: int)
    requires Ledger(ledger) && Since(ledger, known, last) && last > 0
    ensures var begin := Max(0, last - MAX_HISTORY);
      var drained := Drain(Coordinator(ledger, known), begin, last, MAX_PAGES);
      && drained.Some?
      && (Window(drained.value.events) == Newest(MAX_HISTORY, UpTo(ledger, drained.value.cursor)) <==>
            |drained.value.events| >= MAX_HISTORY || forall x :: x in ledger ==> x.id > begin)
  {
    hide After, Drain, Coordinator, Since, Max, Window, Newest, UpTo;
    var begin := Max(0, last - MAX_HISTORY);
    DrainReadsOn(ledger, known, begin, last, MAX_PAGES);
    var drained := Drain(Coordinator(ledger, known), begin, last, MAX_PAGES).value;
    HistoryIsNewestIff(ledger, begin, drained.events, drained.cursor);
  }

  /** A refresh leaves no gap and fetches nothing twice: after it, what was fetched since the history
      was last emptied is again one stretch of the ledger up to the cursor, and the history is the
      newest part of it. With the refreshes before it, that holds after any number of them. */
  lemma RefreshLeavesNoGap(ledger: seq<Event>, known: int -> nat, last: int, base: int, fetched: seq<Event>, cursor: int, over: bool)
    requires Ledger(ledger) && Since(ledger, known, last) && (!over ==> InStep(ledger, base, fetched, cursor))
    ensures var begin := if over then Max(0, last - MAX_HISTORY) else cursor;
      var drained := Drain(Coordinator(ledger, known), begin, last, MAX_PAGES);
      && drained.Some?
      && var now := (if over then [] else fetched) + drained.value.events;
      && InStep(ledger, if over then begin else base, now, drained.value.cursor)
      && Window(now) == Newest(MAX_HISTORY, now)
  {
    hide After, Drain, Coordinator, Since, Max, Window, Newest, InStep, ReadsOn;
    var begin, from := if over then Max(0, last - MAX_HISTORY) else cursor, if over then [] else fetched;
    var base := if over then begin else base;
    if over {
      NothingInStep(ledger, begin);
    }
    DrainReadsOn(ledger, known, begin, last, MAX_PAGES);
    var drained := Drain(Coordinator(ledger, known), begin, last, MAX_PAGES).value;
    StretchExtends(ledger, base, from, begin, last, MAX_PAGES, drained);
    StretchIsWindow(ledger, base, from + drained.events, drained.cursor);
  }
}
