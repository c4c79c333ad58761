/** The bounded event history of the control panel: pages are merged by event id and cut to the
    newest entries. The page-by-page window is the window of everything fetched. */
module EventWindow {
  import opened Sorting
  import opened Grouping

  datatype Event = Event(id: int, body: string)

  const MAX_HISTORY: nat := 500

  predicate ByEventId(a: Event, b: Event) { a.id <= b.id }

  ghost predicate Increasing(events: seq<Event>) {
    forall i, j :: 0 <= i < j < |events| ==> events[i].id < events[j].id
  }

  // ---------- One merge, as the client does it ----------

  /** Setting an id in an insertion-ordered map: replace the value in place, or append. */
  function Put(entries: seq<Event>, e: Event): seq<Event> {
    if entries == [] then [e]
    else if entries[0].id == e.id then [e] + entries[1..]
    else [entries[0]] + Put(entries[1..], e)
  }

  function PutAll(entries: seq<Event>, page: seq<Event>): seq<Event> {
    if page == [] then entries else Put(PutAll(entries, page[..|page| - 1]), page[|page| - 1])
  }

  function Newest(limit: nat, events: seq<Event>): (r: seq<Event>)
    ensures |r| <= limit
  {
    if |events| <= limit then events else events[|events| - limit..]
  }

  function Merge(history: seq<Event>, page: seq<Event>): seq<Event> {
    Newest(MAX_HISTORY, Sort(PutAll(history, page), ByEventId))
  }

  // ---------- The window of everything fetched ----------

  /** Keeps the latest version of every id, in id order. */
  function Upsert(events: seq<Event>, e: Event): seq<Event> {
    if events == [] || e.id < events[0].id then [e] + events
    else if e.id == events[0].id then [e] + events[1..]
    else [events[0]] + Upsert(events[1..], e)
  }

  function Latest(events: seq<Event>, page: seq<Event>): seq<Event> {
    if page == [] then events else Upsert(Latest(events, page[..|page| - 1]), page[|page| - 1])
  }

  /** The newest entries of everything fetched. */
  function Window(fetched: seq<Event>): seq<Event> {
    Newest(MAX_HISTORY, Latest([], fetched))
  }

  // ---------- Upserting ----------

  lemma {:induction false} UpsertIds(events: seq<Event>, e: Event, low: int)
    requires (forall k :: 0 <= k < |events| ==> low < events[k].id) && low < e.id
    ensures forall k :: 0 <= k < |Upsert(events, e)| ==> low < Upsert(events, e)[k].id
  {
    if events != [] && e.id > events[0].id {
      UpsertIds(events[1..], e, low);
    }
  }

  lemma {:induction false} UpsertIncreasing(events: seq<Event>, e: Event)
    requires Increasing(events)
    ensures Increasing(Upsert(events, e))
  {
    if events != [] && e.id > events[0].id {
      UpsertIncreasing(events[1..], e);
      UpsertIds(events[1..], e, events[0].id);
    }
  }

  lemma {:induction false} UpsertMembers(events: seq<Event>, e: Event, x: Event)
    requires Increasing(events)
    ensures x in Upsert(events, e) <==> x == e || (x in events && x.id != e.id)
  {
    if events != [] {
      var rest := events[1..];
      assert events == [events[0]] + rest;
      if e.id > events[0].id {
        UpsertMembers(rest, e, x);
      }
    }
  }

  lemma {:induction false} LatestIncreasing(events: seq<Event>, page: seq<Event>)
    requires Increasing(events)
    ensures Increasing(Latest(events, page))
  {
    if page != [] {
      LatestIncreasing(events, page[..|page| - 1]);
      UpsertIncreasing(Latest(events, page[..|page| - 1]), page[|page| - 1]);
    }
  }

  lemma {:induction false} LatestConcat(events: seq<Event>, a: seq<Event>, b: seq<Event>)
    ensures Latest(events, a + b) == Latest(Latest(events, a), b)
  {
    if b == [] {
      assert a + b == a;
    } else {
      LatestConcat(events, a, b[..|b| - 1]);
      assert (a + b)[..|a + b| - 1] == a + b[..|b| - 1];
    }
  }

  /** An event newer than everything in `past` only touches what comes after. */
  lemma {:induction false} UpsertAfter(past: seq<Event>, recent: seq<Event>, e: Event)
    requires forall k :: 0 <= k < |past| ==> past[k].id < e.id
    ensures Upsert(past + recent, e) == past + Upsert(recent, e)
  {
    if past == [] {
      assert past + recent == recent;
    } else {
      UpsertAfter(past[1..], recent, e);
      assert (past + recent)[1..] == past[1..] + recent;
      assert past == [past[0]] + past[1..];
    }
  }

  /** An event older than everything in `recent` only touches what comes before. */
  lemma {:induction false} UpsertBefore(past: seq<Event>, recent: seq<Event>, e: Event)
    requires recent != [] && e.id < recent[0].id
    ensures Upsert(past + recent, e) == Upsert(past, e) + recent
  {
    if past == [] {
      assert past + recent == recent;
    } else if e.id < past[0].id {
    } else {
      assert (past + recent)[1..] == past[1..] + recent;
      if e.id > past[0].id {
        UpsertBefore(past[1..], recent, e);
      }
    }
  }

  lemma {:induction false} UpsertGrows(events: seq<Event>, e: Event)
    ensures |events| <= |Upsert(events, e)|
  {
    if events != [] && e.id > events[0].id {
      UpsertGrows(events[1..], e);
    }
  }

  lemma NewestOfTail(limit: nat, past: seq<Event>, recent: seq<Event>)
    requires |recent| >= limit
    ensures Newest(limit, past + recent) == Newest(limit, recent)
  {
  }

  /** Cutting before or after an upsert makes no difference to the newest entries. */
  lemma UpsertNewest(limit: nat, events: seq<Event>, e: Event)
    requires limit > 0 && Increasing(events)
    ensures Newest(limit, Upsert(events, e)) == Newest(limit, Upsert(Newest(limit, events), e))
  {
    hide Upsert;
    if |events| > limit {
      var cut := |events| - limit;
      assert events == events[..cut] + events[cut..];
      UpsertCut(limit, events[..cut], events[cut..], e);
    }
  }

  lemma UpsertCut(limit: nat, past: seq<Event>, recent: seq<Event>, e: Event)
    requires |recent| == limit > 0 && forall i :: 0 <= i < |past| ==> past[i].id < recent[0].id
    ensures Newest(limit, Upsert(past + recent, e)) == Newest(limit, Upsert(recent, e))
  {
    hide Upsert, Newest;
    if e.id >= recent[0].id {
      UpsertAfter(past, recent, e);
      UpsertGrows(recent, e);
      NewestOfTail(limit, past, Upsert(recent, e));
    } else {
      UpsertBefore(past, recent, e);
      UpsertBefore([], recent, e);
      assert [] + recent == recent;
      NewestOfTail(limit, Upsert(past, e), recent);
      NewestOfTail(limit, Upsert([], e), recent);
    }
  }

  lemma {:induction false} LatestNewest(limit: nat, events: seq<Event>, page: seq<Event>)
    requires limit > 0 && Increasing(events)
    ensures Newest(limit, Latest(events, page)) == Newest(limit, Latest(Newest(limit, events), page))
  {
    hide Upsert, Newest;
    if page == [] {
      NewestTwice(limit, events);
    } else {
      var front, last := page[..|page| - 1], page[|page| - 1];
      NewestIncreasing(limit, events);
      LatestNewest(limit, events, front);
      LatestIncreasing(events, front);
      LatestIncreasing(Newest(limit, events), front);
      UpsertNewest(limit, Latest(events, front), last);
      UpsertNewest(limit, Latest(Newest(limit, events), front), last);
    }
  }

  lemma NewestTwice(limit: nat, events: seq<Event>)
    ensures Newest(limit, Newest(limit, events)) == Newest(limit, events)
  {
  }

  lemma NewestIncreasing(limit: nat, events: seq<Event>)
    requires Increasing(events)
    ensures Increasing(Newest(limit, events))
  {
  }

  // ---------- The client's merge is an upsert ----------

  lemma {:induction false} PutMembers(entries: seq<Event>, e: Event, x: Event)
    requires UniqueIds(entries)
    ensures x in Put(entries, e) <==> x == e || (x in entries && x.id != e.id)
  {
    if entries != [] {
      var rest := entries[1..];
      assert entries == [entries[0]] + rest;
      if entries[0].id == e.id {
        assert x in rest ==> x.id != e.id;
      } else {
        PutMembers(rest, e, x);
      }
    }
  }

  lemma {:induction false} PutUnique(entries: seq<Event>, e: Event)
    requires UniqueIds(entries)
    ensures UniqueIds(Put(entries, e))
  {
    if entries != [] && entries[0].id != e.id {
      var rest := Put(entries[1..], e);
      PutUnique(entries[1..], e);
      forall k | 0 <= k < |rest| ensures rest[k].id != entries[0].id {
        assert rest[k] in rest;
        PutMembers(entries[1..], e, rest[k]);
      }
    }
  }

  function EventId(event: Event): int { event.id }

  ghost predicate UniqueIds(entries: seq<Event>) {
    DistinctBy(entries, EventId)
  }

  /** Both forms hold the same events. */
  lemma {:induction false} PutAllContents(entries: seq<Event>, page: seq<Event>)
    requires Increasing(entries)
    ensures UniqueIds(PutAll(entries, page))
    ensures forall x :: x in PutAll(entries, page) <==> x in Latest(entries, page)
  {
    hide Put, Upsert;
    if page != [] {
      var front, last := page[..|page| - 1], page[|page| - 1];
      PutAllContents(entries, front);
      LatestIncreasing(entries, front);
      PutUnique(PutAll(entries, front), last);
      forall x ensures x in PutAll(entries, page) <==> x in Latest(entries, page) {
        PutMembers(PutAll(entries, front), last, x);
        UpsertMembers(Latest(entries, front), last, x);
      }
    }
  }

  lemma {:induction false} CountUnique(entries: seq<Event>)
    requires UniqueIds(entries)
    ensures forall x :: multiset(entries)[x] == if x in entries then 1 else 0
  {
    if entries != [] {
      var n := |entries| - 1;
      assert entries == entries[..n] + [entries[n]];
      CountUnique(entries[..n]);
      assert entries[n] !in entries[..n];
    }
  }

  lemma SortIsLatest(entries: seq<Event>, page: seq<Event>)
    requires Increasing(entries)
    ensures Sort(PutAll(entries, page), ByEventId) == Latest(entries, page)
  {
    hide Sort, PutAll, Latest;
    var put, latest := PutAll(entries, page), Latest(entries, page);
    PutAllContents(entries, page);
    LatestIncreasing(entries, page);
    CountUnique(put);
    CountUnique(latest);
    assert multiset(put) == multiset(latest);
    SortPermutes(put, ByEventId);
    SortSorts(put, ByEventId);
    SortedUnique(latest, Sort(put, ByEventId), ByEventId);
  }

  /** The incremental window refines the batch window: merging a page into the window of what was
      fetched before gives the window of everything. */
  lemma MergeRefinesWindow(fetched: seq<Event>, page: seq<Event>)
    ensures Merge(Window(fetched), page) == Window(fetched + page)
    ensures Increasing(Window(fetched)) && |Window(fetched)| <= MAX_HISTORY
  {
    hide Sort, PutAll, Latest, Newest;
    LatestIncreasing([], fetched);
    NewestIncreasing(MAX_HISTORY, Latest([], fetched));
    SortIsLatest(Window(fetched), page);
    LatestNewest(MAX_HISTORY, Latest([], fetched), page);
    LatestConcat([], fetched, page);
  }

  // ---------- What the window holds ----------

  /** `e` is the last event fetched with its id. */
  ghost predicate LastVersion(fetched: seq<Event>, e: Event) {
    exists i: nat :: IsLast(fetched, i) && fetched[i] == e
  }

  ghost predicate IsLast(fetched: seq<Event>, i: nat) {
    i < |fetched| && forall j :: i < j < |fetched| ==> fetched[j].id != fetched[i].id
  }

  lemma LastVersionAfter(front: seq<Event>, last: Event, x: Event)
    ensures LastVersion(front + [last], x) <==> x == last || (LastVersion(front, x) && x.id != last.id)
  {
    var fetched, n := front + [last], |front|;
    assert fetched[n] == last && IsLast(fetched, n);
    assert forall i :: 0 <= i < n ==> fetched[i] == front[i];
    if LastVersion(front, x) && x.id != last.id {
      var i: nat :| IsLast(front, i) && front[i] == x;
      assert IsLast(fetched, i);
    }
    if LastVersion(fetched, x) && x != last {
      var i: nat :| IsLast(fetched, i) && fetched[i] == x;
      assert i < n && fetched[n].id != fetched[i].id;
      assert IsLast(front, i);
    }
  }

  lemma {:induction false} LatestContents(fetched: seq<Event>, x: Event)
    ensures x in Latest([], fetched) <==> LastVersion(fetched, x)
  {
    hide Upsert, LastVersion;
    if fetched == [] {
      NothingFetched(x);
    } else {
      var n := |fetched| - 1;
      LatestContents(fetched[..n], x);
      LatestIncreasing([], fetched[..n]);
      UpsertMembers(Latest([], fetched[..n]), fetched[n], x);
      LastVersionAfter(fetched[..n], fetched[n], x);
      assert fetched == fetched[..n] + [fetched[n]];
    }
  }

  lemma NothingFetched(x: Event)
    ensures !LastVersion([], x)
  {
  }

  /** The last versions of everything fetched, oldest id first. */
  ghost predicate AllVersions(fetched: seq<Event>, all: seq<Event>) {
    Increasing(all) && forall x :: x in all <==> LastVersion(fetched, x)
  }

  /** The window holds exactly the last versions, without the oldest ids beyond the limit. */
  lemma WindowContents(fetched: seq<Event>) returns (all: seq<Event>)
    ensures AllVersions(fetched, all)
    ensures Window(fetched) == if |all| <= MAX_HISTORY then all else all[|all| - MAX_HISTORY..]
  {
    hide LastVersion;
    all := Latest([], fetched);
    LatestIncreasing([], fetched);
    forall x ensures x in all <==> LastVersion(fetched, x) {
      LatestContents(fetched, x);
    }
  }
}
