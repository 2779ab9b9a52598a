// Fetching the deploy timeline page by page.
module Timeline {
  import opened Numbers
  import opened Wrappers

  const MAX_PAGES := 10

  // A page: its items and the cursor after them, None when the stream ends there.
  datatype Page<T> = Page(items: seq<T>, next: Option<nat>)

  // The server's answer to the k-th request, from a cursor; None when the request fails.
  type Server<T> = (nat, nat) -> Option<Page<T>>

  // What a server answers, if it does: the next stretch of its stream, of a length it chooses, and a
  // cursor for the rest unless that was all.
  ghost predicate Serves<T(!new)>(stream: seq<T>, serve: Server<T>) {
    forall k: nat, at: nat | at <= |stream| && serve(k, at).Some? ::
      var page := serve(k, at).value;
      && at + |page.items| <= |stream|
      && page.items == stream[at..at + |page.items|]
      && (page.next.Some? ==> page.next.value == at + |page.items|)
      && (page.next.None? ==> at + |page.items| == |stream|)
  }

  // An answer every time, with pages as full as the size asked for, and no cursor at the end.
  ghost predicate ServesFull<T(!new)>(stream: seq<T>, serve: Server<T>, size: nat) {
    && Serves(stream, serve)
    && forall k: nat, at: nat | at <= |stream| ::
         && serve(k, at).Some?
         && |serve(k, at).value.items| == Min(size, |stream| - at)
         && (serve(k, at).value.next.Some? <==> at + size < |stream|)
  }

  // The page size asked for.
  function PageSize(limit: nat): nat {
    Min(limit, 200)
  }

  // The requests made, from these cursors in turn: the last one without an answer if it failed; and what
  // the pages fetched amount to.
  ghost predicate Asked<T(!new)>(serve: Server<T>, cursors: seq<nat>, failed: bool, fetched: nat, next: Option<nat>) {
    var pages := |cursors| - Failures(failed);
    && 0 <= pages
    && (|cursors| > 0 ==> cursors[0] == 0)
    && (forall k | 0 <= k < pages :: GoesOn(serve, cursors, k))
    && (failed ==> serve(pages, cursors[pages]).None?)
    && (if pages == 0 then fetched == 0 && next.None? else Reached(serve, pages - 1, cursors[pages - 1], fetched, next))
  }

  // The k-th request was answered, and the next one went on from there.
  predicate GoesOn<T(!new)>(serve: Server<T>, cursors: seq<nat>, k: nat)
    requires k < |cursors|
  {
    var answer := serve(k, cursors[k]);
    answer.Some? && (k + 1 < |cursors| ==> answer.value.next == Some(cursors[k + 1]))
  }

  // The k-th request, from this cursor, was the last one answered.
  predicate Reached<T(!new)>(serve: Server<T>, k: nat, cursor: nat, fetched: nat, next: Option<nat>) {
    var answer := serve(k, cursor);
    answer.Some? && next == answer.value.next && fetched == cursor + |answer.value.items|
  }

  lemma AskedNext<T(!new)>(serve: Server<T>, cursors: seq<nat>, fetched: nat, next: Option<nat>, cursor: nat)
    requires Asked(serve, cursors, false, fetched, next)
    requires if |cursors| == 0 then cursor == 0 else next == Some(cursor)
    ensures var answer := serve(|cursors|, cursor);
            if answer.None? then Asked(serve, cursors + [cursor], true, fetched, next)
            else Asked(serve, cursors + [cursor], false, cursor + |answer.value.items|, answer.value.next)
  {
    var more := cursors + [cursor];
    forall k | 0 <= k < |cursors| ensures GoesOn(serve, more, k) {
      assert GoesOn(serve, cursors, k);
    }
  }

  function Failures(failed: bool): nat {
    if failed then 1 else 0
  }

  // The items of the pages fetched so far, all of them asked for below the limit.
  ghost predicate SoFar<T(!new)>(
      stream: seq<T>, serve: Server<T>, limit: nat, cursors: seq<nat>, failed: bool, items: seq<T>, next: Option<nat>)
  {
    && |items| <= |stream| && items == stream[..|items|]
    && Asked(serve, cursors, failed, |items|, next)
    && forall k | 0 <= k < |cursors| :: cursors[k] <= |stream| && cursors[k] < limit
  }

  // Why the pages end where they do: a request failed, a page had no cursor, the limit was reached, or ten were
  // fetched.
  predicate Ended(limit: nat, total: nat, cursors: seq<nat>, failed: bool, fetched: nat, next: Option<nat>) {
    && 1 <= |cursors| <= MAX_PAGES
    && (failed ==> fetched < limit)
    && (!failed ==> next.None? || fetched >= limit || |cursors| == MAX_PAGES)
    && (!failed && next.None? ==> fetched == total)
  }

  // The loop over the pages.
  method FetchPages<T(!new)>(ghost stream: seq<T>, serve: Server<T>, limit: nat)
    returns (items: seq<T>, next: Option<nat>, failed: bool, ghost cursors: seq<nat>)
    requires Serves(stream, serve)
    requires limit >= 1
    ensures items <= stream && SoFar(stream, serve, limit, cursors, failed, items, next)
    ensures Ended(limit, |stream|, cursors, failed, |items|, next)
  {
    var cursor := 0;
    items, next, failed, cursors := [], None, false, [];
    for i := 0 to MAX_PAGES
      invariant |cursors| == i && !failed && SoFar(stream, serve, limit, cursors, false, items, next)
      invariant cursor == |items| < limit && (i > 0 ==> next == Some(cursor))
    {
      var answer := serve(i, cursor);
      if answer.None? {
        NextFails(stream, serve, limit, cursors, items, next);
        return items, next, true, cursors + [cursor];
      }
      var page := answer.value;
      NextPage(stream, serve, limit, cursors, items, next, page);
      cursors := cursors + [cursor];
      items := items + page.items;
      next := page.next;
      if next.None? || |items| >= limit {
        return;
      }
      cursor := next.value;
    }
  }

  // What is shown is what was fetched, cut at the limit.
  method FetchTimeline<T(!new)>(ghost stream: seq<T>, serve: Server<T>, limit: nat)
    returns (shown: seq<T>, next: Option<nat>, failed: bool, ghost fetched: nat, ghost cursors: seq<nat>)
    requires Serves(stream, serve)
    requires limit >= 1
    ensures shown <= stream && |shown| <= limit && |shown| == Min(fetched, limit)
    ensures Asked(serve, cursors, failed, fetched, next) && Ended(limit, |stream|, cursors, failed, fetched, next)
    ensures forall k | 0 <= k < |cursors| :: cursors[k] <= |stream| && cursors[k] < limit
  {
    shown, next, failed, cursors := FetchPages(stream, serve, limit);
    fetched := |shown|;
    if !failed && |shown| > limit {
      shown := shown[..limit];
    }
  }

  // One more request, without an answer.
  lemma NextFails<T(!new)>(
      stream: seq<T>, serve: Server<T>, limit: nat, cursors: seq<nat>, items: seq<T>, next: Option<nat>)
    requires SoFar(stream, serve, limit, cursors, false, items, next) && |items| < limit
    requires |cursors| == 0 || next == Some(|items|)
    requires serve(|cursors|, |items|).None?
    ensures SoFar(stream, serve, limit, cursors + [|items|], true, items, next)
  {
    AskedNext(serve, cursors, |items|, next, |items|);
  }

  // One more page.
  lemma NextPage<T(!new)>(
      stream: seq<T>, serve: Server<T>, limit: nat, cursors: seq<nat>, items: seq<T>, next: Option<nat>, page: Page<T>)
    requires Serves(stream, serve) && SoFar(stream, serve, limit, cursors, false, items, next) && |items| < limit
    requires |cursors| == 0 || next == Some(|items|)
    requires serve(|cursors|, |items|) == Some(page)
    ensures SoFar(stream, serve, limit, cursors + [|items|], false, items + page.items, page.next)
    ensures page.next == if page.next.None? then None else Some(|items + page.items|)
    ensures page.next.None? ==> |items + page.items| == |stream|
  {
    AskedNext(serve, cursors, |items|, next, |items|);
    PageFits(stream, serve, |cursors|, |items|);
  }

  // The items so far with one more page.
  lemma PageFits<T(!new)>(stream: seq<T>, serve: Server<T>, k: nat, at: nat)
    requires Serves(stream, serve) && at <= |stream| && serve(k, at).Some?
    ensures var page := serve(k, at).value;
            && at + |page.items| <= |stream|
            && stream[..at] + page.items == stream[..at + |page.items|]
            && (page.next.Some? ==> page.next.value == at + |page.items|)
            && (page.next.None? ==> at + |page.items| == |stream|)
  {
    var items := serve(k, at).value.items;
    assert stream[..at] + stream[at..at + |items|] == stream[..at + |items|];
  }

  // A server that always answers with full pages is asked from every page's start in turn.
  lemma {:induction false} FullCursors<T(!new)>(
      stream: seq<T>, serve: Server<T>, size: nat, cursors: seq<nat>, failed: bool, fetched: nat, next: Option<nat>,
      k: nat)
    requires ServesFull(stream, serve, size) && Asked(serve, cursors, failed, fetched, next)
    requires k < |cursors| && forall j | 0 <= j < |cursors| :: cursors[j] <= |stream|
    ensures cursors[k] == k * size && (k > 0 ==> cursors[k] < |stream|)
  {
    if k > 0 {
      FullCursors(stream, serve, size, cursors, failed, fetched, next, k - 1);
      PageStep(k - 1, size);
      assert GoesOn(serve, cursors, k - 1);
    }
  }

  // So no request fails, and the number fetched and the cursor left follow from the number of pages.
  lemma FullFetch<T(!new)>(
      stream: seq<T>, serve: Server<T>, size: nat, cursors: seq<nat>, failed: bool, fetched: nat, next: Option<nat>)
    requires ServesFull(stream, serve, size) && Asked(serve, cursors, failed, fetched, next) && |cursors| > 0
    requires forall j | 0 <= j < |cursors| :: cursors[j] <= |stream|
    ensures !failed
    ensures fetched == Min(|cursors| * size, |stream|)
    ensures next.Some? <==> |cursors| * size < |stream|
  {
    var last := |cursors| - 1;
    FullCursors(stream, serve, size, cursors, failed, fetched, next, last);
    PageStep(last, size);
    assert serve(last, cursors[last]).Some?;
  }

  lemma PageStep(i: nat, size: nat)
    ensures (i + 1) * size == i * size + size
  {
  }

  // With full pages everything up to the limit arrives, for limits up to ten pages of 200.
  lemma FullPagesReachTheLimit(pages: nat, limit: nat, total: nat)
    requires 1 <= limit && 1 <= pages <= MAX_PAGES
    requires pages * PageSize(limit) >= Min(limit, total) || pages == MAX_PAGES
    ensures limit <= 2000 ==> Min(Min(pages * PageSize(limit), total), limit) == Min(limit, total)
    ensures limit > 2000 && pages == MAX_PAGES ==> Min(Min(pages * PageSize(limit), total), limit) == Min(2000, total)
  {
    if pages == MAX_PAGES {
      assert pages * PageSize(limit) == if limit < 200 then 10 * limit else 2000;
    }
  }

  // The items shown and the cursor left, for a stream of this length served in full pages.
  ghost predicate Fetches<T(!new)>(stream: seq<T>, limit: nat, shown: seq<T>, next: Option<nat>) {
    && shown <= stream
    && |shown| == Min(Min(limit, |stream|), 2000)
    && (next.Some? <==> RoundUp(Min(limit, 2000), PageSize(limit)) < |stream|)
  }

  function RoundUp(n: nat, size: nat): nat {
    if size == 0 then 0 else (n + size - 1) / size * size
  }

  method FetchFull<T(!new)>(ghost stream: seq<T>, serve: Server<T>, limit: nat)
    returns (shown: seq<T>, next: Option<nat>, failed: bool)
    requires limit >= 1 && ServesFull(stream, serve, PageSize(limit))
    ensures !failed && Fetches(stream, limit, shown, next)
  {
    ghost var fetched, cursors;
    shown, next, failed, fetched, cursors := FetchTimeline(stream, serve, limit);
    ghost var pages := |cursors|;
    FullFetch(stream, serve, PageSize(limit), cursors, failed, fetched, next);
    FullCursors(stream, serve, PageSize(limit), cursors, failed, fetched, next, pages - 1);
    FullPagesReachTheLimit(pages, limit, |stream|);
    CursorIs(pages, limit, |stream|, next.Some?);
  }

  lemma CursorIs(pages: nat, limit: nat, total: nat, more: bool)
    requires limit >= 1 && 1 <= pages <= MAX_PAGES
    requires more <==> pages * PageSize(limit) < total
    requires !more || Min(pages * PageSize(limit), total) >= limit || pages == MAX_PAGES
    requires pages > 1 ==> (pages - 1) * PageSize(limit) < Min(limit, total)
    ensures more <==> RoundUp(Min(limit, 2000), PageSize(limit)) < total
  {
    if limit <= 200 {
      RoundSmall(limit);
      OnePage(pages, limit, total);
    } else {
      RoundLarge(Min(limit, 2000));
    }
  }

  // With one page holding the limit, the loop ends after the first.
  lemma OnePage(pages: nat, limit: nat, total: nat)
    requires limit >= 1 && pages >= 1
    requires pages > 1 ==> (pages - 1) * limit < Min(limit, total)
    ensures pages == 1
  {
    if pages > 1 {
      TimesAtLeast(pages - 1, limit);
    }
  }

  lemma TimesAtLeast(k: nat, n: nat)
    requires k >= 1
    ensures k * n >= n
  {
  }

  lemma RoundLarge(n: nat)
    ensures n <= RoundUp(n, 200) < n + 200 && RoundUp(n, 200) % 200 == 0
  {
  }

  lemma RoundSmall(limit: nat)
    requires 1 <= limit
    ensures RoundUp(limit, limit) == limit
  {
    assert (limit + limit - 1) / limit == 1;
  }

  // The cursor that is left tells whether deploys are missing, except when the last page reaches past
  // the limit and holds the end of the stream.
  lemma CursorTellsTheRest<T(!new)>(stream: seq<T>, limit: nat, shown: seq<T>, next: Option<nat>)
    requires limit >= 1 && Fetches(stream, limit, shown, next)
    ensures (next.Some? <==> |shown| < |stream|) <==>
            !(Min(limit, 2000) < |stream| <= RoundUp(Min(limit, 2000), PageSize(limit)))
  {
    if limit <= 200 {
      RoundSmall(limit);
    }
  }

  // 250 of 300 deploys: two pages hold them all, so 50 are cut off and no cursor says so.
  lemma CutWithoutCursor<T(!new)>(stream: seq<T>, shown: seq<T>, next: Option<nat>)
    requires |stream| == 300 && Fetches(stream, 250, shown, next)
    ensures |shown| == 250 && next.None?
  {
    CursorTellsTheRest(stream, 250, shown, next);
  }
}
