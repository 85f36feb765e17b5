/** The incremental activity update of lib/main.js: `updateActivities` pages through
    the remote search service until an empty page, the `finish` bound, or the newest
    activity already stored (the high-water mark); `updateActivitiesAll` then decides
    what to write and which detail fetches to issue. */
module Sync {
  import opened Common
  import opened Text
  import opened Json
  import opened Templates
  import opened Projection

  /** The remote search service: the records of the page the request parameters
      select. */
  type Service = Fields -> seq<Value>

  /** The record transform `updateActivities` is given: one that `createPick`
      builds, applied with `ApplyPick`, in the scraper itself. */
  type Pick = Value -> Result<Value>

  // ---------------------------------------------------------------- the cursor

  /** `{ start: 0, limit: 20, ...searchParameters }`. */
  function Merged(parameters: Fields): (m: Fields)
    ensures DistinctKeys(m)
    ensures forall k :: Lookup(m, k) == if HasKey(parameters, k) then LookupLast(parameters, k)
                                         else LookupLast([("start", Num(0)), ("limit", Num(20))], k)
  {
    Merge([("start", Num(0)), ("limit", Num(20))], parameters)
  }

  /** `start` and `limit` are integers, as the configuration schema demands. */
  predicate IntegerCursor(m: Fields) {
    && Lookup(m, "start").Some? && Lookup(m, "start").value.Num?
    && Lookup(m, "limit").Some? && Lookup(m, "limit").value.Num?
  }

  function CursorStart(m: Fields): int
    requires IntegerCursor(m)
  {
    Lookup(m, "start").value.n
  }

  function CursorLimit(m: Fields): int
    requires IntegerCursor(m)
  {
    Lookup(m, "limit").value.n
  }

  /** Without `start` and `limit` of their own, the parameters page from 0 in pages of
      20. */
  lemma MergedCursorDefaults(parameters: Fields)
    requires !HasKey(parameters, "start") && !HasKey(parameters, "limit")
    ensures IntegerCursor(Merged(parameters))
    ensures CursorStart(Merged(parameters)) == 0 && CursorLimit(Merged(parameters)) == 20
  {
    var d: Fields := [("start", Num(0)), ("limit", Num(20))];
    assert d[..1] == [("start", Num(0))];
    assert LookupLast(d, "start") == Some(Num(0));
    assert LookupLast(d, "limit") == Some(Num(20));
  }

  /** The parameters of one page request: the loop writes the cursor into the merged
      parameters before every fetch. */
  function Request(m: Fields, start: int, limit: int): (r: Fields)
    ensures Lookup(r, "start") == Some(Num(start)) && Lookup(r, "limit") == Some(Num(limit))
    ensures forall k :: k != "start" && k != "limit" ==> Lookup(r, k) == Lookup(m, k)
  {
    SetField(SetField(m, "start", Num(start)), "limit", Num(limit))
  }

  lemma SetFieldExisting(f: Fields, k: string, v: Value)
    requires HasKey(f, k)
    ensures SetField(f, k, v) == f[FindKey(f, k).value := (k, v)]
    ensures forall k' :: FindKey(SetField(f, k, v), k') == FindKey(f, k')
  {
    var g := f[FindKey(f, k).value := (k, v)];
    forall k' ensures FindKey(g, k') == FindKey(f, k') {
      FindKeySame(f, g, k');
    }
  }

  /** Writing the cursor again replaces the previous one in place. */
  lemma RequestAgain(m: Fields, s1: int, l1: int, s2: int, l2: int)
    requires HasKey(m, "start") && HasKey(m, "limit")
    ensures Request(Request(m, s1, l1), s2, l2) == Request(m, s2, l2)
  {
    var i, j := FindKey(m, "start").value, FindKey(m, "limit").value;
    SetFieldExisting(m, "start", Num(s1));
    var a := SetField(m, "start", Num(s1));
    SetFieldExisting(a, "limit", Num(l1));
    var b := SetField(a, "limit", Num(l1));
    SetFieldExisting(b, "start", Num(s2));
    var c := SetField(b, "start", Num(s2));
    SetFieldExisting(c, "limit", Num(l2));
    SetFieldExisting(m, "start", Num(s2));
    var a2 := SetField(m, "start", Num(s2));
    SetFieldExisting(a2, "limit", Num(l2));
    assert Request(Request(m, s1, l1), s2, l2) == m[i := ("start", Num(s2))][j := ("limit", Num(l2))];
  }

  /** Writing the cursor the parameters already hold changes nothing. */
  lemma RequestSame(m: Fields)
    requires IntegerCursor(m)
    ensures Request(m, CursorStart(m), CursorLimit(m)) == m
  {
    var i, j := FindKey(m, "start").value, FindKey(m, "limit").value;
    SetFieldExisting(m, "start", Num(CursorStart(m)));
    assert m[i := ("start", Num(CursorStart(m)))] == m;
    SetFieldExisting(m, "limit", Num(CursorLimit(m)));
    assert m[j := ("limit", Num(CursorLimit(m)))] == m;
  }

  // ---------------------------------------------------------------- one page

  /** `oldActivities[0]?.activityId ?? -1`: the identifier of the newest stored
      activity, or -1. */
  function Latest(stored: seq<Value>): (r: Value)
    ensures stored == [] ==> r == Num(-1)
    ensures !IsNullish(r)
    ensures stored != [] && !IsNullish(stored[0]) && !IsNullish(Prop(stored[0], "activityId")) ==>
      r == Prop(stored[0], "activityId")
    ensures stored != [] && (IsNullish(stored[0]) || IsNullish(Prop(stored[0], "activityId"))) ==> r == Num(-1)
  {
    if stored == [] || IsNullish(stored[0]) then Num(-1)
    else
      var id := Prop(stored[0], "activityId");
      if IsNullish(id) then Num(-1) else id
  }

  /** `latestActivityId === activity.activityId`. */
  predicate Matches(activity: Value, latest: Value)
    requires !IsNullish(activity)
  {
    StrictEquals(latest, Prop(activity, "activityId"))
  }

  /** The test for the high-water mark, on records that are neither `null` nor
      `undefined`. */
  type Mark = Value -> bool

  /** The mark test for the identifier `latest`. */
  function MarkFor(latest: Value): Mark {
    a => !IsNullish(a) && Matches(a, latest)
  }

  /** Reading `activityId` of `null` or `undefined` throws. */
  function ReadIdError(activity: Value): string {
    "Cannot read properties of " + (if activity.Null? then "null" else "undefined")
      + " (reading 'activityId')"
  }

  /** The picked records of one page and whether the page held the mark. */
  datatype PageScan = PageScan(picked: seq<Value>, hit: bool)

  /** `activitiesChunk.some(...)`: walks the page, stopping at the mark, and picks
      every record before it; a record that is `null` or `undefined`, or one the pick
      throws on, throws. */
  function ScanPage(page: seq<Value>, mark: Mark, pick: Pick): (r: Result<PageScan>)
    ensures r.Success? ==> |r.value.picked| <= |page|
    ensures r.Success? && !r.value.hit ==> |r.value.picked| == |page|
    ensures r.Failure? ==> page != []
  {
    if page == [] then Success(PageScan([], false))
    else if IsNullish(page[0]) then Failure(ReadIdError(page[0]))
    else if mark(page[0]) then Success(PageScan([], true))
    else match pick(page[0])
      case Failure(e) => Failure(e)
      case Success(v) => Extend([v], ScanPage(page[1..], mark, pick))
  }

  /** Records picked earlier on the page go in front of the rest of the scan. */
  function Extend(p: seq<Value>, r: Result<PageScan>): Result<PageScan> {
    match r
    case Success(s) => Success(PageScan(p + s.picked, s.hit))
    case Failure(e) => Failure(e)
  }

  lemma ExtendTwice(p1: seq<Value>, p2: seq<Value>, r: Result<PageScan>)
    ensures Extend(p1, Extend(p2, r)) == Extend(p1 + p2, r)
    ensures Extend([], r) == r
  {
    if r.Success? {
      assert p1 + (p2 + r.value.picked) == (p1 + p2) + r.value.picked;
      assert [] + r.value.picked == r.value.picked;
    }
  }

  // ---------------------------------------------------------------- paging

  /** What one run of the loop sees besides the cursor: the page at each `start`,
      the step, the bound, the mark and the pick. */
  datatype Search = Search(fetch: int -> seq<Value>, limit: int, finish: Option<int>,
                           mark: Mark, pick: Pick)

  /** How the loop ends: with the new activities, with an exception, or (in this
      model only) with the page budget spent. */
  datatype Outcome = Done(activities: seq<Value>) | Failed(error: string) | OutOfPages

  /** The outcome and the `start` of every page request, in order. */
  datatype Trace = Trace(outcome: Outcome, starts: seq<int>)

  /** Activities found on earlier pages, and earlier requests, go in front. */
  function After(news: seq<Value>, starts: seq<int>, t: Trace): Trace {
    Trace(match t.outcome case Done(a) => Done(news + a) case o => o, starts + t.starts)
  }

  /** The page the service returns for cursor `start`: the request carries the merged
      parameters with the cursor written in. */
  function PagesOf(service: Service, m: Fields, limit: int): int -> seq<Value> {
    start => service(Request(m, start, limit))
  }

  /** The loop from cursor `start` on, with at most `pages` requests. */
  function Paginate(q: Search, start: int, pages: nat): (r: Trace)
    ensures |r.starts| <= pages
    ensures r.starts == [] <==> (q.finish.Some? && start >= q.finish.value) || pages == 0
    decreases pages
  {
    if q.finish.Some? && start >= q.finish.value then Trace(Done([]), [])
    else if pages == 0 then Trace(OutOfPages, [])
    else
      var chunk := q.fetch(start);
      if chunk == [] then Trace(Done([]), [start])
      else match ScanPage(chunk, q.mark, q.pick)
        case Failure(e) => Trace(Failed(e), [start])
        case Success(s) =>
          if s.hit then Trace(Done(s.picked), [start])
          else After(s.picked, [start], Paginate(q, start + q.limit, pages - 1))
  }

  /** `updateActivities(page, searchParameters, oldActivities, pick, finish)`, allowed
      at most `pages` page requests; it also returns the `start` of each request. */
  method UpdateActivities(service: Service, parameters: Fields, stored: seq<Value>, pick: Pick,
                          finish: Option<int>, pages: nat)
    returns (r: Outcome, starts: seq<int>)
    requires IntegerCursor(Merged(parameters))
    ensures Trace(r, starts)
         == Paginate(Search(PagesOf(service, Merged(parameters), CursorLimit(Merged(parameters))), CursorLimit(Merged(parameters)),
                            finish, MarkFor(Latest(stored)), pick),
                     CursorStart(Merged(parameters)), pages)
  {
    var latest := Latest(stored);
    var searchParameters := Merged(parameters);
    var start, limit := CursorStart(searchParameters), CursorLimit(searchParameters);
    RequestSame(searchParameters);
    ghost var request := s => Request(searchParameters, s, limit);
    r, starts := FetchPages(service, searchParameters, latest, pick, start, limit, finish, pages,
                            request, PagesOf(service, searchParameters, limit), MarkFor(latest));
  }

  /** The `while` loop of `updateActivities`: request the page at the cursor, scan
      it, and move the cursor on by `limit` until a page is empty, holds the mark,
      or the cursor reaches `finish`. */
  method FetchPages(service: Service, m: Fields, latest: Value, pick: Pick, start0: int, limit: int,
                    finish: Option<int>, pages: nat,
                    ghost request: int -> Fields, ghost fetch: int -> seq<Value>, ghost mark: Mark)
    returns (r: Outcome, starts: seq<int>)
    requires HasKey(m, "start") && HasKey(m, "limit")
    requires forall s {:trigger Request(m, s, limit)} :: request(s) == Request(m, s, limit)
    requires m == request(start0)
    requires forall s :: fetch(s) == service(request(s))
    requires forall a :: !IsNullish(a) ==> (mark(a) <==> Matches(a, latest))
    ensures Trace(r, starts) == Paginate(Search(fetch, limit, finish, mark, pick), start0, pages)
  {
    ghost var q := Search(fetch, limit, finish, mark, pick);
    ghost var total := Paginate(q, start0, pages);
    var searchParameters := m;
    var start := start0;
    var newActivities: seq<Value> := [];
    ghost var ps := start;
    starts := [];
    var left := pages;
    while finish.None? || start < finish.value
      invariant searchParameters == request(ps)
      invariant total == After(newActivities, starts, Paginate(q, start, left))
      decreases left
    {
      ghost var rest := Paginate(q, start, left);
      if left == 0 {
        assert rest == Trace(OutOfPages, []);
        assert starts + [] == starts;
        r := OutOfPages;
        return;
      }
      ghost var budget := left;
      left := left - 1;
      searchParameters := WriteCursor(searchParameters, start, limit, m, request, ps);
      ps := start;
      var chunk := service(searchParameters);
      assert chunk == q.fetch(start);
      ghost var before, earlier := newActivities, starts;
      starts := starts + [start];
      if chunk == [] {
        assert rest == Trace(Done([]), [start]);
        assert newActivities + [] == newActivities;
        r := Done(newActivities);
        return;
      }
      var scanned, hit := ScanChunk(chunk, latest, pick, newActivities, mark);
      if scanned.Failure? {
        assert rest == Trace(Failed(scanned.error), [start]);
        r := Failed(scanned.error);
        return;
      }
      ghost var page := ScanPage(chunk, mark, pick).value;
      newActivities := scanned.value;
      if hit {
        assert rest == Trace(Done(page.picked), [start]);
        r := Done(newActivities);
        return;
      }
      ghost var at := start;
      start := start + limit;
      PaginateStep(q, at, budget, page, total, before, earlier, newActivities, starts, start, left);
    }
    assert Paginate(q, start, left) == Trace(Done([]), []);
    assert newActivities + [] == newActivities && starts + [] == starts;
    r := Done(newActivities);
  }

  /** `searchParameters.start = start; searchParameters.limit = limit;`: the cursor
      written over the previous one. */
  method WriteCursor(sp: Fields, start: int, limit: int, ghost m: Fields, ghost request: int -> Fields, ghost ps: int)
    returns (r: Fields)
    requires HasKey(m, "start") && HasKey(m, "limit")
    requires forall s {:trigger Request(m, s, limit)} :: request(s) == Request(m, s, limit)
    requires sp == request(ps)
    ensures r == request(start)
  {
    r := SetField(sp, "start", Num(start));
    r := SetField(r, "limit", Num(limit));
    RequestAgain(m, ps, limit, start, limit);
  }

  /** A page read in full without the mark: the loop goes on at the next cursor. */
  lemma PaginateNext(q: Search, start: int, n: nat, page: PageScan)
    requires !(q.finish.Some? && start >= q.finish.value) && n > 0
    requires q.fetch(start) != [] && ScanPage(q.fetch(start), q.mark, q.pick) == Success(page) && !page.hit
    ensures Paginate(q, start, n) == After(page.picked, [start], Paginate(q, start + q.limit, n - 1))
  {
  }

  /** The loop invariant carried over a page read in full without the mark. */
  lemma PaginateStep(q: Search, start: int, n: nat, page: PageScan, total: Trace, before: seq<Value>, earlier: seq<int>,
                     news: seq<Value>, starts: seq<int>, start': int, n': nat)
    requires !(q.finish.Some? && start >= q.finish.value) && n > 0
    requires q.fetch(start) != [] && ScanPage(q.fetch(start), q.mark, q.pick) == Success(page) && !page.hit
    requires total == After(before, earlier, Paginate(q, start, n))
    requires news == before + page.picked && starts == earlier + [start]
    requires start' == start + q.limit && n' == n - 1
    ensures total == After(news, starts, Paginate(q, start', n'))
  {
    PaginateNext(q, start, n, page);
    AfterTwice(before, earlier, page.picked, [start], Paginate(q, start + q.limit, n - 1));
  }

  lemma AfterTwice(n1: seq<Value>, s1: seq<int>, n2: seq<Value>, s2: seq<int>, t: Trace)
    ensures After(n1, s1, After(n2, s2, t)) == After(n1 + n2, s1 + s2, t)
  {
    assert s1 + (s2 + t.starts) == (s1 + s2) + t.starts;
    if t.outcome.Done? {
      assert n1 + (n2 + t.outcome.activities) == (n1 + n2) + t.outcome.activities;
    }
  }

  /** The `some` over one page: records before the mark are picked and pushed onto
      `news`; it stops at the mark, and throws on a record that is `null` or
      `undefined` or that the pick throws on. */
  method ScanChunk(chunk: seq<Value>, latest: Value, pick: Pick, news: seq<Value>, ghost mark: Mark)
    returns (r: Result<seq<Value>>, hit: bool)
    requires forall a :: !IsNullish(a) ==> (mark(a) <==> Matches(a, latest))
    ensures ScanPage(chunk, mark, pick).Failure? ==> r == Failure(ScanPage(chunk, mark, pick).error)
    ensures ScanPage(chunk, mark, pick).Success? ==>
      && r == Success(news + ScanPage(chunk, mark, pick).value.picked)
      && hit == ScanPage(chunk, mark, pick).value.hit
  {
    var newActivities := news;
    ghost var picked: seq<Value> := [];
    var i := 0;
    hit := false;
    assert chunk[0..] == chunk;
    ExtendTwice([], [], ScanPage(chunk, mark, pick));
    while i < |chunk| && !hit
      invariant 0 <= i <= |chunk|
      invariant newActivities == news + picked
      invariant ScanPage(chunk, mark, pick)
             == Extend(picked, if hit then Success(PageScan([], true)) else ScanPage(chunk[i..], mark, pick))
      decreases |chunk| - i, !hit
    {
      var activity := chunk[i];
      assert chunk[i..][1..] == chunk[i + 1..];
      if IsNullish(activity) {
        return Failure(ReadIdError(activity)), false;
      }
      if StrictEquals(latest, Prop(activity, "activityId")) {
        hit := true;
      } else {
        var v := pick(activity);
        if v.Failure? {
          return Failure(v.error), false;
        }
        ExtendTwice(picked, [v.value], ScanPage(chunk[i + 1..], mark, pick));
        newActivities := newActivities + [v.value];
        picked := picked + [v.value];
        i := i + 1;
      }
    }
    if !hit {
      assert chunk[i..] == [];
    }
    assert picked + [] == picked;
    r := Success(newActivities);
  }

  // ---------------------------------------------------------------- properties

  /** The records before the first one carrying the mark. */
  function UpToMark(rs: seq<Value>, mark: Mark): (r: seq<Value>)
    ensures |r| <= |rs|
  {
    if rs == [] || mark(rs[0]) then [] else [rs[0]] + UpToMark(rs[1..], mark)
  }

  predicate Marked(rs: seq<Value>, mark: Mark) {
    exists i :: 0 <= i < |rs| && mark(rs[i])
  }

  /** The pick applied to each record in order, or the first exception. */
  function Picks(pick: Pick, rs: seq<Value>): (r: Result<seq<Value>>)
    ensures r.Success? ==> |r.value| == |rs|
  {
    if rs == [] then Success([])
    else match pick(rs[0])
      case Failure(e) => Failure(e)
      case Success(v) => (match Picks(pick, rs[1..]) case Success(vs) => Success([v] + vs) case Failure(e) => Failure(e))
  }

  /** Every record of the pages the loop would read were it never to meet the mark:
      page after page, up to an empty page, the `finish` bound or the page budget. */
  function Records(q: Search, start: int, pages: nat): seq<Value>
    decreases pages
  {
    if (q.finish.Some? && start >= q.finish.value) || pages == 0 then []
    else
      var chunk := q.fetch(start);
      if chunk == [] then [] else chunk + Records(q, start + q.limit, pages - 1)
  }

  /** A sequence is marked when its head is, or its tail. */
  lemma MarkedCons(rs: seq<Value>, mark: Mark)
    requires rs != []
    ensures Marked(rs, mark) <==> mark(rs[0]) || Marked(rs[1..], mark)
  {
    if Marked(rs, mark) {
      var i :| 0 <= i < |rs| && mark(rs[i]);
      if i > 0 {
        assert rs[1..][i - 1] == rs[i];
      }
    }
    if Marked(rs[1..], mark) {
      var i :| 0 <= i < |rs[1..]| && mark(rs[1..][i]);
      assert rs[i + 1] == rs[1..][i];
    }
  }

  lemma {:induction false} UpToMarkConcat(a: seq<Value>, b: seq<Value>, mark: Mark)
    ensures UpToMark(a + b, mark) == if Marked(a, mark) then UpToMark(a, mark) else a + UpToMark(b, mark)
    ensures !Marked(a, mark) ==> UpToMark(a, mark) == a
    decreases |a|
  {
    if a == [] {
      assert a + b == b;
    } else {
      var h, t := a[0], a[1..];
      assert (a + b)[0] == h && (a + b)[1..] == t + b;
      MarkedCons(a, mark);
      if mark(h) {
        assert UpToMark(a + b, mark) == [] == UpToMark(a, mark);
      } else {
        UpToMarkConcat(t, b, mark);
        assert UpToMark(a + b, mark) == [h] + UpToMark(t + b, mark);
        assert UpToMark(a, mark) == [h] + UpToMark(t, mark);
        if !Marked(t, mark) {
          assert [h] + (t + UpToMark(b, mark)) == ([h] + t) + UpToMark(b, mark);
          assert [h] + t == a;
        }
      }
    }
  }

  lemma {:induction false} PicksConcat(pick: Pick, a: seq<Value>, b: seq<Value>)
    requires Picks(pick, a).Success? && Picks(pick, b).Success?
    ensures Picks(pick, a + b) == Success(Picks(pick, a).value + Picks(pick, b).value)
    decreases |a|
  {
    if a == [] {
      assert a + b == b;
      assert [] + Picks(pick, b).value == Picks(pick, b).value;
    } else {
      assert (a + b)[0] == a[0] && (a + b)[1..] == a[1..] + b;
      PicksConcat(pick, a[1..], b);
      var v := pick(a[0]).value;
      var x, y := Picks(pick, a[1..]).value, Picks(pick, b).value;
      assert Picks(pick, a) == Success([v] + x);
      assert Picks(pick, a[1..] + b) == Success(x + y);
      assert Picks(pick, a + b) == Success([v] + (x + y));
      assert [v] + (x + y) == ([v] + x) + y;
    }
  }

  /** A page scan picks exactly the records before the mark, and reports whether the
      mark was on the page. */
  lemma {:induction false} ScanPageMeaning(page: seq<Value>, mark: Mark, pick: Pick)
    ensures ScanPage(page, mark, pick).Success? ==>
      && Picks(pick, UpToMark(page, mark)) == Success(ScanPage(page, mark, pick).value.picked)
      && (ScanPage(page, mark, pick).value.hit <==> Marked(page, mark))
    decreases |page|
  {
    if page != [] && !IsNullish(page[0]) && !mark(page[0]) {
      ScanPageMeaning(page[1..], mark, pick);
      MarkedCons(page, mark);
    } else if page != [] && !IsNullish(page[0]) {
      assert mark(page[0]);
    }
  }

  /** When the loop finishes normally, its result is the pick of every record read
      before the first one carrying the mark, in page order. */
  lemma {:induction false} PaginateResult(q: Search, start: int, pages: nat)
    ensures Paginate(q, start, pages).outcome.Done? ==>
      Picks(q.pick, UpToMark(Records(q, start, pages), q.mark)) == Success(Paginate(q, start, pages).outcome.activities)
    decreases pages
  {
    if !(q.finish.Some? && start >= q.finish.value) && pages != 0 {
      var chunk := q.fetch(start);
      var rest := Records(q, start + q.limit, pages - 1);
      if chunk != [] && ScanPage(chunk, q.mark, q.pick).Success? {
        var s := ScanPage(chunk, q.mark, q.pick).value;
        assert Records(q, start, pages) == chunk + rest;
        ScanPageMeaning(chunk, q.mark, q.pick);
        UpToMarkConcat(chunk, rest, q.mark);
        if s.hit {
          assert Paginate(q, start, pages).outcome == Done(s.picked);
        } else {
          var t := Paginate(q, start + q.limit, pages - 1);
          assert Paginate(q, start, pages) == After(s.picked, [start], t);
          PaginateResult(q, start + q.limit, pages - 1);
          if t.outcome.Done? {
            PicksConcat(q.pick, chunk, UpToMark(rest, q.mark));
          }
        }
      }
    }
  }

  /** Page requests start at `start`, `start + limit`, ... in order, never at or past
      `finish`, and never more than the budget. */
  lemma {:induction false} PaginateStarts(q: Search, start: int, pages: nat)
    ensures |Paginate(q, start, pages).starts| <= pages
    ensures forall k :: 0 <= k < |Paginate(q, start, pages).starts| ==>
      && Paginate(q, start, pages).starts[k] == start + k * q.limit
      && (q.finish.Some? ==> Paginate(q, start, pages).starts[k] < q.finish.value)
    decreases pages
  {
    if !(q.finish.Some? && start >= q.finish.value) && pages != 0 {
      var chunk := q.fetch(start);
      if chunk != [] && ScanPage(chunk, q.mark, q.pick).Success? && !ScanPage(chunk, q.mark, q.pick).value.hit {
        var t := Paginate(q, start + q.limit, pages - 1);
        PaginateStarts(q, start + q.limit, pages - 1);
        assert Paginate(q, start, pages).starts == [start] + t.starts;
        forall k | 1 <= k < |Paginate(q, start, pages).starts|
          ensures Paginate(q, start, pages).starts[k] == start + k * q.limit
        {
          assert Paginate(q, start, pages).starts[k] == t.starts[k - 1];
          assert (start + q.limit) + (k - 1) * q.limit == start + k * q.limit;
        }
      }
    }
  }

  /** The loop goes on past the page at `start`: the page is not empty, and it is
      read in full without the mark and without an exception. */
  predicate GoesOn(q: Search, start: int) {
    && q.fetch(start) != []
    && ScanPage(q.fetch(start), q.mark, q.pick).Success?
    && !ScanPage(q.fetch(start), q.mark, q.pick).value.hit
  }

  /** No request follows a page that is empty, holds the mark or throws: every page
      but the last was read in full without the mark. A normal end after the last
      page is an empty page, the mark, or the next cursor at `finish`; a normal end
      without any request is the cursor already at `finish`; an exception comes from
      the last page. */
  lemma {:induction false} PaginateStops(q: Search, start: int, pages: nat)
    ensures var t := Paginate(q, start, pages);
      forall k :: 0 <= k < |t.starts| - 1 ==> GoesOn(q, t.starts[k])
    ensures var t := Paginate(q, start, pages);
      t.outcome.Done? && t.starts == [] ==> q.finish.Some? && start >= q.finish.value
    ensures var t := Paginate(q, start, pages);
      t.outcome.Done? && t.starts != [] && GoesOn(q, t.starts[|t.starts| - 1]) ==>
        q.finish.Some? && t.starts[|t.starts| - 1] + q.limit >= q.finish.value
    ensures var t := Paginate(q, start, pages);
      t.outcome.Failed? ==>
        t.starts != [] && ScanPage(q.fetch(t.starts[|t.starts| - 1]), q.mark, q.pick).Failure?
    decreases pages
  {
    var t := Paginate(q, start, pages);
    if !(q.finish.Some? && start >= q.finish.value) && pages != 0 {
      if GoesOn(q, start) {
        var s := ScanPage(q.fetch(start), q.mark, q.pick).value;
        var t' := Paginate(q, start + q.limit, pages - 1);
        PaginateStops(q, start + q.limit, pages - 1);
        assert t == After(s.picked, [start], t');
        assert t.starts == [start] + t'.starts;
        forall k | 0 <= k < |t.starts| - 1 ensures GoesOn(q, t.starts[k]) {
          if k > 0 {
            assert t.starts[k] == t'.starts[k - 1];
          }
        }
        if t'.starts != [] {
          assert t.starts[|t.starts| - 1] == t'.starts[|t'.starts| - 1];
        }
      }
    }
  }

  /** With `finish` given and a positive `limit`, a budget that covers the range from
      `start` to `finish` is never exhausted: the loop ends on its own. */
  lemma {:induction false} EnoughPages(q: Search, start: int, pages: nat)
    requires q.finish.Some? && q.limit > 0
    requires start + pages * q.limit >= q.finish.value
    ensures !Paginate(q, start, pages).outcome.OutOfPages?
    decreases pages
  {
    if start < q.finish.value {
      assert pages != 0;
      assert (start + q.limit) + (pages - 1) * q.limit == start + pages * q.limit;
      EnoughPages(q, start + q.limit, pages - 1);
    }
  }

  // ---------------------------------------------------------------- afterwards

  /** One activity-details descriptor: where to fetch, where to write, what to keep. */
  datatype FetchSpec = FetchSpec(url: string, path: string, pick: Option<seq<PickItem>>)

  /** What the update sets in motion: writing the activity list, and fetching one
      activity's details from `url` to write the picked result to `dest`. */
  datatype Effect =
    | WriteActivities(file: string, activities: seq<Value>)
    | FetchDetails(url: string, hint: string, dest: string, picker: Picker)

  /** The progress hint of detail request `i` of `n`, given only when there are
      several. */
  function Hint(i: nat, n: nat): (r: string)
    ensures n <= 1 <==> r == ""
  {
    if n > 1 then "(" + IntToString(i + 1) + " of " + IntToString(n) + ")" else ""
  }

  /** `fetchActivityDetails(page, newActivities, descriptor, env, defaultPickPolicy)`:
      both templates and the pick are compiled once, then one request per activity,
      the URL resolved against the activity and the destination against
      `{ ...env, ...activity }`. */
  function DetailFetches(d: FetchSpec, news: seq<Value>, env: Fields, policy: string): (r: Result<seq<Effect>>)
    ensures r.Success? ==> |r.value| == |news|
  {
    match TemplateOf(d.url)
    case Failure(e) => Failure(e)
    case Success(ut) =>
      match TemplateOf(d.path)
      case Failure(e) => Failure(e)
      case Success(pt) =>
        match CreatePick(policy, d.pick, [])
        case Failure(e) => Failure(e)
        case Success(picker) =>
          Success(seq(|news|, i requires 0 <= i < |news| =>
            FetchDetails(Render(ut, news[i]), Hint(i, |news|), Render(pt, Obj(Merge(env, Entries(news[i])))), picker)))
  }

  /** Effects issued, and the exception that ended the issuing, if any. */
  datatype Plan = Plan(effects: seq<Effect>, error: Option<string>)

  /** The requests of each descriptor in turn, up to the first one that throws. */
  function Issue(rs: seq<Result<seq<Effect>>>): Plan
    decreases |rs|
  {
    if rs == [] then Plan([], None)
    else match rs[0]
      case Failure(e) => Plan([], Some(e))
      case Success(ops) =>
        var rest := Issue(rs[1..]);
        Plan(ops + rest.effects, rest.error)
  }

  /** `fetchActivityDetailsAll`: the descriptors in order; one that does not compile
      throws after the requests of the descriptors before it are under way. */
  function DetailsAll(fetches: seq<FetchSpec>, news: seq<Value>, env: Fields, policy: string): Plan {
    Issue(seq(|fetches|, d requires 0 <= d < |fetches| => DetailFetches(fetches[d], news, env, policy)))
  }

  /** The end of `updateActivitiesAll`: nothing when no activity is new; otherwise the
      new activities in front of the old ones are written, and the details fetched
      (`fetchActivityDetailsAllHelper` issues nothing for an empty descriptor list). */
  function UpdateAllPlan(news: seq<Value>, stored: seq<Value>, file: string, fetches: seq<FetchSpec>,
                         env: Fields, policy: string): (r: Plan)
    ensures r.effects == [] <==> news == []
    ensures news != [] ==> r.effects[0] == WriteActivities(file, news + stored)
    ensures r.error.Some? ==> news != [] && fetches != []
  {
    if news == [] then Plan([], None)
    else if fetches == [] then Plan([WriteActivities(file, news + stored)], None)
    else
      var details := DetailsAll(fetches, news, env, policy);
      Plan([WriteActivities(file, news + stored)] + details.effects, details.error)
  }

  /** The search `path`, by default `activities.json`. */
  function SearchPath(path: Option<string>): string {
    match path case Some(p) => p case None => "activities.json"
  }

  /** The activity file: the search path resolved against `{ ...env, ...parameters }`. */
  function ActivitiesFile(path: string, env: Fields, parameters: Fields): (r: Result<string>)
    ensures '{' !in path ==> r == Success(path)
    ensures r.Failure? <==>
      exists k :: 0 <= k < |Placeholders(path).inners| && !HasWordChar(Placeholders(path).inners[k])
  {
    if '{' !in path then
      TemplateWithoutPlaceholder(path, Obj(Merge(env, parameters)));
      EvaluateTemplate(path, Obj(Merge(env, parameters)))
    else EvaluateTemplate(path, Obj(Merge(env, parameters)))
  }

  /** The default file name has no placeholder and is used as it is. */
  lemma DefaultActivitiesFile(path: string, env: Fields, parameters: Fields)
    requires path == SearchPath(None)
    ensures ActivitiesFile(path, env, parameters) == Success("activities.json")
  {
    assert forall i :: 0 <= i < |path| ==> path[i] != '{';
    TemplateWithoutPlaceholder(path, Obj(Merge(env, parameters)));
  }

  /** Compiling each template once and resolving it per activity gives what
      evaluating the template per activity gives: each detail request is for the URL
      template resolved against the activity alone, with the hint, and writes to the
      path template resolved against the environment overlaid with the activity. */
  lemma DetailFetchesMeaning(d: FetchSpec, news: seq<Value>, env: Fields, policy: string)
    ensures DetailFetches(d, news, env, policy).Success? <==>
      TemplateOf(d.url).Success? && TemplateOf(d.path).Success? && CreatePick(policy, d.pick, []).Success?
    ensures DetailFetches(d, news, env, policy).Success? ==>
      forall i :: 0 <= i < |news| ==>
        && Success(DetailFetches(d, news, env, policy).value[i].url) == EvaluateTemplate(d.url, news[i])
        && Success(DetailFetches(d, news, env, policy).value[i].dest)
           == EvaluateTemplate(d.path, Obj(Merge(env, Entries(news[i]))))
        && DetailFetches(d, news, env, policy).value[i].hint == Hint(i, |news|)
        && DetailFetches(d, news, env, policy).value[i].picker == CreatePick(policy, d.pick, []).value
  {
  }

  /** `Issue` ends without an exception exactly when every descriptor compiles, and
      otherwise with the exception of the first one that does not. */
  lemma {:induction false} IssueError(rs: seq<Result<seq<Effect>>>)
    ensures Issue(rs).error.None? <==> forall d :: 0 <= d < |rs| ==> rs[d].Success?
    ensures Issue(rs).error.Some? ==>
      exists d :: 0 <= d < |rs| && rs[d] == Failure(Issue(rs).error.value)
        && forall e :: 0 <= e < d ==> rs[e].Success?
    decreases |rs|
  {
    if rs != [] {
      var tail := rs[1..];
      IssueError(tail);
      assert forall d :: 0 <= d < |tail| ==> tail[d] == rs[d + 1];
      if rs[0].Success? {
        if Issue(rs).error.Some? {
          var d :| 0 <= d < |tail| && tail[d] == Failure(Issue(rs).error.value)
                   && forall e :: 0 <= e < d ==> tail[e].Success?;
          assert forall e :: 1 <= e < d + 1 ==> rs[e] == tail[e - 1];
        } else {
          assert forall d :: 1 <= d < |rs| ==> rs[d] == tail[d - 1];
        }
      } else {
        assert rs[0] == Failure(Issue(rs).error.value);
      }
    }
  }

  /** The blocks one after the other. */
  function Flatten(blocks: seq<seq<Effect>>): (r: seq<Effect>)
    decreases |blocks|
  {
    if blocks == [] then [] else blocks[0] + Flatten(blocks[1..])
  }

  /** Blocks of `n` each flatten to `n` times as many. */
  lemma {:induction false} FlattenLength(blocks: seq<seq<Effect>>, n: nat)
    requires forall d :: 0 <= d < |blocks| ==> |blocks[d]| == n
    ensures |Flatten(blocks)| == |blocks| * n
    decreases |blocks|
  {
    if blocks != [] {
      var tail := blocks[1..];
      assert forall d :: 0 <= d < |tail| ==> tail[d] == blocks[d + 1];
      FlattenLength(tail, n);
      assert |blocks| * n == n + |tail| * n by {
        assert |blocks| == |tail| + 1;
      }
    }
  }

  /** Without an exception, the requests of every descriptor, descriptor by
      descriptor. */
  lemma {:induction false} IssueWithoutError(rs: seq<Result<seq<Effect>>>)
    requires forall d :: 0 <= d < |rs| ==> rs[d].Success?
    ensures Issue(rs) == Plan(Flatten(SuccessValues(rs)), None)
    decreases |rs|
  {
    if rs != [] {
      var tail := rs[1..];
      assert forall d :: 0 <= d < |tail| ==> tail[d] == rs[d + 1];
      IssueWithoutError(tail);
      assert SuccessValues(rs)[1..] == SuccessValues(tail);
    }
  }

  /** Every descriptor compiling, there is one detail request per descriptor and
      activity, descriptor by descriptor; otherwise the exception is that of the
      first descriptor that does not compile. */
  lemma DetailsAllCount(fetches: seq<FetchSpec>, news: seq<Value>, env: Fields, policy: string)
    ensures DetailsAll(fetches, news, env, policy).error.None? <==>
      forall d :: 0 <= d < |fetches| ==> DetailFetches(fetches[d], news, env, policy).Success?
    ensures DetailsAll(fetches, news, env, policy).error.None? ==>
      |DetailsAll(fetches, news, env, policy).effects| == |fetches| * |news|
  {
    var rs := seq(|fetches|, d requires 0 <= d < |fetches| => DetailFetches(fetches[d], news, env, policy));
    assert forall d :: 0 <= d < |fetches| ==> rs[d] == DetailFetches(fetches[d], news, env, policy);
    IssueError(rs);
    if forall d :: 0 <= d < |fetches| ==> DetailFetches(fetches[d], news, env, policy).Success? {
      IssueWithoutError(rs);
      FlattenLength(SuccessValues(rs), |news|);
    }
  }

  /** Nothing is written and nothing fetched when no activity is new; otherwise the
      new activities are written first, in front of the old ones, and without
      descriptors nothing else happens. */
  lemma UpdateAllEffects(news: seq<Value>, stored: seq<Value>, file: string, fetches: seq<FetchSpec>,
                         env: Fields, policy: string)
    ensures news == [] ==> UpdateAllPlan(news, stored, file, fetches, env, policy) == Plan([], None)
    ensures news != [] ==>
      && UpdateAllPlan(news, stored, file, fetches, env, policy).effects != []
      && UpdateAllPlan(news, stored, file, fetches, env, policy).effects[0] == WriteActivities(file, news + stored)
    ensures news != [] && fetches == [] ==>
      UpdateAllPlan(news, stored, file, fetches, env, policy) == Plan([WriteActivities(file, news + stored)], None)
    ensures news != [] && fetches != [] ==>
      UpdateAllPlan(news, stored, file, fetches, env, policy).effects[1..] == DetailsAll(fetches, news, env, policy).effects
  {
    if news != [] && fetches != [] {
      var details := DetailsAll(fetches, news, env, policy);
      assert ([WriteActivities(file, news + stored)] + details.effects)[1..] == details.effects;
    }
  }

  // ---------------------------------------------------------------- toPosixSep

  /** `path.replace(/\\/g, '/')`. */
  function ToPosixSep(path: string): (r: string)
    ensures |r| == |path| && '\\' !in r
  {
    seq(|path|, i requires 0 <= i < |path| => if path[i] == '\\' then '/' else path[i])
  }

  /** Only backslashes change, each into a slash, and converting twice is converting
      once. */
  lemma ToPosixSepMeaning(path: string)
    ensures forall i :: 0 <= i < |path| && path[i] != '\\' ==> ToPosixSep(path)[i] == path[i]
    ensures forall i :: 0 <= i < |path| && path[i] == '\\' ==> ToPosixSep(path)[i] == '/'
    ensures '\\' !in path ==> ToPosixSep(path) == path
    ensures ToPosixSep(ToPosixSep(path)) == ToPosixSep(path)
  {
  }
}
