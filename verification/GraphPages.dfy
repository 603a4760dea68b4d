/** `paginateGraphEdgeRows`: pages of one hundred edges, with the last claim identifier of a page as
    the cursor of the next, even while claims are being inserted between requests. */
module GraphPages {
  import opened Text

  datatype GraphEdge = GraphEdge(claimID: string, fromType: string, fromID: string, toType: string, toID: string,
                                 kind: string)

  const PAGE_SIZE := 100

  datatype PageResult = Page(edges: seq<GraphEdge>, nextCursor: string) | UnknownCursor

  function Ids(edges: seq<GraphEdge>): (ids: seq<string>)
    ensures |ids| == |edges| && forall i | 0 <= i < |edges| :: ids[i] == edges[i].claimID
  {
    seq(|edges|, i requires 0 <= i < |edges| => edges[i].claimID)
  }

  /** A result of the query: ordered by claim identifier, one row a claim, no empty identifier. */
  ghost predicate IsListing(edges: seq<GraphEdge>) {
    Ascending(Ids(edges)) && "" !in Ids(edges)
  }

  /** The page that starts at an index. */
  function PageFrom(edges: seq<GraphEdge>, start: nat): PageResult {
    if start >= |edges| then Page([], "")
    else if start + PAGE_SIZE >= |edges| then Page(edges[start..], "")
    else Page(edges[start..start + PAGE_SIZE], edges[start + PAGE_SIZE - 1].claimID)
  }

  /** The page behind a cursor: from the beginning when it is empty, else behind the edge it names. */
  ghost predicate IsPage(edges: seq<GraphEdge>, cursor: string, result: PageResult) {
    if cursor == "" then result == PageFrom(edges, 0)
    else if cursor !in Ids(edges) then result == UnknownCursor
    else exists i | 0 <= i < |edges| ::
        edges[i].claimID == cursor && cursor !in Ids(edges[..i]) && result == PageFrom(edges, i + 1)
  }

  method PaginateGraphEdgeRows(edges: seq<GraphEdge>, cursor: string) returns (result: PageResult)
    ensures IsPage(edges, cursor, result)
  {
    var start := 0;
    if cursor != "" {
      var found := false;
      for i := 0 to |edges|
        invariant !found && cursor !in Ids(edges[..i])
      {
        if edges[i].claimID == cursor {
          start := i + 1;
          found := true;
          break;
        }
        assert edges[..i + 1] == edges[..i] + [edges[i]];
        assert Ids(edges[..i + 1]) == Ids(edges[..i]) + [edges[i].claimID];
      }
      if !found {
        assert edges[..|edges|] == edges;
        return UnknownCursor;
      }
      assert Ids(edges)[start - 1] == cursor;
    }
    if start >= |edges| {
      return Page([], "");
    }
    var end := start + PAGE_SIZE;
    if end >= |edges| {
      return Page(edges[start..], "");
    }
    return Page(edges[start..end], edges[end - 1].claimID);
  }

  // ---------------------------------------------------------------- following the cursor

  /** Requests `0 .. n`: request `i` sees `listings[i]` with `cursors[i]`, returns `pages[i]` and hands
      out `cursors[i + 1]`; it is made because the cursor before it was not empty. */
  datatype Reading = Reading(listings: seq<seq<GraphEdge>>, cursors: seq<string>, pages: seq<seq<GraphEdge>>)

  ghost predicate IsReading(r: Reading) {
    && |r.cursors| == |r.listings| + 1 && |r.pages| == |r.listings|
    && r.cursors[0] == ""
    && (forall i | 0 < i < |r.listings| :: r.cursors[i] != "")
    && forall i | 0 <= i < |r.listings| :: IsPage(r.listings[i], r.cursors[i], Page(r.pages[i], r.cursors[i + 1]))
  }

  ghost predicate AreListings(r: Reading) {
    forall i | 0 <= i < |r.listings| :: IsListing(r.listings[i])
  }

  /** The edge is there at each of the first `n` requests. */
  ghost predicate Stays(r: Reading, n: nat, id: string)
    requires n <= |r.listings|
  {
    forall i | 0 <= i < n :: id in Ids(r.listings[i])
  }

  ghost predicate Includes(small: seq<GraphEdge>, big: seq<GraphEdge>) {
    forall id <- Ids(small) :: id in Ids(big)
  }

  /** Everything the first `n` requests returned, in order. */
  function Returned(r: Reading, n: nat): seq<string>
    requires n <= |r.pages|
  {
    if n == 0 then [] else Returned(r, n - 1) + Ids(r.pages[n - 1])
  }

  /** `behind` a cursor: nothing, when it is empty; else up to the edge it names. */
  ghost predicate UpTo(id: string, cursor: string) {
    id == cursor || Less(id, cursor)
  }

  lemma OrderOfIndices(ids: seq<string>, p: nat, q: nat)
    requires Ascending(ids) && p < |ids| && q < |ids|
    ensures Less(ids[p], ids[q]) <==> p < q
    ensures ids[p] == ids[q] <==> p == q
  {
    LessIrreflexive(ids[p]);
    if p < q {
      LessAsymmetric(ids[p], ids[q]);
    } else if q < p {
      LessAsymmetric(ids[q], ids[p]);
    }
  }

  lemma InSlice(ids: seq<string>, lo: nat, hi: nat, q: nat)
    requires Ascending(ids) && lo <= hi <= |ids| && q < |ids|
    ensures ids[q] in ids[lo..hi] <==> lo <= q < hi
  {
    if lo <= q < hi {
      assert ids[lo..hi][q - lo] == ids[q];
    }
    forall k | 0 <= k < hi - lo
      ensures ids[lo..hi][k] == ids[q] ==> lo + k == q
    {
      OrderOfIndices(ids, lo + k, q);
    }
  }

  lemma PageFromIsSlice(edges: seq<GraphEdge>, start: nat, page: seq<GraphEdge>, next: string)
    requires "" !in Ids(edges) && start <= |edges| && PageFrom(edges, start) == Page(page, next)
    ensures start + |page| <= |edges| && Ids(page) == Ids(edges)[start..start + |page|]
    ensures if next == "" then start + |page| == |edges| else |page| > 0 && Ids(edges)[start + |page| - 1] == next
  {
    if start + PAGE_SIZE < |edges| {
      assert Ids(edges)[start + PAGE_SIZE - 1] in Ids(edges);
    }
  }

  lemma PageStart(edges: seq<GraphEdge>, cursor: string, result: PageResult) returns (start: nat)
    requires IsPage(edges, cursor, result) && result.Page?
    ensures start <= |edges| && result == PageFrom(edges, start)
    ensures if cursor == "" then start == 0 else start > 0 && edges[start - 1].claimID == cursor
  {
    start := 0;
    if cursor != "" {
      var i :| 0 <= i < |edges| && edges[i].claimID == cursor && result == PageFrom(edges, i + 1);
      start := i + 1;
    }
  }

  lemma PageIsSlice(edges: seq<GraphEdge>, cursor: string, page: seq<GraphEdge>, next: string)
    returns (start: nat, end: nat)
    requires IsListing(edges) && IsPage(edges, cursor, Page(page, next))
    ensures start <= end <= |edges| && Ids(page) == Ids(edges)[start..end]
    ensures if cursor == "" then start == 0 else start > 0 && Ids(edges)[start - 1] == cursor
    ensures if next == "" then end == |edges| else start < end && Ids(edges)[end - 1] == next
  {
    start := PageStart(edges, cursor, Page(page, next));
    PageFromIsSlice(edges, start, page, next);
    end := start + |page|;
  }

  /** A page holds exactly the listed identifiers behind its cursor, up to the next one. */
  lemma PageMembers(edges: seq<GraphEdge>, cursor: string, page: seq<GraphEdge>, next: string)
    requires IsListing(edges) && IsPage(edges, cursor, Page(page, next))
    ensures Ascending(Ids(page)) && (next != "" ==> next in Ids(page))
    ensures forall id :: id in Ids(page) <==>
              && id in Ids(edges)
              && (cursor == "" || Less(cursor, id)) && (next == "" || UpTo(id, next))
  {
    var ids := Ids(edges);
    var start, end := PageIsSlice(edges, cursor, page, next);
    SliceMembers(ids, start, end, cursor, next);
    if next != "" {
      assert ids[start..end][end - 1 - start] == next;
    }
  }

  /** A page holds at most a hundred edges, and exactly a hundred when it hands out a cursor. */
  lemma PageLength(edges: seq<GraphEdge>, cursor: string, page: seq<GraphEdge>, next: string)
    requires IsPage(edges, cursor, Page(page, next)) && "" !in Ids(edges)
    ensures |page| <= 100 && (next != "" ==> |page| == 100)
    ensures next == "" && page != [] ==> page[|page| - 1] == edges[|edges| - 1]
  {
    var start := PageStart(edges, cursor, Page(page, next));
    if start + 100 < |edges| {
      assert Ids(edges)[start + 100 - 1] in Ids(edges);
    }
  }

  lemma SliceMembers(ids: seq<string>, start: nat, end: nat, cursor: string, next: string)
    requires Ascending(ids) && start <= end <= |ids|
    requires if cursor == "" then start == 0 else start > 0 && ids[start - 1] == cursor
    requires if next == "" then end == |ids| else start < end && ids[end - 1] == next
    ensures forall id :: id in ids[start..end] <==>
              id in ids && (cursor == "" || Less(cursor, id)) && (next == "" || UpTo(id, next))
  {
    forall q | 0 <= q < |ids|
      ensures ids[q] in ids[start..end] <==>
              (cursor == "" || Less(cursor, ids[q])) && (next == "" || UpTo(ids[q], next))
    {
      InSlice(ids, start, end, q);
      if cursor != "" {
        OrderOfIndices(ids, start - 1, q);
      }
      if next != "" {
        OrderOfIndices(ids, q, end - 1);
      }
    }
  }

  /** After `n` requests: the returned identifiers ascend, none is behind the cursor handed out, and
      every identifier up to that cursor that was there at each request is among them. */
  ghost predicate Progress(r: Reading, n: nat)
    requires IsReading(r) && n <= |r.listings|
  {
    var done, cursor := Returned(r, n), r.cursors[n];
    && Ascending(done)
    && (cursor != "" ==> cursor in done && forall id <- done :: UpTo(id, cursor))
    && forall id | Stays(r, n, id) && n > 0 && (cursor == "" || UpTo(id, cursor)) :: id in done
  }

  lemma AscendingAppend(xs: seq<string>, ys: seq<string>, cursor: string)
    requires Ascending(xs) && Ascending(ys)
    requires forall x <- xs :: UpTo(x, cursor)
    requires forall y <- ys :: Less(cursor, y)
    ensures Ascending(xs + ys)
  {
    forall i, j | 0 <= i < |xs| && 0 <= j < |ys|
      ensures Less(xs[i], ys[j])
    {
      assert xs[i] in xs && ys[j] in ys;
      if xs[i] != cursor {
        LessTransitive(xs[i], cursor, ys[j]);
      }
    }
  }

  lemma ProgressStep(r: Reading, n: nat)
    requires IsReading(r) && AreListings(r) && n < |r.listings| && Progress(r, n)
    ensures Progress(r, n + 1)
  {
    var done, cursor, next := Returned(r, n), r.cursors[n], r.cursors[n + 1];
    var page := Ids(r.pages[n]);
    PageMembers(r.listings[n], cursor, r.pages[n], next);
    if n > 0 {
      AscendingAppend(done, page, cursor);
    } else {
      assert done + page == page;
    }
    if next != "" {
      forall id | id in done + page
        ensures UpTo(id, next)
      {
        if id in done && id != cursor {
          LessTransitive(id, cursor, next);
        }
      }
    }
    forall id | Stays(r, n + 1, id) && (next == "" || UpTo(id, next))
      ensures id in done + page
    {
      assert Stays(r, n, id) && id in Ids(r.listings[n]);
      if cursor != "" {
        LessTotal(id, cursor);
      }
    }
  }

  lemma {:induction false} ProgressAlways(r: Reading, n: nat)
    requires IsReading(r) && AreListings(r) && n <= |r.listings|
    ensures Progress(r, n)
    decreases n
  {
    if n > 0 {
      ProgressAlways(r, n - 1);
      ProgressStep(r, n - 1);
    }
  }

  /** Nothing is returned that was not there. */
  lemma {:induction false} ReturnedWasListed(r: Reading, n: nat, id: string)
    requires IsReading(r) && AreListings(r) && n <= |r.listings| && id in Returned(r, n)
    ensures exists i | 0 <= i < n :: id in Ids(r.listings[i])
    decreases n
  {
    if id in Ids(r.pages[n - 1]) {
      PageMembers(r.listings[n - 1], r.cursors[n - 1], r.pages[n - 1], r.cursors[n]);
    } else {
      ReturnedWasListed(r, n - 1, id);
    }
  }

  /** Following the cursor to its end, whatever is inserted or deleted between the requests: the
      identifiers come in ascending order, hence each at most once, all of them were listed, and none
      that was there at every request is missing. */
  lemma EveryEdgeExactlyOnce(r: Reading)
    requires IsReading(r) && AreListings(r) && |r.listings| > 0
    requires r.cursors[|r.listings|] == ""
    ensures Ascending(Returned(r, |r.listings|))
    ensures forall i, j | 0 <= i < j < |Returned(r, |r.listings|)| ::
              Returned(r, |r.listings|)[i] != Returned(r, |r.listings|)[j]
    ensures forall id | Stays(r, |r.listings|, id) :: id in Returned(r, |r.listings|)
    ensures forall id <- Returned(r, |r.listings|) :: exists i | 0 <= i < |r.listings| :: id in Ids(r.listings[i])
  {
    var n := |r.listings|;
    ProgressAlways(r, n);
    forall i, j | 0 <= i < j < |Returned(r, n)|
      ensures Returned(r, n)[i] != Returned(r, n)[j]
    {
      OrderOfIndices(Returned(r, n), i, j);
    }
    forall id | id in Returned(r, n)
      ensures exists i | 0 <= i < n :: id in Ids(r.listings[i])
    {
      ReturnedWasListed(r, n, id);
    }
  }

  /** A cursor that was handed out is refused exactly when its edge is gone, so never as long as no
      edge of the last listing is. */
  lemma CursorStaysKnown(r: Reading, next: seq<GraphEdge>, result: PageResult)
    requires IsReading(r) && AreListings(r) && |r.listings| > 0
    requires IsPage(next, r.cursors[|r.listings|], result)
    ensures result.Page? <==> r.cursors[|r.listings|] == "" || r.cursors[|r.listings|] in Ids(next)
    ensures Includes(r.listings[|r.listings| - 1], next) ==> result.Page?
  {
    var last := |r.listings| - 1;
    PageMembers(r.listings[last], r.cursors[last], r.pages[last], r.cursors[last + 1]);
  }

  /** The whole reading of a catalog that does not change. */
  function ReadAll(edges: seq<GraphEdge>, start: nat): seq<seq<GraphEdge>>
    decreases |edges| - start
  {
    var Page(page, next) := PageFrom(edges, start);
    if next == "" || start >= |edges| then [page] else [page] + ReadAll(edges, start + PAGE_SIZE)
  }

  function Concat(pages: seq<seq<GraphEdge>>): seq<GraphEdge> {
    if pages == [] then [] else pages[0] + Concat(pages[1..])
  }

  /** Reading an unchanged catalog stops, returns it page by page, and needs one request for every
      hundred edges or part of a hundred, and one for an empty list. */
  lemma {:induction false} ReadAllIsWhole(edges: seq<GraphEdge>, start: nat)
    requires IsListing(edges) && start <= |edges|
    ensures Concat(ReadAll(edges, start)) == edges[start..]
    ensures (|ReadAll(edges, start)| - 1) * 100 <= |edges| - start <= |ReadAll(edges, start)| * 100
    ensures start < |edges| ==> (|ReadAll(edges, start)| - 1) * 100 < |edges| - start
    decreases |edges| - start
  {
    var Page(page, next) := PageFrom(edges, start);
    var pages := ReadAll(edges, start);
    assert next != "" ==> start + 100 < |edges|;
    if start + 100 < |edges| {
      assert Ids(edges)[start + 100 - 1] == next;
      ReadAllIsWhole(edges, start + 100);
      assert pages[1..] == ReadAll(edges, start + 100);
      assert edges[start..] == page + edges[start + 100..];
    } else {
      assert pages == [page] && pages[1..] == [];
      assert page == edges[start..];
    }
  }
}
