/** `EntityGraph`: the recursive walk over claim edges with set union, and the edges it selects. */
module EntityGraph {
  import opened Text
  import opened GraphPages

  datatype ClaimRow = ClaimRow(kind: string, subjectType: string, subjectID: string, objectType: string,
                               objectID: string)

  type Edges = map<string, GraphEdge>

  const DEFAULT_KINDS: seq<string> := ["attribution", "sample", "credit", "cover", "performance"]

  // ---------------------------------------------------------------- claim edges

  /** One end of a claim as a node: a work credit stands for the artist it names, if it names one. */
  function EndType(kind: string): string {
    if kind == "work_credit" then "artist" else kind
  }

  function EndID(credits: map<string, string>, kind: string, id: string): string {
    if kind == "work_credit" && id in credits && credits[id] != "" then credits[id] else id
  }

  function EdgeOf(credits: map<string, string>, claimID: string, c: ClaimRow): GraphEdge {
    GraphEdge(claimID, EndType(c.subjectType), EndID(credits, c.subjectType, c.subjectID),
              EndType(c.objectType), EndID(credits, c.objectType, c.objectID), c.kind)
  }

  /** `claim_edges`: one edge for each claim of a selected kind. */
  function ClaimEdges(claims: map<string, ClaimRow>, credits: map<string, string>, kinds: set<string>): Edges {
    map id | id in claims && claims[id].kind in kinds :: EdgeOf(credits, id, claims[id])
  }

  predicate Touches(e: GraphEdge, node: string) {
    e.fromID == node || e.toID == node
  }

  function OtherEnd(e: GraphEdge, node: string): string {
    if e.fromID == node then e.toID else e.fromID
  }

  // ---------------------------------------------------------------- distance

  ghost predicate Adjacent(edges: Edges, a: string, b: string) {
    exists id <- edges :: Touches(edges[id], a) && OtherEnd(edges[id], a) == b
  }

  /** An undirected walk of `|path| - 1` steps. */
  ghost predicate IsPath(edges: Edges, path: seq<string>, a: string, b: string) {
    && path != [] && path[0] == a && path[|path| - 1] == b
    && forall i | 0 < i < |path| :: Adjacent(edges, path[i - 1], path[i])
  }

  /** The undirected distance from `a` to `b` is less than `bound`. */
  ghost predicate Within(edges: Edges, a: string, b: string, bound: int) {
    exists path :: IsPath(edges, path, a, b) && |path| - 1 < bound
  }

  // ---------------------------------------------------------------- the walk

  /** A row of `walk`. */
  datatype Visit = Visit(entityID: string, depth: nat)

  /** The rows one row adds. */
  function Successors(edges: Edges, v: Visit, depth: int): set<Visit> {
    set id | id in edges && Touches(edges[id], v.entityID) && v.depth < depth ::
      Visit(OtherEnd(edges[id], v.entityID), v.depth + 1)
  }

  ghost predicate IsRow(edges: Edges, start: string, depth: int, v: Visit) {
    && (v.depth == 0 || v.depth <= depth)
    && exists path :: IsPath(edges, path, start, v.entityID) && |path| - 1 == v.depth
  }

  function Nodes(edges: Edges, start: string): set<string> {
    {start} + (set id | id in edges :: edges[id].fromID) + (set id | id in edges :: edges[id].toID)
  }

  /** Every row the walk can hold: this is why it terminates. */
  function AllVisits(edges: Edges, start: string, depth: nat): set<Visit> {
    set node, k | node in Nodes(edges, start) && 0 <= k <= depth :: Visit(node, k)
  }

  lemma SuccessorIsRow(edges: Edges, start: string, depth: int, v: Visit, w: Visit)
    requires IsRow(edges, start, depth, v) && w in Successors(edges, v, depth)
    ensures IsRow(edges, start, depth, w)
  {
    var path :| IsPath(edges, path, start, v.entityID) && |path| - 1 == v.depth;
    var id :| id in edges && Touches(edges[id], v.entityID) && w.entityID == OtherEnd(edges[id], v.entityID);
    assert Adjacent(edges, v.entityID, w.entityID);
    assert IsPath(edges, path + [w.entityID], start, w.entityID);
  }

  /** A set of rows that holds the start and all successors holds every row. */
  lemma {:induction false} ClosedHoldsRow(edges: Edges, start: string, depth: int, rows: set<Visit>,
                                         path: seq<string>, node: string)
    requires Visit(start, 0) in rows
    requires forall v <- rows :: Successors(edges, v, depth) <= rows
    requires IsPath(edges, path, start, node) && (|path| == 1 || |path| - 1 <= depth)
    ensures Visit(node, |path| - 1) in rows
    decreases |path|
  {
    if |path| > 1 {
      var before := path[..|path| - 1];
      var mid := before[|before| - 1];
      ClosedHoldsRow(edges, start, depth, rows, before, mid);
      assert Adjacent(edges, mid, node);
      var id :| id in edges && Touches(edges[id], mid) && OtherEnd(edges[id], mid) == node;
      assert Visit(node, |path| - 1) in Successors(edges, Visit(mid, |path| - 2), depth);
    }
  }

  lemma SuccessorsAreVisits(edges: Edges, start: string, depth: nat, v: Visit)
    requires v in AllVisits(edges, start, depth)
    ensures Successors(edges, v, depth) <= AllVisits(edges, start, depth)
  {
  }

  lemma SuccessorsAreRows(edges: Edges, start: string, depth: nat, v: Visit)
    requires IsRow(edges, start, depth, v)
    ensures forall w <- Successors(edges, v, depth) :: IsRow(edges, start, depth, w)
  {
    forall w | w in Successors(edges, v, depth)
      ensures IsRow(edges, start, depth, w)
    {
      SuccessorIsRow(edges, start, depth, v, w);
    }
  }

  ghost predicate ClosedExcept(edges: Edges, depth: nat, rows: set<Visit>, queue: set<Visit>) {
    forall v <- rows - queue :: Successors(edges, v, depth) <= rows
  }

  /** Every row found so far belongs to the walk, and only those still queued may lack successors. */
  ghost predicate WalkInv(edges: Edges, start: string, depth: nat, rows: set<Visit>, queue: set<Visit>) {
    && queue <= rows <= AllVisits(edges, start, depth) && Visit(start, 0) in rows
    && (forall v <- rows :: IsRow(edges, start, depth, v))
    && ClosedExcept(edges, depth, rows, queue)
  }

  lemma WalkStep(edges: Edges, start: string, depth: nat, rows: set<Visit>, queue: set<Visit>, v: Visit)
    requires WalkInv(edges, start, depth, rows, queue) && v in queue
    ensures var next := Successors(edges, v, depth) - rows;
            WalkInv(edges, start, depth, rows + next, (queue - {v}) + next)
  {
    SuccessorsAreVisits(edges, start, depth, v);
    SuccessorsAreRows(edges, start, depth, v);
    var next := Successors(edges, v, depth) - rows;
    forall w | w in (rows + next) - ((queue - {v}) + next)
      ensures Successors(edges, w, depth) <= rows + next
    {
      assert w == v || w in rows - queue;
    }
  }

  ghost function Unseen(edges: Edges, start: string, depth: nat, rows: set<Visit>): nat {
    |AllVisits(edges, start, depth) - rows|
  }

  lemma WalkProgress(edges: Edges, start: string, depth: nat, rows: set<Visit>, queue: set<Visit>, v: Visit)
    requires WalkInv(edges, start, depth, rows, queue) && v in queue
    ensures var next := Successors(edges, v, depth) - rows;
            if next == {} then rows + next == rows && |(queue - {v}) + next| < |queue|
            else Unseen(edges, start, depth, rows + next) < Unseen(edges, start, depth, rows)
  {
    var next := Successors(edges, v, depth) - rows;
    if next == {} {
      assert (queue - {v}) + next == queue - {v};
    } else {
      SuccessorsAreVisits(edges, start, depth, v);
      MoreSeen(AllVisits(edges, start, depth), rows, next);
    }
  }

  lemma MoreSeen(all: set<Visit>, rows: set<Visit>, next: set<Visit>)
    requires next <= all && next !! rows && next != {}
    ensures |all - (rows + next)| < |all - rows|
  {
    RemovalShrinks(all - rows, next);
    assert all - (rows + next) == (all - rows) - next;
  }

  lemma RemovalShrinks(all: set<Visit>, gone: set<Visit>)
    requires gone <= all && gone != {}
    ensures |all - gone| < |all|
  {
    assert all == (all - gone) + gone;
    assert |gone| > 0;
  }

  /** The recursive query as SQLite runs it: take a row from the queue, and with UNION enqueue only
      rows never seen before. */
  method Walk(edges: Edges, start: string, depth: nat) returns (rows: set<Visit>)
    ensures forall v :: v in rows <==> IsRow(edges, start, depth, v)
  {
    var queue := {Visit(start, 0)};
    rows := queue;
    WalkStart(edges, start, depth);
    while queue != {}
      invariant WalkInv(edges, start, depth, rows, queue)
      decreases Unseen(edges, start, depth, rows), |queue|
    {
      var v :| v in queue;
      var next := Successors(edges, v, depth) - rows;
      WalkStep(edges, start, depth, rows, queue, v);
      WalkProgress(edges, start, depth, rows, queue, v);
      queue, rows := (queue - {v}) + next, rows + next;
    }
    ClosedIsComplete(edges, start, depth, rows);
  }

  lemma WalkStart(edges: Edges, start: string, depth: nat)
    ensures WalkInv(edges, start, depth, {Visit(start, 0)}, {Visit(start, 0)})
  {
    assert IsPath(edges, [start], start, start);
  }

  lemma ClosedIsComplete(edges: Edges, start: string, depth: nat, rows: set<Visit>)
    requires WalkInv(edges, start, depth, rows, {})
    ensures forall v :: v in rows <==> IsRow(edges, start, depth, v)
  {
    forall v | IsRow(edges, start, depth, v)
      ensures v in rows
    {
      var path :| IsPath(edges, path, start, v.entityID) && |path| - 1 == v.depth;
      ClosedHoldsRow(edges, start, depth, rows, path, v.entityID);
    }
  }

  // ---------------------------------------------------------------- the selected edges

  /** The identifiers the query returns, stated without the walk: the claims with an endpoint at a
      distance less than `depth`. */
  ghost function Selected(edges: Edges, start: string, depth: nat): set<string> {
    set id | id in edges
             && (Within(edges, start, edges[id].fromID, depth) || Within(edges, start, edges[id].toID, depth))
  }

  lemma RowIffWithin(edges: Edges, start: string, depth: nat, node: string, rows: set<Visit>)
    requires forall v :: v in rows <==> IsRow(edges, start, depth, v)
    ensures (exists v <- rows :: v.entityID == node && v.depth < depth) <==> Within(edges, start, node, depth)
  {
    forall path | IsPath(edges, path, start, node) && |path| - 1 < depth
      ensures exists v <- rows :: v.entityID == node && v.depth < depth
    {
      assert IsRow(edges, start, depth, Visit(node, |path| - 1));
    }
  }

  method GraphClaimEdges(claims: map<string, ClaimRow>, credits: map<string, string>, kinds: set<string>,
                         entityID: string, depth: nat)
    returns (rows: seq<GraphEdge>)
    ensures var edges := ClaimEdges(claims, credits, kinds);
            && (forall id :: id in Ids(rows) <==> id in Selected(edges, entityID, depth))
            && (forall e <- rows :: e.claimID in edges && e == edges[e.claimID])
    ensures Ascending(Ids(rows))
  {
    var edges := ClaimEdges(claims, credits, kinds);
    var walk := Walk(edges, entityID, depth);
    var found := set id | id in edges && exists v <- walk :: v.depth < depth && Touches(edges[id], v.entityID);
    forall id | id in edges
      ensures id in found <==> id in Selected(edges, entityID, depth)
    {
      RowIffWithin(edges, entityID, depth, edges[id].fromID, walk);
      RowIffWithin(edges, entityID, depth, edges[id].toID, walk);
    }
    var ids := SortIds(found);
    assert forall i | 0 <= i < |ids| :: ids[i] in found;
    assert forall id <- edges :: edges[id].claimID == id;
    rows := seq(|ids|, i requires 0 <= i < |ids| && ids[i] in edges => edges[ids[i]]);
    assert Ids(rows) == ids;
    forall e | e in rows
      ensures e.claimID in edges && e == edges[e.claimID]
    {
      var i :| 0 <= i < |rows| && rows[i] == e;
      assert ids[i] in edges;
    }
  }

  method SortIds(ids: set<string>) returns (sorted: seq<string>)
    ensures Ascending(sorted) && forall id :: id in sorted <==> id in ids
  {
    sorted := [];
    var todo := ids;
    while todo != {}
      invariant Ascending(sorted) && todo <= ids
      invariant forall id :: id in sorted <==> id in ids - todo
      decreases |todo|
    {
      var id :| id in todo;
      sorted, todo := InsertAscending(sorted, id), todo - {id};
    }
  }

  // ---------------------------------------------------------------- monotonicity

  /** More claims and more kinds give more edges, with unchanged ends. */
  lemma ClaimEdgesMonotone(small: map<string, ClaimRow>, big: map<string, ClaimRow>, credits: map<string, string>,
                           fewer: set<string>, more: set<string>)
    requires small.Items <= big.Items && fewer <= more
    ensures ClaimEdges(small, credits, fewer).Items <= ClaimEdges(big, credits, more).Items
  {
    forall item | item in ClaimEdges(small, credits, fewer).Items
      ensures item in ClaimEdges(big, credits, more).Items
    {
      var id := item.0;
      assert (id, small[id]) in small.Items;
      assert (id, small[id]) in big.Items;
      assert ClaimEdges(big, credits, more)[id] == item.1;
    }
  }

  lemma WithinMonotone(small: Edges, big: Edges, a: string, b: string, near: int, far: int)
    requires small.Items <= big.Items && near <= far
    ensures Within(small, a, b, near) ==> Within(big, a, b, far)
  {
    forall path | IsPath(small, path, a, b)
      ensures IsPath(big, path, a, b)
    {
      forall i | 0 < i < |path|
        ensures Adjacent(big, path[i - 1], path[i])
      {
        assert Adjacent(small, path[i - 1], path[i]);
        var id :| id in small && Touches(small[id], path[i - 1]) && OtherEnd(small[id], path[i - 1]) == path[i];
        assert (id, small[id]) in big.Items;
      }
    }
  }

  /** The selected claims grow with the claims, the kinds and the depth. */
  lemma SelectedMonotone(small: map<string, ClaimRow>, big: map<string, ClaimRow>, credits: map<string, string>,
                         fewer: set<string>, more: set<string>, start: string, near: nat, far: nat)
    requires small.Items <= big.Items && fewer <= more && near <= far
    ensures Selected(ClaimEdges(small, credits, fewer), start, near)
         <= Selected(ClaimEdges(big, credits, more), start, far)
  {
    var e, f := ClaimEdges(small, credits, fewer), ClaimEdges(big, credits, more);
    ClaimEdgesMonotone(small, big, credits, fewer, more);
    forall id | id in Selected(e, start, near)
      ensures id in Selected(f, start, far)
    {
      assert (id, e[id]) in f.Items;
      WithinMonotone(e, f, start, e[id].fromID, near, far);
      WithinMonotone(e, f, start, e[id].toID, near, far);
    }
  }

  // ---------------------------------------------------------------- the request

  /** The depth of a request is clamped to 1 .. 3. */
  function ClampDepth(depth: int): nat {
    if depth < 1 then 1 else if depth > 3 then 3 else depth
  }

  /** An empty list of kinds selects all five; an unknown kind selects nothing. */
  function SelectedKinds(kinds: seq<string>): set<string> {
    if kinds == [] then set k | k in DEFAULT_KINDS else set k | k in DEFAULT_KINDS && k in kinds
  }

  ghost function Answer(claims: map<string, ClaimRow>, credits: map<string, string>, entityID: string, depth: int,
                        kinds: seq<string>): set<string> {
    if IsBlank(entityID) then {}
    else Selected(ClaimEdges(claims, credits, SelectedKinds(kinds)), TrimSpace(entityID), ClampDepth(depth))
  }

  /** What a reader asks for, page after page. */
  datatype Query = Query(credits: map<string, string>, entityID: string, depth: int, kinds: seq<string>)

  ghost function Selects(q: Query, claims: map<string, ClaimRow>): set<string> {
    Answer(claims, q.credits, q.entityID, q.depth, q.kinds)
  }

  /** The selected edges in claim identifier order, each as its claim makes it. */
  ghost predicate IsAnswer(listing: seq<GraphEdge>, claims: map<string, ClaimRow>, q: Query) {
    && Ascending(Ids(listing))
    && (forall e <- listing :: e.claimID in claims && e == EdgeOf(q.credits, e.claimID, claims[e.claimID]))
    && forall id :: id in Ids(listing) <==> id in Selects(q, claims)
  }

  // ---------------------------------------------------------------- the answer in terms of the claims

  /** The node that one end of a claim stands for: the artist a work credit names, if it names one. */
  predicate IsEnd(credits: map<string, string>, kind: string, id: string, node: string) {
    if kind == "work_credit" && id in credits && credits[id] != "" then node == credits[id] else node == id
  }

  predicate JoinsNodes(credits: map<string, string>, c: ClaimRow, a: string, b: string) {
    || (IsEnd(credits, c.subjectType, c.subjectID, a) && IsEnd(credits, c.objectType, c.objectID, b))
    || (IsEnd(credits, c.subjectType, c.subjectID, b) && IsEnd(credits, c.objectType, c.objectID, a))
  }

  /** No kinds means all five; otherwise those of the five that are listed. */
  predicate Requested(kinds: seq<string>, kind: string) {
    && (kind == "attribution" || kind == "sample" || kind == "credit" || kind == "cover" || kind == "performance")
    && (kinds == [] || kind in kinds)
  }

  /** A requested claim joins the two nodes, in either direction. */
  ghost predicate Linked(claims: map<string, ClaimRow>, credits: map<string, string>, kinds: seq<string>, a: string,
                         b: string) {
    exists id <- claims :: Requested(kinds, claims[id].kind) && JoinsNodes(credits, claims[id], a, b)
  }

  /** A walk over requested claims. */
  ghost predicate IsTrail(claims: map<string, ClaimRow>, credits: map<string, string>, kinds: seq<string>,
                          nodes: seq<string>) {
    forall i | 0 < i < |nodes| :: Linked(claims, credits, kinds, nodes[i - 1], nodes[i])
  }

  /** A trail of fewer than `depth` steps leads from the start to the node. */
  ghost predicate Nearer(claims: map<string, ClaimRow>, credits: map<string, string>, kinds: seq<string>, start: string,
                         node: string, depth: int) {
    exists nodes: seq<string> ::
      && nodes != [] && nodes[0] == start && nodes[|nodes| - 1] == node && |nodes| - 1 < depth
      && IsTrail(claims, credits, kinds, nodes)
  }

  ghost predicate HasNearEnd(claims: map<string, ClaimRow>, credits: map<string, string>, kinds: seq<string>,
                             start: string, id: string, depth: int) {
    && id in claims && Requested(kinds, claims[id].kind)
    && exists node ::
         && (IsEnd(credits, claims[id].subjectType, claims[id].subjectID, node)
             || IsEnd(credits, claims[id].objectType, claims[id].objectID, node))
         && Nearer(claims, credits, kinds, start, node, depth)
  }

  lemma KindsExactly(kinds: seq<string>, kind: string)
    ensures kind in SelectedKinds(kinds) <==> Requested(kinds, kind)
  {
    assert DEFAULT_KINDS[0] == "attribution" && DEFAULT_KINDS[1] == "sample" && DEFAULT_KINDS[2] == "credit"
        && DEFAULT_KINDS[3] == "cover" && DEFAULT_KINDS[4] == "performance";
  }

  lemma AdjacentExactly(claims: map<string, ClaimRow>, credits: map<string, string>, kinds: seq<string>, a: string,
                        b: string)
    ensures Adjacent(ClaimEdges(claims, credits, SelectedKinds(kinds)), a, b) <==> Linked(claims, credits, kinds, a, b)
  {
    var edges := ClaimEdges(claims, credits, SelectedKinds(kinds));
    forall id | id in claims
      ensures id in edges <==> Requested(kinds, claims[id].kind)
    {
      KindsExactly(kinds, claims[id].kind);
    }
    forall id | id in edges
      ensures Touches(edges[id], a) && OtherEnd(edges[id], a) == b <==> JoinsNodes(credits, claims[id], a, b)
    {
    }
  }

  lemma TrailExactly(claims: map<string, ClaimRow>, credits: map<string, string>, kinds: seq<string>,
                     nodes: seq<string>)
    requires nodes != []
    ensures IsPath(ClaimEdges(claims, credits, SelectedKinds(kinds)), nodes, nodes[0], nodes[|nodes| - 1]) <==>
            IsTrail(claims, credits, kinds, nodes)
  {
    forall i | 0 < i < |nodes|
      ensures Adjacent(ClaimEdges(claims, credits, SelectedKinds(kinds)), nodes[i - 1], nodes[i]) <==>
              Linked(claims, credits, kinds, nodes[i - 1], nodes[i])
    {
      AdjacentExactly(claims, credits, kinds, nodes[i - 1], nodes[i]);
    }
  }

  lemma NearerExactly(claims: map<string, ClaimRow>, credits: map<string, string>, kinds: seq<string>, start: string,
                      node: string, depth: int)
    ensures Within(ClaimEdges(claims, credits, SelectedKinds(kinds)), start, node, depth) <==>
            Nearer(claims, credits, kinds, start, node, depth)
  {
    var edges := ClaimEdges(claims, credits, SelectedKinds(kinds));
    forall nodes: seq<string> | nodes != []
      ensures IsPath(edges, nodes, nodes[0], nodes[|nodes| - 1]) <==> IsTrail(claims, credits, kinds, nodes)
    {
      TrailExactly(claims, credits, kinds, nodes);
    }
  }

  lemma SelectedExactly(claims: map<string, ClaimRow>, credits: map<string, string>, kinds: seq<string>, start: string,
                        id: string, depth: nat)
    ensures id in Selected(ClaimEdges(claims, credits, SelectedKinds(kinds)), start, depth) <==>
            HasNearEnd(claims, credits, kinds, start, id, depth)
  {
    var edges := ClaimEdges(claims, credits, SelectedKinds(kinds));
    if id in claims {
      KindsExactly(kinds, claims[id].kind);
      if id in edges {
        NearerExactly(claims, credits, kinds, start, edges[id].fromID, depth);
        NearerExactly(claims, credits, kinds, start, edges[id].toID, depth);
        assert IsEnd(credits, claims[id].subjectType, claims[id].subjectID, edges[id].fromID);
        assert IsEnd(credits, claims[id].objectType, claims[id].objectID, edges[id].toID);
      }
    }
  }

  /** What a request selects, at each depth: below one like one, above three like three. */
  lemma AnswerExactly(claims: map<string, ClaimRow>, q: Query, id: string)
    requires !IsBlank(q.entityID)
    ensures 1 <= q.depth <= 3 ==>
              (id in Selects(q, claims) <==>
               HasNearEnd(claims, q.credits, q.kinds, TrimSpace(q.entityID), id, q.depth))
    ensures q.depth < 1 ==>
              (id in Selects(q, claims) <==> HasNearEnd(claims, q.credits, q.kinds, TrimSpace(q.entityID), id, 1))
    ensures q.depth > 3 ==>
              (id in Selects(q, claims) <==> HasNearEnd(claims, q.credits, q.kinds, TrimSpace(q.entityID), id, 3))
  {
    SelectedExactly(claims, q.credits, q.kinds, TrimSpace(q.entityID), id, ClampDepth(q.depth));
  }

  /** The edge of a claim: a work credit shows as an artist. */
  predicate ShowsClaim(e: GraphEdge, credits: map<string, string>, id: string, c: ClaimRow) {
    && e.claimID == id && e.kind == c.kind
    && e.fromType == (if c.subjectType == "work_credit" then "artist" else c.subjectType)
    && e.toType == (if c.objectType == "work_credit" then "artist" else c.objectType)
    && IsEnd(credits, c.subjectType, c.subjectID, e.fromID) && IsEnd(credits, c.objectType, c.objectID, e.toID)
  }

  /** The listing holds, in claim identifier order, exactly the requested claims with an end near enough. */
  ghost predicate ListsNear(listing: seq<GraphEdge>, claims: map<string, ClaimRow>, credits: map<string, string>,
                            kinds: seq<string>, start: string, depth: int) {
    && Ascending(Ids(listing))
    && (forall e <- listing :: e.claimID in claims && ShowsClaim(e, credits, e.claimID, claims[e.claimID]))
    && forall id :: id in Ids(listing) <==> HasNearEnd(claims, credits, kinds, start, id, depth)
  }

  lemma AnswerListsNear(listing: seq<GraphEdge>, claims: map<string, ClaimRow>, q: Query, depth: int)
    requires IsAnswer(listing, claims, q) && !IsBlank(q.entityID)
    requires 1 <= depth <= 3 && (q.depth == depth || (q.depth < 1 && depth == 1) || (q.depth > 3 && depth == 3))
    ensures ListsNear(listing, claims, q.credits, q.kinds, TrimSpace(q.entityID), depth)
  {
    forall id
      ensures id in Ids(listing) <==> HasNearEnd(claims, q.credits, q.kinds, TrimSpace(q.entityID), id, depth)
    {
      AnswerExactly(claims, q, id);
    }
  }

  method EntityGraph(claims: map<string, ClaimRow>, credits: map<string, string>, entityID: string, depth: int,
                     kinds: seq<string>, edgeCursor: string)
    returns (result: PageResult)
    ensures IsBlank(entityID) ==> result == Page([], "")
    ensures !IsBlank(entityID) ==> exists listing: seq<GraphEdge> ::
              && IsPage(listing, TrimSpace(edgeCursor), result)
              && IsAnswer(listing, claims, Query(credits, entityID, depth, kinds))
              && (1 <= depth <= 3 ==> ListsNear(listing, claims, credits, kinds, TrimSpace(entityID), depth))
              && (depth < 1 ==> ListsNear(listing, claims, credits, kinds, TrimSpace(entityID), 1))
              && (depth > 3 ==> ListsNear(listing, claims, credits, kinds, TrimSpace(entityID), 3))
  {
    var entity := TrimSpace(entityID);
    if entity == "" {
      return Page([], "");
    }
    var rows := GraphClaimEdges(claims, credits, SelectedKinds(kinds), entity, ClampDepth(depth));
    AnswerListsNear(rows, claims, Query(credits, entityID, depth, kinds),
                    if depth < 1 then 1 else if depth > 3 then 3 else depth);
    result := PaginateGraphEdgeRows(rows, TrimSpace(edgeCursor));
  }

  // ---------------------------------------------------------------- successive requests

  /** `RecordClaim` trims the identifiers it stores and refuses blank ones. */
  predicate TidyIDs(claims: map<string, ClaimRow>) {
    forall id <- claims :: TrimSpace(id) == id != ""
  }

  /** A reader follows the cursor: request `i` finds the table `claims[i]`, sends back the cursor of the
      answer before, which the handler trims, and goes on while the cursor is not empty. */
  ghost predicate Follows(r: Reading, claims: seq<map<string, ClaimRow>>, q: Query) {
    && |claims| == |r.listings| == |r.pages| > 0 && |r.cursors| == |claims| + 1 && r.cursors[0] == ""
    && (forall i | 0 < i < |claims| :: r.cursors[i] != "")
    && forall i | 0 <= i < |claims| ::
         && TidyIDs(claims[i]) && IsAnswer(r.listings[i], claims[i], q)
         && IsPage(r.listings[i], TrimSpace(r.cursors[i]), Page(r.pages[i], r.cursors[i + 1]))
  }

  lemma AnswerIsListing(listing: seq<GraphEdge>, claims: map<string, ClaimRow>, q: Query)
    requires IsAnswer(listing, claims, q) && TidyIDs(claims)
    ensures IsListing(listing) && forall id <- Ids(listing) :: TrimSpace(id) == id
  {
    forall i | 0 <= i < |listing|
      ensures Ids(listing)[i] in claims
    {
      assert listing[i] in listing;
    }
  }

  /** Trimming does not change a cursor that was handed out. */
  lemma HandedOut(r: Reading, claims: seq<map<string, ClaimRow>>, q: Query, i: nat)
    requires Follows(r, claims, q) && i <= |claims|
    ensures TrimSpace(r.cursors[i]) == r.cursors[i]
  {
    if i > 0 && r.cursors[i] != "" {
      var k := i - 1;
      AnswerIsListing(r.listings[k], claims[k], q);
      PageMembers(r.listings[k], TrimSpace(r.cursors[k]), r.pages[k], r.cursors[k + 1]);
    }
  }

  lemma FollowingIsReading(r: Reading, claims: seq<map<string, ClaimRow>>, q: Query)
    requires Follows(r, claims, q)
    ensures IsReading(r) && AreListings(r)
  {
    forall i | 0 <= i < |claims|
      ensures IsListing(r.listings[i]) && TrimSpace(r.cursors[i]) == r.cursors[i]
    {
      AnswerIsListing(r.listings[i], claims[i], q);
      HandedOut(r, claims, q, i);
    }
  }

  ghost predicate SelectedAlways(claims: seq<map<string, ClaimRow>>, q: Query, id: string) {
    forall i | 0 <= i < |claims| :: id in Selects(q, claims[i])
  }

  /** Following the cursor to its end, whatever happens to the claims between the requests: each edge
      comes at most once, in order, none that was never selected, and each that always was. */
  lemma FollowingReturnsEachOnce(r: Reading, claims: seq<map<string, ClaimRow>>, q: Query)
    requires Follows(r, claims, q) && r.cursors[|claims|] == ""
    ensures |r.pages| == |claims| && Ascending(Returned(r, |claims|))
    ensures forall id | SelectedAlways(claims, q, id) :: id in Returned(r, |claims|)
    ensures forall id <- Returned(r, |claims|) :: exists i | 0 <= i < |claims| :: id in Selects(q, claims[i])
  {
    FollowingIsReading(r, claims, q);
    EveryEdgeExactlyOnce(r);
    forall id | SelectedAlways(claims, q, id)
      ensures id in Returned(r, |claims|)
    {
      forall i | 0 <= i < |claims|
        ensures id in Ids(r.listings[i])
      {
        assert id in Selects(q, claims[i]);
      }
      assert Stays(r, |claims|, id);
    }
  }

  lemma SelectsMonotone(q: Query, small: map<string, ClaimRow>, big: map<string, ClaimRow>)
    requires small.Items <= big.Items
    ensures Selects(q, small) <= Selects(q, big)
  {
    var kinds, depth := SelectedKinds(q.kinds), ClampDepth(q.depth);
    SelectedMonotone(small, big, q.credits, kinds, kinds, TrimSpace(q.entityID), depth, depth);
  }

  /** Claims are inserted between the requests and never deleted. */
  ghost predicate OnlyInserted(claims: seq<map<string, ClaimRow>>) {
    forall i | 0 < i < |claims| :: claims[i - 1].Items <= claims[i].Items
  }

  lemma {:induction false} ItemsGrow(claims: seq<map<string, ClaimRow>>, i: nat, j: nat)
    requires OnlyInserted(claims) && i <= j < |claims|
    ensures claims[i].Items <= claims[j].Items
    decreases j
  {
    if i < j {
      ItemsGrow(claims, i, j - 1);
    }
  }

  /** With claims inserted between the requests, all edges of the first request are returned exactly
      once, and nothing beyond those of the last. */
  lemma InsertionsLoseNothing(r: Reading, claims: seq<map<string, ClaimRow>>, q: Query)
    requires Follows(r, claims, q) && OnlyInserted(claims) && r.cursors[|claims|] == ""
    ensures |r.pages| == |claims| && Ascending(Returned(r, |claims|))
    ensures forall id <- Selects(q, claims[0]) :: id in Returned(r, |claims|)
    ensures forall id <- Returned(r, |claims|) :: id in Selects(q, claims[|claims| - 1])
  {
    FollowingReturnsEachOnce(r, claims, q);
    forall i | 0 <= i < |claims|
      ensures Selects(q, claims[0]) <= Selects(q, claims[i]) <= Selects(q, claims[|claims| - 1])
    {
      ItemsGrow(claims, 0, i);
      ItemsGrow(claims, i, |claims| - 1);
      SelectsMonotone(q, claims[0], claims[i]);
      SelectsMonotone(q, claims[i], claims[|claims| - 1]);
    }
    forall id | id in Selects(q, claims[0])
      ensures SelectedAlways(claims, q, id)
    {
    }
  }

  /** With claims inserted between the requests, the next request is not refused. */
  lemma InsertionsKeepCursor(r: Reading, claims: seq<map<string, ClaimRow>>, q: Query, later: map<string, ClaimRow>,
                             listing: seq<GraphEdge>, result: PageResult)
    requires Follows(r, claims, q) && claims[|claims| - 1].Items <= later.Items
    requires IsAnswer(listing, later, q) && IsPage(listing, TrimSpace(r.cursors[|claims|]), result)
    ensures result.Page?
  {
    FollowingIsReading(r, claims, q);
    HandedOut(r, claims, q, |claims|);
    SelectsMonotone(q, claims[|claims| - 1], later);
    CursorStaysKnown(r, listing, result);
  }

  // ---------------------------------------------------------------- more kinds

  /** Asking for more kinds gives every catalog a larger answer exactly when the smaller list is not
      empty, or the larger one is empty too or names all five. */
  lemma KindsMonotoneExactly(fewer: seq<string>, more: seq<string>)
    requires forall k <- fewer :: k in more
    ensures (fewer != [] || more == [] || forall k <- DEFAULT_KINDS :: k in more) <==>
            forall claims, credits, entityID, depth ::
              Answer(claims, credits, entityID, depth, fewer) <= Answer(claims, credits, entityID, depth, more)
  {
    if fewer != [] || more == [] || forall k <- DEFAULT_KINDS :: k in more {
      assert SelectedKinds(fewer) <= SelectedKinds(more);
      forall claims, credits, entityID, depth
        ensures Answer(claims, credits, entityID, depth, fewer) <= Answer(claims, credits, entityID, depth, more)
      {
        SelectedMonotone(claims, claims, credits, SelectedKinds(fewer), SelectedKinds(more), TrimSpace(entityID),
                         ClampDepth(depth), ClampDepth(depth));
      }
    } else {
      var k :| k in DEFAULT_KINDS && k !in more;
      var claim := ClaimRow(k, "quote", "q", "artist", "a");
      LoneClaim(k, claim, fewer, more);
    }
  }

  /** One claim of a kind that the empty list selects and the longer list does not. */
  lemma LoneClaim(k: string, claim: ClaimRow, fewer: seq<string>, more: seq<string>)
    requires k in DEFAULT_KINDS && fewer == [] && more != [] && k !in more
    requires claim == ClaimRow(k, "quote", "q", "artist", "a")
    ensures exists claims, credits, entityID, depth ::
              !(Answer(claims, credits, entityID, depth, fewer) <= Answer(claims, credits, entityID, depth, more))
  {
    var claims, credits := map["c" := claim], map[];
    var edges := ClaimEdges(claims, credits, SelectedKinds(fewer));
    assert edges["c"].fromID == "q";
    assert IsPath(edges, ["q"], "q", "q");
    assert Within(edges, "q", edges["c"].fromID, ClampDepth(1));
    assert TrimSpace("q") == "q";
    assert "c" in Answer(claims, credits, "q", 1, fewer);
    assert "c" !in Answer(claims, credits, "q", 1, more);
  }
}
