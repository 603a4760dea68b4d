/** `RecordSampleEdge` and `sampleEdgeWouldCycle`: a depth-bounded reachability query guards the
    insertion of directed edges. Which cycles that excludes, and which it does not. */
module Samples {
  import opened Text
  import NormalForms

  /** `from` is the source recording, `to` the derivative that samples it. */
  datatype Edge = Edge(from: string, to: string)

  type Graph = set<Edge>

  /** The recursion of the query stops at this depth. */
  const WALK_DEPTH := 8

  // ---------------------------------------------------------------- walks

  /** `path` follows edges of the graph; its length is `|path| - 1`. */
  ghost predicate IsWalk(g: Graph, path: seq<string>) {
    |path| > 0 && forall i | 0 < i < |path| :: Edge(path[i - 1], path[i]) in g
  }

  ghost predicate Joins(g: Graph, path: seq<string>, a: string, b: string) {
    IsWalk(g, path) && path[0] == a && path[|path| - 1] == b
  }

  /** A closed walk of positive length. Cycles are closed walks without repetition. */
  ghost predicate IsClosedWalk(g: Graph, path: seq<string>) {
    |path| > 1 && Joins(g, path, path[0], path[0])
  }

  ghost predicate NoClosedWalkUpTo(g: Graph, length: nat) {
    forall path | IsClosedWalk(g, path) :: |path| - 1 > length
  }

  ghost predicate Acyclic(g: Graph) {
    forall path :: !IsClosedWalk(g, path)
  }

  // ---------------------------------------------------------------- the recursive query

  /** The recordings the query has at this depth. */
  function Level(g: Graph, start: string, depth: nat): set<string> {
    if depth == 0 then {start}
    else
      var before := Level(g, start, depth - 1);
      set e | e in g && e.from in before :: e.to
  }

  /** `sampleEdgeWouldCycle`: an equal pair, or the source among the rows of depth 1 to 8 below
      the derivative. */
  predicate WouldCycle(g: Graph, source: string, derivative: string) {
    source == derivative || exists depth | 1 <= depth <= WALK_DEPTH :: source in Level(g, derivative, depth)
  }

  lemma {:induction false} LevelHasWalk(g: Graph, start: string, depth: nat, node: string) returns (path: seq<string>)
    requires node in Level(g, start, depth)
    ensures Joins(g, path, start, node) && |path| == depth + 1
    decreases depth
  {
    if depth == 0 {
      path := [start];
    } else {
      var e :| e in g && e.from in Level(g, start, depth - 1) && e.to == node;
      path := LevelHasWalk(g, start, depth - 1, e.from);
      path := path + [node];
    }
  }

  lemma {:induction false} WalkIsInLevel(g: Graph, path: seq<string>)
    requires IsWalk(g, path)
    ensures path[|path| - 1] in Level(g, path[0], |path| - 1)
    decreases |path|
  {
    if |path| > 1 {
      WalkIsInLevel(g, path[..|path| - 1]);
      assert Edge(path[|path| - 2], path[|path| - 1]) in g;
    }
  }

  /** The query answers exactly whether a walk of length at most 8 leads from the derivative back
      to the source, so a rejected edge really would close a cycle. */
  lemma WouldCycleExactly(g: Graph, source: string, derivative: string)
    ensures WouldCycle(g, source, derivative) <==>
            exists path :: Joins(g, path, derivative, source) && |path| - 1 <= 8
  {
    if WouldCycle(g, source, derivative) {
      if source == derivative {
        assert Joins(g, [source], derivative, source);
      } else {
        var depth :| 1 <= depth <= 8 && source in Level(g, derivative, depth);
        var path := LevelHasWalk(g, derivative, depth, source);
      }
    }
    forall path | Joins(g, path, derivative, source) && |path| - 1 <= 8
      ensures WouldCycle(g, source, derivative)
    {
      WalkIsInLevel(g, path);
      assert |path| == 1 ==> source == derivative;
    }
  }

  // ---------------------------------------------------------------- what insertion keeps

  /** A walk over one more edge either never needs it, or leads to its start and on from its end
      without it. */
  lemma {:induction false} SplitWalk(g: Graph, e: Edge, path: seq<string>)
    returns (direct: bool, head: seq<string>, tail: seq<string>)
    requires IsWalk(g + {e}, path)
    ensures direct ==> IsWalk(g, path)
    ensures !direct ==> Joins(g, head, path[0], e.from) && Joins(g, tail, e.to, path[|path| - 1])
    ensures !direct ==> |head| + |tail| <= |path|
    decreases |path|
  {
    if |path| == 1 {
      return true, [], [];
    }
    var before, node := path[..|path| - 1], path[|path| - 1];
    direct, head, tail := SplitWalk(g, e, before);
    var step := Edge(path[|path| - 2], node);
    assert step in g + {e};
    if step in g {
      if !direct {
        tail := tail + [node];
      }
    } else {
      head, tail := if direct then before else head, [node];
      direct := false;
    }
  }

  /** A closed walk that needs the new edge, however often, gives a shorter walk without it from
      the end of the edge back to its start. */
  lemma ReturnWalk(g: Graph, e: Edge, path: seq<string>) returns (back: seq<string>)
    requires IsClosedWalk(g + {e}, path) && !IsClosedWalk(g, path)
    ensures Joins(g, back, e.to, e.from) && |back| <= |path| - 1
  {
    var direct, head, tail := SplitWalk(g, e, path);
    back := tail + head[1..];
    forall i | 0 < i < |back|
      ensures Edge(back[i - 1], back[i]) in g
    {
      if i < |tail| {
        assert Edge(tail[i - 1], tail[i]) in g;
      } else {
        var k := i - |tail| + 1;
        assert back[i] == head[k] && back[i - 1] == head[k - 1];
        assert Edge(head[k - 1], head[k]) in g;
      }
    }
  }

  /** The invariant of the guard: no closed walk of length up to the walk depth plus one. */
  lemma AcceptedEdgeKeepsGirth(g: Graph, source: string, derivative: string)
    requires NoClosedWalkUpTo(g, 9) && !WouldCycle(g, source, derivative)
    ensures NoClosedWalkUpTo(g + {Edge(source, derivative)}, 9)
  {
    var e := Edge(source, derivative);
    WouldCycleExactly(g, source, derivative);
    forall path | IsClosedWalk(g + {e}, path)
      ensures |path| - 1 > 9
    {
      if !IsClosedWalk(g, path) {
        var back := ReturnWalk(g, e, path);
      }
    }
  }

  lemma FewerEdgesFewerWalks(small: Graph, big: Graph, length: nat)
    requires small <= big && NoClosedWalkUpTo(big, length)
    ensures NoClosedWalkUpTo(small, length)
  {
    forall path | IsClosedWalk(small, path)
      ensures |path| - 1 > length
    {
      assert IsClosedWalk(big, path);
    }
  }

  /** Recording an edge that is stored already is never rejected. */
  lemma StoredEdgeIsAccepted(g: Graph, e: Edge)
    requires NoClosedWalkUpTo(g, 9) && e in g
    ensures !WouldCycle(g, e.from, e.to)
  {
    WouldCycleExactly(g, e.from, e.to);
    forall path | Joins(g, path, e.to, e.from)
      ensures |path| - 1 > 8
    {
      assert IsClosedWalk(g, path + [e.to]);
    }
  }

  // ---------------------------------------------------------------- runs

  datatype Operation = Record(source: string, derivative: string) | Remove(gone: Graph)

  function Step(g: Graph, op: Operation): Graph {
    match op
    case Record(s, d) => if WouldCycle(g, s, d) then g else g + {Edge(s, d)}
    case Remove(gone) => g - gone
  }

  function Run(ops: seq<Operation>): Graph {
    if ops == [] then {} else Step(Run(ops[..|ops| - 1]), ops[|ops| - 1])
  }

  function Recordings(ops: seq<Operation>): nat {
    if ops == [] then 0
    else Recordings(ops[..|ops| - 1]) + (if ops[|ops| - 1].Record? then 1 else 0)
  }

  /** No reachable graph has a cycle of length 9 or less. */
  lemma {:induction false} ReachableGirth(ops: seq<Operation>)
    ensures NoClosedWalkUpTo(Run(ops), 9)
    decreases |ops|
  {
    if ops != [] {
      var g := Run(ops[..|ops| - 1]);
      ReachableGirth(ops[..|ops| - 1]);
      match ops[|ops| - 1]
      case Record(s, d) =>
        if !WouldCycle(g, s, d) {
          AcceptedEdgeKeepsGirth(g, s, d);
        }
      case Remove(gone) => FewerEdgesFewerWalks(g - gone, g, 9);
    } else {
      NoEdgesNoWalks(9);
    }
  }

  lemma NoEdgesNoWalks(length: nat)
    ensures NoClosedWalkUpTo({}, length)
  {
    forall path
      ensures !IsClosedWalk({}, path)
    {
      if IsClosedWalk({}, path) {
        var cycle := SimpleCycle({}, path);
      }
    }
  }

  lemma {:induction false} RunHasFewEdges(ops: seq<Operation>)
    ensures |Run(ops)| <= Recordings(ops)
    decreases |ops|
  {
    if ops != [] {
      var g := Run(ops[..|ops| - 1]);
      RunHasFewEdges(ops[..|ops| - 1]);
      match ops[|ops| - 1]
      case Record(s, d) =>
        assert Edge(s, d) in g ==> g + {Edge(s, d)} == g;
      case Remove(gone) =>
        assert g == (g - gone) + (g * gone);
    }
  }

  /** The edges a path leaves its first `n` nodes by. */
  ghost function EdgesOf(path: seq<string>, n: nat): Graph
    requires n < |path|
  {
    set i | 0 <= i < n :: Hop(path, i)
  }

  function Hop(path: seq<string>, i: nat): Edge
    requires i + 1 < |path|
  {
    Edge(path[i], path[i + 1])
  }

  lemma {:induction false} DistinctEdges(path: seq<string>, n: nat)
    requires n < |path| && forall i, j | 0 <= i < j < n :: path[i] != path[j]
    ensures |EdgesOf(path, n)| == n
    decreases n
  {
    if n > 0 {
      DistinctEdges(path, n - 1);
      NewEdge(path, n);
    }
  }

  lemma NewEdge(path: seq<string>, n: nat)
    requires 0 < n < |path| && forall i, j | 0 <= i < j < n :: path[i] != path[j]
    ensures Hop(path, n - 1) !in EdgesOf(path, n - 1) && EdgesOf(path, n) == EdgesOf(path, n - 1) + {Hop(path, n - 1)}
  {
    forall i | 0 <= i < n - 1
      ensures Hop(path, i) != Hop(path, n - 1)
    {
      assert path[i] != path[n - 1];
    }
  }

  /** A closed walk contains one without repeated nodes, no longer than there are edges. */
  lemma {:induction false} SimpleCycle(g: Graph, path: seq<string>) returns (cycle: seq<string>)
    requires IsClosedWalk(g, path)
    ensures IsClosedWalk(g, cycle) && |cycle| - 1 <= |g|
    decreases |path|
  {
    var n := |path| - 1;
    if i, j :| 0 <= i < j < n && path[i] == path[j] {
      var inner := path[i..j + 1];
      forall k | 0 < k < |inner|
        ensures Edge(inner[k - 1], inner[k]) in g
      {
        assert inner[k - 1] == path[i + k - 1] && inner[k] == path[i + k];
      }
      cycle := SimpleCycle(g, inner);
    } else {
      DistinctEdges(path, n);
      forall e | e in EdgesOf(path, n)
        ensures e in g
      {
        var i :| 0 <= i < n && e == Hop(path, i);
        assert path[i] == path[(i + 1) - 1];
      }
      SubsetSize(EdgesOf(path, n), g);
      cycle := path;
    }
  }

  lemma SubsetSize(a: Graph, b: Graph)
    requires a <= b
    ensures |a| <= |b|
  {
    assert b == a + (b - a);
  }

  /** A graph of at most nine edges that keeps the invariant is acyclic. */
  lemma SmallGraphIsAcyclic(g: Graph)
    requires NoClosedWalkUpTo(g, 9) && |g| <= 9
    ensures Acyclic(g)
  {
    forall path
      ensures !IsClosedWalk(g, path)
    {
      if IsClosedWalk(g, path) {
        var cycle := SimpleCycle(g, path);
      }
    }
  }

  /** Whatever was recorded, rejected and deleted: a stored graph of at most nine edges is acyclic. */
  lemma NineEdgesAreAcyclic(ops: seq<Operation>)
    requires |Run(ops)| <= 9
    ensures Acyclic(Run(ops))
  {
    ReachableGirth(ops);
    SmallGraphIsAcyclic(Run(ops));
  }

  /** In particular after at most nine recordings, with any deletions between them. */
  lemma NineRecordingsAreAcyclic(ops: seq<Operation>)
    requires Recordings(ops) <= 9
    ensures Acyclic(Run(ops))
  {
    RunHasFewEdges(ops);
    NineEdgesAreAcyclic(ops);
  }

  // ---------------------------------------------------------------- where the guard stops

  /** Recording into an acyclic graph keeps it acyclic exactly when the query rejects the edge or
      the source cannot be reached from the derivative at any depth. */
  lemma RecordKeepsAcyclicExactly(g: Graph, source: string, derivative: string)
    requires Acyclic(g)
    ensures Acyclic(Step(g, Record(source, derivative))) <==>
            WouldCycle(g, source, derivative) || forall path :: !Joins(g, path, derivative, source)
  {
    var e := Edge(source, derivative);
    if path :| Joins(g, path, derivative, source) {
      assert IsWalk(g + {e}, path);
      var closed := path + [derivative];
      forall i | 0 < i < |closed|
        ensures Edge(closed[i - 1], closed[i]) in g + {e}
      {
        assert i < |path| ==> Edge(path[i - 1], path[i]) in g;
      }
      assert IsClosedWalk(g + {e}, closed);
    }
    forall path | IsClosedWalk(g + {e}, path)
      ensures exists back :: Joins(g, back, derivative, source)
    {
      var back := ReturnWalk(g, e, path);
    }
  }

  function Node(k: nat): (id: string)
    ensures |id| == k + 1
  {
    seq(k + 1, _ => 'r')
  }

  function Link(k: nat): Edge {
    Edge(Node(k), Node(k + 1))
  }

  function Chain(m: nat): Graph {
    set k | 0 <= k < m :: Link(k)
  }

  function ChainOps(m: nat): seq<Operation> {
    if m == 0 then [] else ChainOps(m - 1) + [Record(Node(m - 1), Node(m))]
  }

  lemma {:induction false} ChainWalk(m: nat, path: seq<string>, a: nat, i: nat)
    requires IsWalk(Chain(m), path) && path[0] == Node(a) && i < |path|
    ensures path[i] == Node(a + i) && (i > 0 ==> a + i <= m)
    decreases i
  {
    if i > 0 {
      ChainWalk(m, path, a, i - 1);
      assert Edge(path[i - 1], path[i]) in Chain(m);
      var k :| 0 <= k < m && Edge(path[i - 1], path[i]) == Link(k);
      assert |Node(k)| == |Node(a + i - 1)|;
    }
  }

  lemma ChainAccepts(m: nat)
    ensures !WouldCycle(Chain(m), Node(m), Node(m + 1))
  {
    WouldCycleExactly(Chain(m), Node(m), Node(m + 1));
    forall path | IsWalk(Chain(m), path) && path[0] == Node(m + 1)
      ensures path[|path| - 1] != Node(m)
    {
      ChainWalk(m, path, m + 1, |path| - 1);
      assert |path[|path| - 1]| == m + 1 + |path|;
    }
  }

  lemma ChainGrows(m: nat)
    ensures Chain(m + 1) == Chain(m) + {Link(m)}
  {
  }

  lemma {:induction false} ChainIsRecorded(m: nat)
    ensures Run(ChainOps(m)) == Chain(m) && Recordings(ChainOps(m)) == m == |ChainOps(m)|
    decreases m
  {
    if m > 0 {
      ChainIsRecorded(m - 1);
      assert ChainOps(m)[..m - 1] == ChainOps(m - 1);
      ChainAccepts(m - 1);
      ChainGrows(m - 1);
    }
  }

  /** The design calls the stored graph acyclic; ten recordings can store a cycle of ten edges,
      because the walk back along the first nine is one longer than the query looks. */
  lemma TenRecordingsCanCycle()
    ensures exists ops :: Recordings(ops) == 10 && !Acyclic(Run(ops))
  {
    var m := 9;
    ChainIsRecorded(m);
    ClosingEdgeAccepted(m);
    ChainCloses(m);
    AppendedRecording(ChainOps(m), Node(m), Node(0));
  }

  lemma AppendedRecording(ops: seq<Operation>, source: string, derivative: string)
    requires !WouldCycle(Run(ops), source, derivative)
    requires !Acyclic(Run(ops) + {Edge(source, derivative)})
    ensures exists longer :: Recordings(longer) == Recordings(ops) + 1 && !Acyclic(Run(longer))
  {
    var longer := ops + [Record(source, derivative)];
    assert longer[..|longer| - 1] == ops;
    assert Recordings(longer) == Recordings(ops) + 1 && !Acyclic(Run(longer));
  }

  lemma ClosingEdgeAccepted(m: nat)
    requires m > 8
    ensures !WouldCycle(Chain(m), Node(m), Node(0))
  {
    WouldCycleExactly(Chain(m), Node(m), Node(0));
    forall path | Joins(Chain(m), path, Node(0), Node(m))
      ensures |path| - 1 > 8
    {
      ChainWalk(m, path, 0, |path| - 1);
      assert |Node(|path| - 1)| == |Node(m)|;
    }
  }

  lemma ChainCloses(m: nat)
    ensures !Acyclic(Chain(m) + {Edge(Node(m), Node(0))})
  {
    var g := Chain(m) + {Edge(Node(m), Node(0))};
    var cycle := seq(m + 1, i requires 0 <= i => Node(i)) + [Node(0)];
    forall i | 0 < i < |cycle|
      ensures Edge(cycle[i - 1], cycle[i]) in g
    {
      assert i <= m ==> Link(i - 1) in Chain(m);
    }
    assert IsClosedWalk(g, cycle);
  }

  // ---------------------------------------------------------------- the store

  datatype SampleKey = SampleKey(source: string, derivative: string, kind: string)

  datatype SampleRow = SampleRow(sourceOffsetMs: int, derivativeOffsetMs: int, durationMs: int, notes: string)

  datatype RecordResult = Recorded(key: SampleKey) | MissingID | SampleCycle | UnknownRecording

  function DefaultSampleKind(kind: string): string {
    var trimmed := TrimSpace(NormalForms.ToLower(kind));
    if trimmed == "" then "direct_sample" else trimmed
  }

  function EdgeOf(key: SampleKey): Edge {
    Edge(key.source, key.derivative)
  }

  function GraphOf(samples: map<SampleKey, SampleRow>): Graph {
    set key | key in samples :: EdgeOf(key)
  }

  /** The upsert: every column is overwritten, except that empty notes keep the stored ones. */
  function Written(samples: map<SampleKey, SampleRow>, key: SampleKey, row: SampleRow): map<SampleKey, SampleRow> {
    var notes := if row.notes == "" && key in samples then samples[key].notes else row.notes;
    samples[key := row.(notes := notes)]
  }

  /** The stored row: the offsets and the duration are the new ones, and empty notes keep the stored notes. */
  lemma WrittenRow(samples: map<SampleKey, SampleRow>, key: SampleKey, row: SampleRow)
    ensures var after := Written(samples, key, row);
            && after.Keys == samples.Keys + {key} && after - {key} == samples - {key}
            && after[key].sourceOffsetMs == row.sourceOffsetMs
            && after[key].derivativeOffsetMs == row.derivativeOffsetMs && after[key].durationMs == row.durationMs
            && (row.notes != "" ==> after[key].notes == row.notes)
            && (row.notes == "" && key in samples ==> after[key].notes == samples[key].notes)
            && (row.notes == "" && key !in samples ==> after[key].notes == "")
  {
  }

  predicate IsSmall(s: string) {
    forall c <- s :: c < '\U{80}' && !('A' <= c <= 'Z')
  }

  /** The kind of a sample: the default when it is blank, else in small letters and without padding. */
  lemma SampleKindExactly(kind: string, other: string)
    ensures DefaultSampleKind("") == "direct_sample"
    ensures NormalForms.SameButForCase(kind, other) ==> DefaultSampleKind(kind) == DefaultSampleKind(other)
    ensures kind != "" && TrimSpace(kind) == kind && IsSmall(kind) ==> DefaultSampleKind(kind) == kind
  {
    if NormalForms.SameButForCase(kind, other) {
      assert NormalForms.ToLower(kind) == NormalForms.ToLower(other);
    }
    if IsSmall(kind) {
      assert forall i | 0 <= i < |kind| :: kind[i] in kind;
      assert NormalForms.ToLower(kind) == kind;
    }
  }

  lemma WrittenGraph(samples: map<SampleKey, SampleRow>, key: SampleKey, row: SampleRow)
    ensures GraphOf(Written(samples, key, row)) == GraphOf(samples) + {EdgeOf(key)}
  {
    forall e | e in GraphOf(samples) + {EdgeOf(key)}
      ensures e in GraphOf(Written(samples, key, row))
    {
      if e in GraphOf(samples) {
        var k :| k in samples && EdgeOf(k) == e;
        assert k in Written(samples, key, row);
      } else {
        assert key in Written(samples, key, row);
      }
    }
  }

  class SampleStore {
    var recordings: set<string>
    var samples: map<SampleKey, SampleRow>

    ghost predicate Valid()
      reads this
    {
      && NoClosedWalkUpTo(GraphOf(samples), 9)
      && forall key <- samples :: key.source in recordings && key.derivative in recordings
    }

    constructor (recordings: set<string>)
      ensures Valid() && this.recordings == recordings && samples == map[]
    {
      this.recordings, samples := recordings, map[];
      new;
      ReachableGirth([]);
      assert GraphOf(samples) == Run([]);
    }

    /** `RecordSampleEdge` up to the stored row: blank identifiers, a cycle and an unknown recording
        are refused in this order and change nothing. */
    method RecordSampleEdge(sourceID: string, derivativeID: string, kind: string, row: SampleRow)
      returns (result: RecordResult)
      requires Valid()
      modifies this`samples
      ensures Valid()
      ensures result == MissingID <==> IsBlank(sourceID) || IsBlank(derivativeID)
      ensures result == SampleCycle <==>
              && !IsBlank(sourceID) && !IsBlank(derivativeID)
              && WouldCycle(GraphOf(old(samples)), TrimSpace(sourceID), TrimSpace(derivativeID))
      ensures result == UnknownRecording <==>
              && !IsBlank(sourceID) && !IsBlank(derivativeID)
              && !WouldCycle(GraphOf(old(samples)), TrimSpace(sourceID), TrimSpace(derivativeID))
              && !(TrimSpace(sourceID) in recordings && TrimSpace(derivativeID) in recordings)
      ensures !result.Recorded? ==> samples == old(samples)
      ensures result.Recorded? ==>
                && result.key == SampleKey(TrimSpace(sourceID), TrimSpace(derivativeID), DefaultSampleKind(kind))
                && samples == Written(old(samples), result.key, row)
                && samples.Keys == old(samples).Keys + {result.key}
                && samples - {result.key} == old(samples) - {result.key}
                && samples[result.key] == SampleRow(
                     row.sourceOffsetMs, row.derivativeOffsetMs, row.durationMs,
                     if row.notes == "" && result.key in old(samples) then old(samples)[result.key].notes
                     else row.notes)
      ensures result.Recorded? || result.SampleCycle? ==>
                GraphOf(samples) == Step(GraphOf(old(samples)), Record(TrimSpace(sourceID), TrimSpace(derivativeID)))
    {
      var source, derivative := TrimSpace(sourceID), TrimSpace(derivativeID);
      if source == "" || derivative == "" {
        return MissingID;
      }
      var key := SampleKey(source, derivative, DefaultSampleKind(kind));
      if WouldCycle(GraphOf(samples), source, derivative) {
        return SampleCycle;
      }
      if source !in recordings || derivative !in recordings {
        return UnknownRecording;
      }
      WrittenGraph(samples, key, row);
      WrittenRow(samples, key, row);
      AcceptedEdgeKeepsGirth(GraphOf(samples), source, derivative);
      samples := Written(samples, key, row);
      return Recorded(key);
    }

    /** Deleting a recording takes its samples with it. */
    method DeleteRecording(recordingID: string)
      requires Valid()
      modifies this
      ensures Valid()
      ensures recordings == old(recordings) - {recordingID}
      ensures samples == map key | key in old(samples) && recordingID != key.source && recordingID != key.derivative
                                 :: old(samples)[key]
    {
      ghost var before := samples;
      recordings := recordings - {recordingID};
      samples := map key | key in samples && recordingID != key.source && recordingID != key.derivative :: samples[key];
      FewerEdgesFewerWalks(GraphOf(samples), GraphOf(before), 9);
    }
  }
}
