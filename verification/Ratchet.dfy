/** Rank and confidence as a lattice: what repeated guarded writes converge to in any order. */
module Ratchet {

  datatype Level = Level(rank: nat, confidence: real)

  function Higher(a: Level, b: Level): Level {
    Level(if a.rank > b.rank then a.rank else b.rank,
          if a.confidence > b.confidence then a.confidence else b.confidence)
  }

  function Highest(levels: seq<Level>): Level
    requires levels != []
  {
    if |levels| == 1 then levels[0] else Higher(Highest(levels[..|levels| - 1]), levels[|levels| - 1])
  }

  lemma HighestSnoc(levels: seq<Level>, l: Level)
    requires levels != []
    ensures Highest(levels + [l]) == Higher(Highest(levels), l)
  {
    assert (levels + [l])[..|levels|] == levels;
  }

  /** `Highest` is the maximum of the ranks and the maximum of the confidences, both attained. */
  lemma {:induction false} HighestIsMaximum(levels: seq<Level>)
    requires levels != []
    ensures forall l <- levels :: l.rank <= Highest(levels).rank && l.confidence <= Highest(levels).confidence
    ensures exists l <- levels :: l.rank == Highest(levels).rank
    ensures exists l <- levels :: l.confidence == Highest(levels).confidence
    decreases |levels|
  {
    var init, last := levels[..|levels| - 1], levels[|levels| - 1];
    assert levels == init + [last];
    assert last in levels;
    if init != [] {
      HighestIsMaximum(init);
      var r :| r in init && r.rank == Highest(init).rank;
      var c :| c in init && c.confidence == Highest(init).confidence;
      assert r in levels && c in levels;
    }
  }

  function Levels<T>(items: seq<T>, level: T -> Level): (levels: seq<Level>)
    ensures |levels| == |items|
  {
    seq(|items|, i requires 0 <= i < |items| => level(items[i]))
  }

  lemma LevelsSnoc<T>(items: seq<T>, level: T -> Level, item: T)
    ensures Highest(Levels(items + [item], level))
         == if items == [] then level(item) else Higher(Highest(Levels(items, level)), level(item))
  {
    assert Levels(items + [item], level) == Levels(items, level) + [level(item)];
    if items != [] {
      HighestSnoc(Levels(items, level), level(item));
    }
  }

  lemma HighestOf<T>(items: seq<T>, level: T -> Level)
    requires items != []
    ensures forall x <- items :: AtMost(level(x), Highest(Levels(items, level)))
    ensures exists x <- items :: level(x).rank == Highest(Levels(items, level)).rank
    ensures exists x <- items :: level(x).confidence == Highest(Levels(items, level)).confidence
  {
    var levels := Levels(items, level);
    HighestIsMaximum(levels);
    forall x | x in items
      ensures AtMost(level(x), Highest(levels))
    {
      var i :| 0 <= i < |items| && items[i] == x;
      assert levels[i] in levels;
    }
    var r :| r in levels && r.rank == Highest(levels).rank;
    var i :| 0 <= i < |levels| && levels[i] == r;
    assert items[i] in items;
    var c :| c in levels && c.confidence == Highest(levels).confidence;
    var j :| 0 <= j < |levels| && levels[j] == c;
    assert items[j] in items;
  }

  ghost predicate AtMost(a: Level, b: Level) {
    a.rank <= b.rank && a.confidence <= b.confidence
  }

  /** A snapshot that was read earlier adds nothing once the row has moved past it. */
  lemma StaleReadIsHarmless(row: Level, snapshot: Level, submission: Level)
    requires AtMost(snapshot, row)
    ensures Higher(row, Higher(snapshot, submission)) == Higher(row, submission)
  {
  }
}
