/**
 * The level table of the game: fifteen kinds of pizza, each with its level,
 * its unscaled radius, the score awarded when a merge creates it, and its image.
 */
module Catalog {
  import opened Wrappers

  datatype PizzaType = PizzaType(level: int, radius: int, score: int, image: string)

  const PizzaTypes: seq<PizzaType> := [
    PizzaType(1, 40, 1, "first.png"),
    PizzaType(2, 60, 3, "two.png"),
    PizzaType(3, 70, 6, "three.png"),
    PizzaType(4, 80, 10, "four.png"),
    PizzaType(5, 90, 15, "five.png"),
    PizzaType(6, 100, 21, "six.png"),
    PizzaType(7, 110, 28, "seven.png"),
    PizzaType(8, 120, 36, "eight.png"),
    PizzaType(9, 130, 45, "nine.png"),
    PizzaType(10, 140, 55, "ten.png"),
    PizzaType(11, 150, 66, "eleven.png"),
    PizzaType(12, 160, 78, "twelve.png"),
    PizzaType(13, 170, 91, "thirdteen.png"),
    PizzaType(14, 180, 105, "fourteen.png"),
    PizzaType(15, 190, 120, "fiveteen.png")
  ]

  /** The number of levels is the size of the table. */
  const MaxLevel: int := |PizzaTypes|

  /** New pieces are drawn from the levels 1..StartingLevels. */
  const StartingLevels: int := 3

  /** A level that has an entry in the table. */
  type Level = l: int | 1 <= l <= MaxLevel witness 1

  /** The table has fifteen rows and row i describes level i + 1. */
  lemma TableShape()
    ensures MaxLevel == 15
    ensures forall i :: 0 <= i < |PizzaTypes| ==> PizzaTypes[i].level == i + 1
  {
  }

  /** Score awarded for creating a pizza of the given level: the triangular number of the level. */
  function ScoreOf(level: Level): (s: int)
    ensures s == level * (level + 1) / 2
  {
    ScoreIsTriangular(level);
    PizzaTypes[level - 1].score
  }

  /** Unscaled radius of a pizza of the given level: 40, then 60 growing by 10 per level. */
  function RadiusOf(level: Level): (r: int)
    ensures r == if level == 1 then 40 else 60 + 10 * (level - 2)
    ensures r >= 40
  {
    RadiusFormula(level);
    PizzaTypes[level - 1].radius
  }

  lemma ScoreIsTriangular(level: Level)
    ensures PizzaTypes[level - 1].score == level * (level + 1) / 2
  {
    var i := level - 1;
    if i < 5 {
      assert i == 0 || i == 1 || i == 2 || i == 3 || i == 4;
    } else if i < 10 {
      assert i == 5 || i == 6 || i == 7 || i == 8 || i == 9;
    } else {
      assert i == 10 || i == 11 || i == 12 || i == 13 || i == 14;
    }
  }

  lemma RadiusFormula(level: Level)
    ensures PizzaTypes[level - 1].radius == if level == 1 then 40 else 60 + 10 * (level - 2)
  {
    var i := level - 1;
    if i < 5 {
      assert i == 0 || i == 1 || i == 2 || i == 3 || i == 4;
    } else if i < 10 {
      assert i == 5 || i == 6 || i == 7 || i == 8 || i == 9;
    } else {
      assert i == 10 || i == 11 || i == 12 || i == 13 || i == 14;
    }
  }

  /** Looking up a level outside 1..MaxLevel yields nothing, as indexing past the table does. */
  function DefinitionFor(level: int): (r: Option<PizzaType>)
    ensures r.Some? <==> 1 <= level <= MaxLevel
    ensures r.Some? ==> r.value.level == level && r.value.radius == RadiusOf(level)
                        && r.value.score == ScoreOf(level)
  {
    if 1 <= level <= MaxLevel then
      TableShape();
      Some(PizzaTypes[level - 1])
    else
      None
  }

  /** A higher level always awards strictly more. */
  lemma {:induction false} ScoreIncreasing(lo: Level, hi: Level)
    requires lo < hi
    ensures ScoreOf(lo) < ScoreOf(hi)
  {
    var a, b := lo * (lo + 1), hi * (hi + 1);
    assert b - a == (hi - lo) * (hi + lo + 1);
    assert (hi - lo) * (hi + lo + 1) >= 2 by {
      assert hi - lo >= 1 && hi + lo + 1 >= 2;
    }
  }

  /** A higher level is always strictly larger. */
  lemma RadiusIncreasing(lo: Level, hi: Level)
    requires lo < hi
    ensures RadiusOf(lo) < RadiusOf(hi)
  {
  }
}
