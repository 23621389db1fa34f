/** The KCSE grade scale: thirteen symbols from "A" down to "N/A", worth 12 points down to 0. */
module Grades {
  import opened Wrappers

  /** The scale in its table order. */
  const Scale: seq<(string, nat)> := [
    ("A", 12), ("A-", 11), ("B+", 10), ("B", 9), ("B-", 8), ("C+", 7), ("C", 6),
    ("C-", 5), ("D+", 4), ("D", 3), ("D-", 2), ("E", 1), ("N/A", 0)
  ]

  /** `GRADE_POINTS.get(g, 0)`: the points of a symbol on the scale, 0 for anything else. */
  function Points(g: string): (p: nat)
    ensures p <= 12
  {
    if g == "A" then 12 else if g == "A-" then 11 else if g == "B+" then 10
    else if g == "B" then 9 else if g == "B-" then 8 else if g == "C+" then 7
    else if g == "C" then 6 else if g == "C-" then 5 else if g == "D+" then 4
    else if g == "D" then 3 else if g == "D-" then 2 else if g == "E" then 1
    else 0
  }

  /** `Points` reads the scale: the symbol in position `i` is worth `12 - i`, so the scale is
      strictly decreasing and every symbol off the scale is worth 0. */
  lemma PointsReadScale()
    ensures |Scale| == 13
    ensures forall i :: 0 <= i < |Scale| ==> Scale[i].1 == 12 - i && Points(Scale[i].0) == Scale[i].1
    ensures forall g :: (forall i :: 0 <= i < |Scale| ==> Scale[i].0 != g) ==> Points(g) == 0
  {
    forall g | forall i :: 0 <= i < |Scale| ==> Scale[i].0 != g
      ensures Points(g) == 0
    {
      assert Scale[0].0 != g;
      assert Scale[1].0 != g;
      assert Scale[2].0 != g;
      assert Scale[3].0 != g;
      assert Scale[4].0 != g;
      assert Scale[5].0 != g;
      assert Scale[6].0 != g;
      assert Scale[7].0 != g;
      assert Scale[8].0 != g;
      assert Scale[9].0 != g;
      assert Scale[10].0 != g;
      assert Scale[11].0 != g;
      assert Scale[12].0 != g;
    }
  }

  /** The first symbol on the scale worth `p` points, from position `from` on. */
  function SymbolFrom(p: nat, from: nat): (r: Option<string>)
    ensures r.Some? ==> exists i :: from <= i < |Scale| && Scale[i] == (r.value, p)
    ensures r.None? ==> forall i :: from <= i < |Scale| ==> Scale[i].1 != p
    decreases |Scale| - from
  {
    if from >= |Scale| then None
    else if Scale[from].1 == p then Some(Scale[from].0)
    else SymbolFrom(p, from + 1)
  }

  /** `[g for g, q in GRADE_POINTS.items() if q == p][0]`, for the point values the scale has. */
  function SymbolFor(p: nat): (g: string)
    requires p <= 12
    ensures Points(g) == p
  {
    PointsReadScale();
    assert Scale[12 - p].1 == p;
    match SymbolFrom(p, 0)
    case Some(g) => g
    case None => assert false; "E"
  }

  /** Reading a symbol off the scale and mapping its points back gives the symbol again. */
  lemma SymbolForPoints(i: nat)
    requires i < |Scale|
    ensures SymbolFor(Points(Scale[i].0)) == Scale[i].0
  {
    PointsReadScale();
    var g := SymbolFor(Points(Scale[i].0));
    var j :| 0 <= j < |Scale| && Scale[j] == (g, Points(Scale[i].0));
    assert j == i;
  }
}
