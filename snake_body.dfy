/** The snake's body: a head-first sequence of cells. The source keeps it in a
    singly linked list; here the list's contents are a sequence, and the two
    read-only walks over the list (isSnakeHere, areBlocksColliding) are loops
    over its indices. */
module SnakeBody {
  import opened Geometry

  type Body = seq<Pos>

  datatype Option<T> = None | Some(value: T)

  /** Some segment, head included, sits on `p`. */
  predicate Occupies(body: Body, p: Pos)
  {
    exists i :: 0 <= i < |body| && body[i] == p
  }

  /** The head sits on a segment of index 2 or more. */
  predicate HeadHitsBody(body: Body)
  {
    exists i :: 2 <= i < |body| && body[i] == body[0]
  }

  /** Every two consecutive segments are neighbours. */
  predicate Connected(body: Body)
  {
    forall i :: 0 <= i < |body| - 1 ==> Adjacent(body[i], body[i + 1])
  }

  /** Every segment lies on the 10-pixel grid. */
  predicate AllAligned(body: Body)
  {
    forall i :: 0 <= i < |body| ==> Aligned(body[i])
  }

  function Last(body: Body): Pos
    requires |body| > 0
  {
    body[|body| - 1]
  }

  /** isSnakeHere: walks the list from the head and answers 1 at the first
      segment on `p`, 0 when the walk runs off the end. */
  method IsSnakeHere(body: Body, p: Pos) returns (r: int)
    ensures r == 0 || r == 1
    ensures r == 1 <==> Occupies(body, p)
  {
    var i := 0;
    while i < |body|
      invariant 0 <= i <= |body|
      invariant forall j :: 0 <= j < i ==> body[j] != p
    {
      if body[i] == p {
        return 1;
      }
      i := i + 1;
    }
    return 0;
  }

  /** areBlocksColliding: starts at the second segment and compares the head
      with each segment after it, so the segment right behind the head is
      never compared. The walk dereferences the second node, hence at least
      two segments. */
  method AreBlocksColliding(body: Body) returns (r: int)
    requires |body| >= 2
    ensures r == 0 || r == 1
    ensures r == 1 <==> HeadHitsBody(body)
  {
    var current := 1;
    while current + 1 < |body|
      invariant 1 <= current < |body|
      invariant forall j :: 2 <= j <= current ==> body[j] != body[0]
    {
      current := current + 1;
      if body[0] == body[current] {
        return 1;
      }
    }
    return 0;
  }

  /** Leaving out the segment behind the head loses nothing in a connected
      body: that segment is a neighbour of the head, never on it. So the
      source's test is the "head on any other segment" self-collision test. */
  lemma SkipSecondIsHarmless(body: Body)
    requires |body| >= 2 && Connected(body)
    ensures HeadHitsBody(body) <==> Occupies(body[1..], body[0])
  {
    assert Adjacent(body[0], body[1]);
    if Occupies(body[1..], body[0]) {
      var i :| 0 <= i < |body| - 1 && body[1..][i] == body[0];
      assert body[i + 1] == body[0];
    }
    if HeadHitsBody(body) {
      var i :| 2 <= i < |body| && body[i] == body[0];
      assert body[1..][i - 1] == body[0];
    }
  }

  /** The move of one tick: a new head one cell away in direction `d`,
      prepended, and the last segment dropped (deleteLast). */
  function Advance(body: Body, d: Direction): (r: Body)
    requires |body| >= 2
    ensures |r| == |body|
    ensures Adjacent(body[0], r[0])
    ensures r[1..] == body[..|body| - 1]
  {
    [Step(body[0], d)] + body[..|body| - 1]
  }

  /** The segment eatFood builds when the head is on the apple: the current
      last segment shifted one cell in the direction of travel. */
  function EatFood(body: Body, apple: Pos, d: Direction): (r: Option<Pos>)
    requires |body| >= 1
    ensures r.Some? <==> CellsOverlap(body[0], apple)
    ensures Aligned(body[0]) && Aligned(apple) ==> (r.Some? <==> body[0] == apple)
    ensures r.Some? ==> r.value == Step(Last(body), d) && Adjacent(Last(body), r.value)
  {
    var r := if CellsOverlap(body[0], apple) then Some(Step(Last(body), d)) else None;
    assert Aligned(body[0]) && Aligned(apple) ==> (r.Some? <==> body[0] == apple) by {
      if Aligned(body[0]) && Aligned(apple) {
        AlignedOverlapIsEquality(body[0], apple);
      }
    }
    r
  }

  /** The move keeps the body connected. */
  lemma {:induction false} AdvanceKeepsConnected(body: Body, d: Direction)
    requires |body| >= 2 && Connected(body)
    ensures Connected(Advance(body, d))
  {
    var r := Advance(body, d);
    forall i | 0 <= i < |r| - 1
      ensures Adjacent(r[i], r[i + 1])
    {
      if i == 0 {
        assert r[1] == body[0];
      } else {
        assert r[i] == body[i - 1] && r[i + 1] == body[i];
      }
    }
  }

  /** Appending the segment eatFood builds keeps the body connected. */
  lemma {:induction false} GrowKeepsConnected(body: Body, d: Direction)
    requires |body| >= 1 && Connected(body)
    ensures Connected(body + [Step(Last(body), d)])
  {
    var r := body + [Step(Last(body), d)];
    forall i | 0 <= i < |r| - 1
      ensures Adjacent(r[i], r[i + 1])
    {
      if i < |body| - 1 {
        assert r[i] == body[i] && r[i + 1] == body[i + 1];
      }
    }
  }

  /** The move and the growth keep every segment on the grid. */
  lemma {:induction false} AdvanceKeepsAligned(body: Body, d: Direction)
    requires |body| >= 2 && AllAligned(body)
    ensures AllAligned(Advance(body, d))
  {
    var r := Advance(body, d);
    assert Aligned(body[0]);
    forall i | 0 <= i < |r|
      ensures Aligned(r[i])
    {
      if i > 0 {
        assert r[i] == body[i - 1];
      }
    }
  }

  lemma {:induction false} GrowKeepsAligned(body: Body, d: Direction)
    requires |body| >= 1 && AllAligned(body)
    ensures AllAligned(body + [Step(Last(body), d)])
  {
    var r := body + [Step(Last(body), d)];
    assert Aligned(Last(body));
    forall i | 0 <= i < |r|
      ensures Aligned(r[i])
    {
      if i < |body| {
        assert r[i] == body[i];
      }
    }
  }

  /** When the last two segments lie in a straight line along the direction
      of travel, the grown segment lands on the segment before the last. */
  lemma StraightGrowthOverlaps(body: Body, d: Direction)
    requires |body| >= 2
    requires body[|body| - 2] == Step(Last(body), d)
    ensures EatFood(body, body[0], d) == Some(body[|body| - 2])
  {
  }

  /** On a straight run the overlap lasts one tick: the next move drops the
      grown segment again and the body is the straight run moved by one
      cell, one segment longer than before the meal. */
  lemma {:induction false} OverlapGoneAfterNextMove(body: Body, d: Direction)
    requires |body| >= 2
    requires body[|body| - 2] == Step(Last(body), d)
    ensures Advance(body + [body[|body| - 2]], d) == [Step(body[0], d)] + body
  {
    var grown := body + [body[|body| - 2]];
    assert grown[..|grown| - 1] == body;
  }
}
