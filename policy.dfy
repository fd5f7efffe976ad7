/** The ghosts' direction policy (rand_direction) and one ghost's move.
    Every randint the source draws is an input here: the junction coin, the
    "drop the reverse" draw and the successive picks of the rejection loop. */
module Policy {
  import opened Geometry
  import opened Topology
  import opened Registry

  datatype Option<T> = None | Some(value: T)

  /** The random draws one call of rand_direction consumes.
      junctionFlip: randint(0, 1) came up 1 (drawn only on a junction whose way ahead is open);
      avoidReverse: randint(0, 2) came up non-zero, so the reverse is removed;
      picks: the successive randint(0, len(directions) - 1) results of the loop. */
  datatype Draws = Draws(junctionFlip: bool, avoidReverse: bool, picks: seq<nat>)

  /** The directions the loop draws from: all four in the order of DIRECTIONS,
      or, when the reverse is dropped, the other three in that order. */
  function Candidates(d: Dir, avoidReverse: bool): (cs: seq<Dir>)
    ensures avoidReverse ==> |cs| == 3 && Opposite(d) !in cs && forall e :: e != Opposite(d) ==> e in cs
    ensures !avoidReverse ==> |cs| == 4 && forall e :: e in cs
  {
    if avoidReverse then
      match d
      case Right => [Right, Down, Up]
      case Left => [Left, Down, Up]
      case Down => [Right, Left, Down]
      case Up => [Right, Left, Up]
    else
      forall e: Dir ensures e in Directions {
        DirectionsComplete(e);
      }
      Directions
  }

  /** directions.remove(reverse) on a copy of DIRECTIONS leaves exactly the
      three candidates, in their original order. */
  lemma WithoutReverse(d: Dir)
    ensures RemoveFirst(Directions, Opposite(d)) == Candidates(d, true)
  {
    match d
    case Right =>
      RemoveFirstAt(Directions, Left, 1);
      assert Directions[..1] + Directions[2..] == [Right, Down, Up];
    case Left =>
      RemoveFirstAt(Directions, Right, 0);
      assert Directions[..0] + Directions[1..] == [Left, Down, Up];
    case Down =>
      RemoveFirstAt(Directions, Up, 3);
      assert Directions[..3] + Directions[4..] == [Right, Left, Down];
    case Up =>
      RemoveFirstAt(Directions, Down, 2);
      assert Directions[..2] + Directions[3..] == [Right, Left, Up];
  }

  /** The ghost reconsiders its direction: the way ahead is blocked, or it
      stands on a junction and the coin fired. */
  predicate Redecides(walls: seq<Cell>, junctions: seq<Cell>, g: Actor, flip: bool) {
    WillCollide(walls, g.pos, g.dir) || (g.pos in junctions && flip)
  }

  /** Every pick is an index of a candidate list of length n (randint's range). */
  predicate PicksInRange(picks: seq<nat>, n: nat) {
    forall i :: 0 <= i < |picks| ==> picks[i] < n
  }

  /** The rejection loop: the candidate of the first pick that does not collide,
      or None when every pick collides (the source would keep drawing). */
  function FirstFree(walls: seq<Cell>, p: Cell, cs: seq<Dir>, picks: seq<nat>): (r: Option<Dir>)
    requires PicksInRange(picks, |cs|)
    ensures r.None? <==> forall i :: 0 <= i < |picks| ==> WillCollide(walls, p, cs[picks[i]])
    ensures r.Some? ==> !WillCollide(walls, p, r.value) && r.value in cs
    ensures r.Some? ==> exists i :: 0 <= i < |picks| && r.value == cs[picks[i]] &&
                                    forall j :: 0 <= j < i ==> WillCollide(walls, p, cs[picks[j]])
  {
    if picks == [] then None
    else if !WillCollide(walls, p, cs[picks[0]]) then Some(cs[picks[0]])
    else
      var r := FirstFree(walls, p, cs, picks[1..]);
      assert forall i :: 1 <= i < |picks| ==> picks[i] == picks[1..][i - 1];
      r
  }

  /** The draws let rand_direction return: when the ghost reconsiders, the
      picks are valid indices and one of them hits a free candidate. Without
      such a hit the source's loop never ends. */
  predicate Fits(walls: seq<Cell>, junctions: seq<Cell>, g: Actor, r: Draws) {
    Redecides(walls, junctions, g, r.junctionFlip) ==>
      var cs := Candidates(g.dir, r.avoidReverse);
      PicksInRange(r.picks, |cs|) && FirstFree(walls, g.pos, cs, r.picks).Some?
  }

  /** The direction rand_direction returns for ghost g under draws r. */
  function NextDirection(walls: seq<Cell>, junctions: seq<Cell>, g: Actor, r: Draws): (d: Dir)
    requires Fits(walls, junctions, g, r)
    ensures !WillCollide(walls, g.pos, d)
    ensures !Redecides(walls, junctions, g, r.junctionFlip) ==> d == g.dir
    ensures Redecides(walls, junctions, g, r.junctionFlip) && r.avoidReverse ==> d != Opposite(g.dir)
  {
    if Redecides(walls, junctions, g, r.junctionFlip) then
      FirstFree(walls, g.pos, Candidates(g.dir, r.avoidReverse), r.picks).value
    else
      g.dir
  }

  /** A colliding pick is skipped: the loop's outcome from pick i on is its outcome from pick i + 1 on. */
  lemma SkipCollidingPick(walls: seq<Cell>, p: Cell, cs: seq<Dir>, picks: seq<nat>, i: nat)
    requires PicksInRange(picks, |cs|) && i < |picks|
    requires WillCollide(walls, p, cs[picks[i]])
    ensures PicksInRange(picks[i..], |cs|) && PicksInRange(picks[i + 1..], |cs|)
    ensures FirstFree(walls, p, cs, picks[i..]) == FirstFree(walls, p, cs, picks[i + 1..])
  {
    assert picks[i..][1..] == picks[i + 1..];
  }

  /** rand_direction: keep the direction unless blocked or the junction coin
      fires; otherwise draw from the candidates until one does not collide. */
  method RandDirection(walls: seq<Cell>, junctions: seq<Cell>, g: Actor, r: Draws) returns (d: Dir)
    requires Fits(walls, junctions, g, r)
    ensures d == NextDirection(walls, junctions, g, r)
  {
    if WillCollide(walls, g.pos, g.dir) || (g.pos in junctions && r.junctionFlip) {
      var directions := Directions;
      if r.avoidReverse {
        directions := RemoveFirst(directions, Opposite(g.dir));
        WithoutReverse(g.dir);
      }
      assert directions == Candidates(g.dir, r.avoidReverse);
      ghost var outcome := FirstFree(walls, g.pos, directions, r.picks);
      assert r.picks[0..] == r.picks;
      var i := 0;
      d := directions[r.picks[0]];
      while WillCollide(walls, g.pos, d)
        invariant 0 <= i < |r.picks| && d == directions[r.picks[i]]
        invariant PicksInRange(r.picks[i..], |directions|)
        invariant FirstFree(walls, g.pos, directions, r.picks[i..]) == outcome
        decreases |r.picks| - i
      {
        SkipCollidingPick(walls, g.pos, directions, r.picks, i);
        i := i + 1;
        d := directions[r.picks[i]];
      }
      assert r.picks[i..][0] == r.picks[i];
      assert FirstFree(walls, g.pos, directions, r.picks[i..]) == Some(d);
    } else {
      d := g.dir;
    }
  }

  /** One ghost's part of a ghost tick: take the new direction, then move one
      wrapped cell along it. The move never enters a wall and stays on the board. */
  function Advance(walls: seq<Cell>, junctions: seq<Cell>, g: Actor, r: Draws): (h: Actor)
    requires Fits(walls, junctions, g, r)
    ensures h.dir == NextDirection(walls, junctions, g, r) && h.pos == Step(g.pos, h.dir)
    ensures h.pos !in walls && OnBoard(h.pos)
  {
    var d := NextDirection(walls, junctions, g, r);
    WillCollideIffWall(walls, g.pos, d);
    Actor(Step(g.pos, d), d)
  }

  /** In a dead end entered head-on (every exit but the reverse is a wall), a
      ghost that must reconsider and has dropped the reverse can never leave the
      loop: no draws fit. This is why maps must have no dead ends. */
  lemma DeadEndNeverFits(walls: seq<Cell>, junctions: seq<Cell>, g: Actor, r: Draws)
    requires Redecides(walls, junctions, g, r.junctionFlip) && r.avoidReverse
    requires forall e: Dir :: e != Opposite(g.dir) ==> WillCollide(walls, g.pos, e)
    ensures !Fits(walls, junctions, g, r)
  {
    var cs := Candidates(g.dir, r.avoidReverse);
    if PicksInRange(r.picks, |cs|) {
      forall i | 0 <= i < |r.picks| ensures WillCollide(walls, g.pos, cs[r.picks[i]]) {
        assert cs[r.picks[i]] in cs;
      }
    }
  }

  /** With at least two open exits (no dead end), whichever way the reverse
      draw goes some candidate is free, so a single pick of it lets the loop end. */
  lemma TwoExitsAlwaysFit(walls: seq<Cell>, junctions: seq<Cell>, g: Actor, flip: bool, avoidReverse: bool)
    requires OpenExits(walls, g.pos) >= 2
    ensures exists k :: 0 <= k < |Candidates(g.dir, avoidReverse)| &&
                        Fits(walls, junctions, g, Draws(flip, avoidReverse, [k]))
  {
    var cs := Candidates(g.dir, avoidReverse);
    var e: Dir;
    if !WillCollide(walls, g.pos, Right) && Right != Opposite(g.dir) {
      e := Right;
    } else if !WillCollide(walls, g.pos, Left) && Left != Opposite(g.dir) {
      e := Left;
    } else if !WillCollide(walls, g.pos, Down) && Down != Opposite(g.dir) {
      e := Down;
    } else {
      e := Up;
    }
    assert e in cs;
    var k :| 0 <= k < |cs| && cs[k] == e;
    assert FirstFree(walls, g.pos, cs, [k]) == Some(e);
  }
}
