/** The ghost and dot lists: finding and removing the first entry on the
    player's cell (player_at_ghost, player_at_dot) and doubling the ghosts. */
module Registry {
  import opened Geometry

  /** The cells the ghosts stand on, in list order. */
  function Positions(gs: seq<Actor>): (ps: seq<Cell>)
    ensures |ps| == |gs| && forall i :: 0 <= i < |gs| ==> ps[i] == gs[i].pos
  {
    seq(|gs|, i requires 0 <= i < |gs| => gs[i].pos)
  }

  /** The index of the first entry equal to x, or |s| when there is none. */
  function FirstIndex<T(==)>(s: seq<T>, x: T): (i: nat)
    ensures i <= |s|
    ensures forall j :: 0 <= j < i ==> s[j] != x
    ensures i < |s| <==> x in s
    ensures i < |s| ==> s[i] == x
  {
    if |s| == 0 then 0
    else if s[0] == x then 0
    else
      var i := FirstIndex(s[1..], x);
      assert forall j :: 1 <= j < |s| ==> s[j] == s[1..][j - 1];
      1 + i
  }

  /** The scan `for e in list: if player.pos == e.pos`: the index of the first
      entry on cell p, or |cells| when no entry is there. */
  method FindFirst(cells: seq<Cell>, p: Cell) returns (i: nat)
    ensures i <= |cells|
    ensures forall j :: 0 <= j < i ==> cells[j] != p
    ensures i < |cells| ==> cells[i] == p
    ensures i == FirstIndex(cells, p)
  {
    i := 0;
    while i < |cells| && cells[i] != p
      invariant i <= |cells|
      invariant forall j :: 0 <= j < i ==> cells[j] != p
    {
      i := i + 1;
    }
  }

  /** The list with entry i taken out; the others keep their order. */
  function RemoveAt<T>(s: seq<T>, i: nat): (r: seq<T>)
    requires i < |s|
    ensures |r| == |s| - 1
    ensures forall j :: 0 <= j < i ==> r[j] == s[j]
    ensures forall j :: i <= j < |r| ==> r[j] == s[j + 1]
  {
    s[..i] + s[i + 1..]
  }

  /** Removing entry i loses exactly one copy of that entry and nothing else. */
  lemma RemoveAtMultiset<T>(s: seq<T>, i: nat)
    requires i < |s|
    ensures multiset(RemoveAt(s, i)) == multiset(s) - multiset{s[i]}
  {
    assert s == s[..i] + [s[i]] + s[i + 1..];
  }

  /** list.remove(x): the first entry equal to x is dropped; the others keep their order. */
  function RemoveFirst<T(==)>(s: seq<T>, x: T): (r: seq<T>)
    requires x in s
    ensures exists k :: 0 <= k < |s| && s[k] == x && x !in s[..k] && r == s[..k] + s[k + 1..]
  {
    var k := FirstIndex(s, x);
    assert x !in s[..k];
    RemoveAt(s, k)
  }

  /** Once the first occurrence of x is known to be at k, list.remove(x) drops entry k. */
  lemma RemoveFirstAt<T>(s: seq<T>, x: T, k: nat)
    requires k < |s| && s[k] == x && x !in s[..k]
    ensures RemoveFirst(s, x) == s[..k] + s[k + 1..]
  {
    assert forall j :: 0 <= j < k ==> s[j] == s[..k][j];
  }

  /** player_at_ghost's update of the ghost list: the first ghost on cell p is
      removed, if there is one; otherwise the list is unchanged. */
  function Capture(gs: seq<Actor>, p: Cell): (r: seq<Actor>)
    ensures p !in Positions(gs) ==> r == gs
    ensures p in Positions(gs) ==>
      exists k :: 0 <= k < |gs| && gs[k].pos == p &&
                  (forall j :: 0 <= j < k ==> gs[j].pos != p) && r == RemoveAt(gs, k)
    ensures forall g :: g in r ==> g in gs
  {
    var k := FirstIndex(Positions(gs), p);
    if k < |gs| then RemoveAt(gs, k) else gs
  }

  /** player_at_dot's update of the dot list: the first dot on cell p is
      removed, if there is one; otherwise the list is unchanged. */
  function Collect(ds: seq<Cell>, p: Cell): (r: seq<Cell>)
    ensures p !in ds ==> r == ds
    ensures p in ds ==> exists k :: 0 <= k < |ds| && ds[k] == p && p !in ds[..k] && r == RemoveAt(ds, k)
    ensures forall c :: c in r ==> c in ds
  {
    var k := FirstIndex(ds, p);
    assert k < |ds| ==> p !in ds[..k];
    if k < |ds| then RemoveAt(ds, k) else ds
  }

  /** The ghosts after one duplication tick: for each of the k ghosts, in order,
      a new ghost is appended on the same cell with the direction its
      constructor drew (spawnDir(i) for the i-th new one). */
  function Duplicated(gs: seq<Actor>, spawnDir: nat -> Dir): (r: seq<Actor>)
    ensures |r| == 2 * |gs|
    ensures r[..|gs|] == gs
    ensures forall i :: 0 <= i < |gs| ==> r[|gs| + i].pos == gs[i].pos
  {
    gs + seq(|gs|, i requires 0 <= i < |gs| => Actor(gs[i].pos, spawnDir(i)))
  }

  /** Building the duplicates one at a time: the (i+1)-th new ghost stands on ghost i's cell. */
  lemma DuplicatedNext(gs: seq<Actor>, spawnDir: nat -> Dir, i: nat)
    requires i < |gs|
    ensures Duplicated(gs, spawnDir)[|gs|..|gs| + i + 1] ==
              Duplicated(gs, spawnDir)[|gs|..|gs| + i] + [Actor(gs[i].pos, spawnDir(i))]
  {
  }

  /** After duplication every ghost stands on a cell some ghost stood on before. */
  lemma DuplicatedCells(gs: seq<Actor>, spawnDir: nat -> Dir)
    ensures forall g :: g in Duplicated(gs, spawnDir) ==> exists h :: h in gs && h.pos == g.pos
  {
    var r := Duplicated(gs, spawnDir);
    forall g | g in r ensures exists h :: h in gs && h.pos == g.pos {
      var i :| 0 <= i < |r| && r[i] == g;
      if i < |gs| {
        assert r[..|gs|][i] == g;
        assert gs[i] in gs;
      } else {
        assert gs[i - |gs|] in gs;
      }
    }
  }

  /** Duplication puts every occupied cell in the list exactly twice as often. */
  lemma DuplicatedDoublesPositions(gs: seq<Actor>, spawnDir: nat -> Dir)
    ensures multiset(Positions(Duplicated(gs, spawnDir))) == multiset(Positions(gs)) + multiset(Positions(gs))
  {
    var r := Duplicated(gs, spawnDir);
    assert Positions(r) == Positions(gs) + Positions(gs);
  }

  /** The ghosts after one duplication tick per entry of spawns, in order. */
  function DuplicatedTimes(gs: seq<Actor>, spawns: seq<nat -> Dir>): seq<Actor> {
    if spawns == [] then gs else Duplicated(DuplicatedTimes(gs, spawns[..|spawns| - 1]), spawns[|spawns| - 1])
  }

  function Pow2(n: nat): nat {
    if n == 0 then 1 else 2 * Pow2(n - 1)
  }

  /** n duplication ticks without captures turn k ghosts into k * 2^n. */
  lemma {:induction false} DuplicatedTimesCount(gs: seq<Actor>, spawns: seq<nat -> Dir>)
    ensures |DuplicatedTimes(gs, spawns)| == |gs| * Pow2(|spawns|)
  {
    if spawns != [] {
      var n := |spawns| - 1;
      DuplicatedTimesCount(gs, spawns[..n]);
      var k := |gs|;
      calc {
        |DuplicatedTimes(gs, spawns)|;
        2 * |DuplicatedTimes(gs, spawns[..n])|;
        2 * (k * Pow2(n));
        { assert 2 * (k * Pow2(n)) == k * (2 * Pow2(n)); }
        k * Pow2(n + 1);
      }
    }
  }
}
