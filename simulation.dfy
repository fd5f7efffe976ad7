/** The game state and its event handling (Game.play without drawing):
    player moves, ghost moves, captures, dot collection, duplication, key
    turns and the win/lose check that closes every frame. */
module Simulation {
  import opened Geometry
  import opened Topology
  import opened Policy
  import opened Registry

  /** The game is lost once this many ghosts exist. */
  const GhostLimit: nat := 50
  /** Score for removing a ghost. */
  const GhostReward: int := 10
  /** Score for collecting a dot. */
  const DotReward: int := 1

  datatype Verdict = Running | Won | Lost

  /** The check at the end of every frame: no dots left wins, even with 50 or
      more ghosts; otherwise 50 or more ghosts loses. */
  function Outcome(dotCount: nat, ghostCount: nat): (v: Verdict)
    ensures v == Won <==> dotCount == 0
    ensures v == Lost <==> dotCount > 0 && ghostCount >= GhostLimit
    ensures v == Running <==> dotCount > 0 && ghostCount < GhostLimit
  {
    if dotCount == 0 then Won
    else if ghostCount >= GhostLimit then Lost
    else Running
  }

  /** One event from the queue, with the random draws it will consume. */
  datatype Event =
    | Quit
    | MovePlayerTick
    | MoveGhostsTick(draws: nat -> Draws)   // draws(i): what rand_direction draws for ghost i
    | DuplicateTick(spawnDir: nat -> Dir)   // spawnDir(i): the direction drawn for the i-th new ghost
    | TurnKey(dir: Dir)                     // an arrow, WASD or keypad key, already mapped to its direction
    | Backspace
    | OtherEvent

  /** How a frame ended: Hang when a ghost tick's given draws do not let
      rand_direction return, or Done when every event was handled, with whether
      a quit was seen and the verdict of the end-of-frame check. */
  datatype FrameEnd = Hang | Done(quit: bool, verdict: Verdict)

  /** The play loop stops after this frame. */
  predicate GameOver(end: FrameEnd) {
    end.Hang? || end.quit || end.verdict != Running
  }

  /** One ghost and no captures: after five duplication ticks (32 ghosts) the
      game still runs, after six (64 ghosts) it is lost while dots remain. */
  lemma OneGhostLosesAfterSixDuplications(g: Actor, spawns: seq<nat -> Dir>, dotCount: nat)
    requires dotCount > 0
    ensures |spawns| == 5 ==> Outcome(dotCount, |DuplicatedTimes([g], spawns)|) == Running
    ensures |spawns| == 6 ==> Outcome(dotCount, |DuplicatedTimes([g], spawns)|) == Lost
  {
    DuplicatedTimesCount([g], spawns);
    assert Pow2(5) == 32 && Pow2(6) == 64;
  }

  /** What play changes: the player, the ghosts, the remaining dots and the score.
      The walls and junctions are fixed after set-up and are passed alongside. */
  datatype State = State(player: Actor, ghosts: seq<Actor>, dots: seq<Cell>, score: int)

  /** Invariants every event keeps: the player stays on the board, the score
      is never negative, and no ghost or dot is ever on a wall cell. */
  predicate Consistent(walls: seq<Cell>, s: State) {
    && OnBoard(s.player.pos)
    && s.score >= 0
    && (forall g :: g in s.ghosts ==> g.pos !in walls)
    && (forall c :: c in s.dots ==> c !in walls)
  }

  /** Every ghost's draws let rand_direction return. */
  predicate DrawsFit(walls: seq<Cell>, junctions: seq<Cell>, gs: seq<Actor>, draws: nat -> Draws) {
    forall i :: 0 <= i < |gs| ==> Fits(walls, junctions, gs[i], draws(i))
  }

  /** The player's part of a MOVE_PLAYER tick. */
  function PlayerMoved(walls: seq<Cell>, p: Actor): (q: Actor)
    ensures q.dir == p.dir
    ensures q.pos == if Step(p.pos, p.dir) in walls then p.pos else Step(p.pos, p.dir)
  {
    WillCollideIffWall(walls, p.pos, p.dir);
    if !WillCollide(walls, p.pos, p.dir) then p.(pos := Step(p.pos, p.dir)) else p
  }

  /** A direction key: the player turns to d only if one step along d does not collide. */
  function PlayerTurned(walls: seq<Cell>, p: Actor, d: Dir): (q: Actor)
    ensures q.pos == p.pos
    ensures q.dir == if Step(p.pos, d) in walls then p.dir else d
  {
    WillCollideIffWall(walls, p.pos, d);
    if !WillCollide(walls, p.pos, d) then p.(dir := d) else p
  }

  /** The ghosts' part of a MOVE_GHOSTS tick: ghost i advances under draws(i). */
  function GhostsMoved(walls: seq<Cell>, junctions: seq<Cell>, gs: seq<Actor>, draws: nat -> Draws): (r: seq<Actor>)
    requires DrawsFit(walls, junctions, gs, draws)
    ensures |r| == |gs|
    ensures forall i :: 0 <= i < |gs| ==> r[i] == Advance(walls, junctions, gs[i], draws(i))
    ensures forall g :: g in r ==> g.pos !in walls && OnBoard(g.pos)
  {
    seq(|gs|, i requires 0 <= i < |gs| => Advance(walls, junctions, gs[i], draws(i)))
  }

  /** The checks that follow every event: player_at_ghost (10 points), then
      player_at_dot (1 point), both on the player's current cell. */
  function Resolved(s: State): State {
    var p := s.player.pos;
    var captured := p in Positions(s.ghosts);
    var collected := p in s.dots;
    State(s.player, Capture(s.ghosts, p), Collect(s.dots, p),
          s.score + (if captured then GhostReward else 0) + (if collected then DotReward else 0))
  }

  /** The checks remove at most one ghost and one dot, each exactly when one
      is on the player's cell, and the score grows by 10 per ghost and 1 per
      dot removed. */
  lemma ResolvedCounts(s: State)
    ensures var t := Resolved(s);
            && t.player == s.player
            && |t.ghosts| == |s.ghosts| - (if s.player.pos in Positions(s.ghosts) then 1 else 0)
            && |t.dots| == |s.dots| - (if s.player.pos in s.dots then 1 else 0)
            && t.score == s.score + GhostReward * (|s.ghosts| - |t.ghosts|) + DotReward * (|s.dots| - |t.dots|)
  {
  }

  /** An event may be handled: a ghost tick's draws let every ghost's rand_direction return. */
  predicate Handles(walls: seq<Cell>, junctions: seq<Cell>, s: State, e: Event) {
    e.MoveGhostsTick? ==> DrawsFit(walls, junctions, s.ghosts, e.draws)
  }

  /** The movement an event causes before the checks: the player on a
      MOVE_PLAYER tick, every ghost on a MOVE_GHOSTS tick, nothing otherwise. */
  function Moved(walls: seq<Cell>, junctions: seq<Cell>, s: State, e: Event): State
    requires Handles(walls, junctions, s, e)
  {
    match e
    case MovePlayerTick => s.(player := PlayerMoved(walls, s.player))
    case MoveGhostsTick(draws) => s.(ghosts := GhostsMoved(walls, junctions, s.ghosts, draws))
    case _ => s
  }

  /** One pass of the event loop body, in the source's order: the player
      move, the ghost move, the capture and dot checks (for every event),
      duplication, then a key turn. */
  function ApplyEvent(walls: seq<Cell>, junctions: seq<Cell>, s: State, e: Event): (t: State)
    requires Handles(walls, junctions, s, e)
    ensures !e.MovePlayerTick? && !e.TurnKey? ==> t.player == s.player
    ensures e.TurnKey? ==> t.player.pos == s.player.pos
    ensures !e.MoveGhostsTick? && !e.DuplicateTick? ==> t.ghosts == Capture(s.ghosts, t.player.pos)
    ensures e.Quit? || e.Backspace? || e.OtherEvent? ==> t == Resolved(s)
    ensures !e.DuplicateTick? ==> |t.ghosts| <= |s.ghosts|
    ensures e.DuplicateTick? ==> |t.ghosts| <= 2 * |s.ghosts|
  {
    ResolvedCounts(Moved(walls, junctions, s, e));
    var r := Resolved(Moved(walls, junctions, s, e));
    match e
    case DuplicateTick(spawnDir) => r.(ghosts := Duplicated(r.ghosts, spawnDir))
    case TurnKey(d) => r.(player := PlayerTurned(walls, r.player, d))
    case _ => r
  }

  /** Whatever the event, the checks run on the player's cell after the move:
      a dot there is collected (and only then does the dot count drop, by one),
      a ghost there is captured, and the score grows by 10 per capture and 1
      per collection. */
  lemma EveryEventChecksPlayerCell(walls: seq<Cell>, junctions: seq<Cell>, s: State, e: Event)
    requires Handles(walls, junctions, s, e)
    ensures var m := Moved(walls, junctions, s, e);
            var t := ApplyEvent(walls, junctions, s, e);
            var p := m.player.pos;
            && t.dots == Collect(s.dots, p)
            && (|t.dots| == |s.dots| - 1 <==> p in s.dots)
            && (p !in s.dots ==> t.dots == s.dots)
            && t.score == s.score + (if p in Positions(m.ghosts) then GhostReward else 0)
                                  + (if p in s.dots then DotReward else 0)
  {
    ResolvedCounts(Moved(walls, junctions, s, e));
  }

  /** Every event keeps the invariants. */
  lemma ApplyEventKeepsConsistent(walls: seq<Cell>, junctions: seq<Cell>, s: State, e: Event)
    requires Consistent(walls, s) && Handles(walls, junctions, s, e)
    ensures Consistent(walls, ApplyEvent(walls, junctions, s, e))
  {
    var m := Moved(walls, junctions, s, e);
    var r := Resolved(m);
    assert Consistent(walls, m);
    assert Consistent(walls, r);
    if e.DuplicateTick? {
      DuplicatedCells(r.ghosts, e.spawnDir);
    }
  }

  /** How handling a prefix of a frame's events ended: stuck at a ghost tick
      whose draws do not let rand_direction return, or through every event,
      with whether a quit was seen. */
  datatype Progress = Stuck(state: State) | Through(state: State, quit: bool)

  /** The event loop of one frame over the given events, first to last. */
  function RunEvents(walls: seq<Cell>, junctions: seq<Cell>, s: State, events: seq<Event>): Progress
  {
    if events == [] then Through(s, false)
    else
      var n := |events| - 1;
      var r := RunEvents(walls, junctions, s, events[..n]);
      var e := events[n];
      if r.Stuck? then r
      else if !Handles(walls, junctions, r.state, e) then Stuck(r.state)
      else Through(ApplyEvent(walls, junctions, r.state, e), r.quit || e.Quit? || e.Backspace?)
  }

  /** The events keep the invariants; dots are never added and the score never drops. */
  lemma {:induction false} RunEventsKeepsConsistent(walls: seq<Cell>, junctions: seq<Cell>, s: State, events: seq<Event>)
    requires Consistent(walls, s)
    ensures Consistent(walls, RunEvents(walls, junctions, s, events).state)
    ensures |RunEvents(walls, junctions, s, events).state.dots| <= |s.dots|
    ensures RunEvents(walls, junctions, s, events).state.score >= s.score
  {
    if events != [] {
      var n := |events| - 1;
      RunEventsKeepsConsistent(walls, junctions, s, events[..n]);
      var r := RunEvents(walls, junctions, s, events[..n]);
      if r.Through? && Handles(walls, junctions, r.state, events[n]) {
        ApplyEventKeepsConsistent(walls, junctions, r.state, events[n]);
        EveryEventChecksPlayerCell(walls, junctions, r.state, events[n]);
      }
    }
  }

  /** A frame that gets through its last event got through the ones before,
      and its quit flag adds whether that last event was a quit or a backspace key. */
  lemma QuitAtLast(walls: seq<Cell>, junctions: seq<Cell>, s: State, events: seq<Event>)
    requires events != [] && RunEvents(walls, junctions, s, events).Through?
    ensures RunEvents(walls, junctions, s, events[..|events| - 1]).Through?
    ensures RunEvents(walls, junctions, s, events).quit <==>
      RunEvents(walls, junctions, s, events[..|events| - 1]).quit || events[|events| - 1].Quit? || events[|events| - 1].Backspace?
  {
  }

  /** Some event among the first n is a quit or a backspace key. */
  predicate QuitSeen(events: seq<Event>, n: nat)
    requires n <= |events|
  {
    exists i :: 0 <= i < n && (events[i].Quit? || events[i].Backspace?)
  }

  /** A quit among all events is one among all but the last, or the last. */
  lemma QuitSeenLast(events: seq<Event>)
    requires events != []
    ensures QuitSeen(events, |events|) <==>
      QuitSeen(events[..|events| - 1], |events| - 1) || events[|events| - 1].Quit? || events[|events| - 1].Backspace?
  {
    var n := |events| - 1;
    assert forall i :: 0 <= i < n ==> events[..n][i] == events[i];
  }

  /** A frame's quit flag is set iff some event was a quit or a backspace key. */
  lemma {:induction false} RunEventsQuit(walls: seq<Cell>, junctions: seq<Cell>, s: State, events: seq<Event>)
    requires RunEvents(walls, junctions, s, events).Through?
    ensures RunEvents(walls, junctions, s, events).quit <==> QuitSeen(events, |events|)
  {
    if events != [] {
      QuitAtLast(walls, junctions, s, events);
      RunEventsQuit(walls, junctions, s, events[..|events| - 1]);
      QuitSeenLast(events);
    }
  }

  /** Event i of a frame is a ghost tick reached with the earlier events
      handled, and its draws do not let every ghost's rand_direction return. */
  predicate StuckAt(walls: seq<Cell>, junctions: seq<Cell>, s: State, events: seq<Event>, i: nat)
    requires i < |events|
  {
    var r := RunEvents(walls, junctions, s, events[..i]);
    r.Through? && events[i].MoveGhostsTick? && !DrawsFit(walls, junctions, r.state.ghosts, events[i].draws)
  }

  /** Whether event i is where the frame sticks does not depend on the events after it. */
  lemma StuckAtPrefix(walls: seq<Cell>, junctions: seq<Cell>, s: State, events: seq<Event>, n: nat, i: nat)
    requires i < n <= |events|
    ensures StuckAt(walls, junctions, s, events[..n], i) <==> StuckAt(walls, junctions, s, events, i)
  {
    assert events[..n][..i] == events[..i] && events[..n][i] == events[i];
  }

  /** A frame is stuck after its last event iff it was stuck before it or sticks at it. */
  lemma StuckAtLast(walls: seq<Cell>, junctions: seq<Cell>, s: State, events: seq<Event>)
    requires events != []
    ensures RunEvents(walls, junctions, s, events).Stuck? <==>
      RunEvents(walls, junctions, s, events[..|events| - 1]).Stuck? || StuckAt(walls, junctions, s, events, |events| - 1)
  {
  }

  /** A frame that hangs has an event where it sticks: a ghost tick, reached
      with the earlier events handled, whose draws do not let every ghost's
      rand_direction return. */
  lemma {:induction false} HangHasCause(walls: seq<Cell>, junctions: seq<Cell>, s: State, events: seq<Event>)
    requires RunEvents(walls, junctions, s, events).Stuck?
    ensures exists i :: 0 <= i < |events| && StuckAt(walls, junctions, s, events, i)
  {
    var n := |events| - 1;
    StuckAtLast(walls, junctions, s, events);
    if RunEvents(walls, junctions, s, events[..n]).Stuck? {
      HangHasCause(walls, junctions, s, events[..n]);
      var i :| 0 <= i < n && StuckAt(walls, junctions, s, events[..n], i);
      StuckAtPrefix(walls, junctions, s, events, n, i);
    }
  }

  /** Handling one more event: a stuck frame stays stuck, a ghost tick whose
      draws do not fit makes it stuck, and any other event is applied. */
  lemma RunEventsNext(walls: seq<Cell>, junctions: seq<Cell>, s: State, events: seq<Event>, i: nat)
    requires i < |events|
    ensures var r := RunEvents(walls, junctions, s, events[..i]);
            RunEvents(walls, junctions, s, events[..i + 1]) ==
              if r.Stuck? then r
              else if !Handles(walls, junctions, r.state, events[i]) then Stuck(r.state)
              else Through(ApplyEvent(walls, junctions, r.state, events[i]), r.quit || events[i].Quit? || events[i].Backspace?)
  {
    assert events[..i + 1][..i] == events[..i];
  }

  /** Once stuck, a frame stays stuck at the same state whatever events follow. */
  lemma {:induction false} StuckStays(walls: seq<Cell>, junctions: seq<Cell>, s: State, events: seq<Event>, i: nat)
    requires i <= |events| && RunEvents(walls, junctions, s, events[..i]).Stuck?
    ensures RunEvents(walls, junctions, s, events) == RunEvents(walls, junctions, s, events[..i])
    decreases |events| - i
  {
    if i < |events| {
      assert events[..i + 1][..i] == events[..i];
      StuckStays(walls, junctions, s, events, i + 1);
    } else {
      assert events[..i] == events;
    }
  }

  /** A ghost tick whose draws do not fit, reached with the earlier events
      handled, makes the whole frame hang. */
  lemma StuckAtHangs(walls: seq<Cell>, junctions: seq<Cell>, s: State, events: seq<Event>, i: nat)
    requires i < |events| && StuckAt(walls, junctions, s, events, i)
    ensures RunEvents(walls, junctions, s, events).Stuck?
  {
    RunEventsNext(walls, junctions, s, events, i);
    StuckStays(walls, junctions, s, events, i + 1);
  }

  /** One frame: handle the events, then check for a win before a loss. */
  function RunFrame(walls: seq<Cell>, junctions: seq<Cell>, s: State, events: seq<Event>): (FrameEnd, State)
  {
    var r := RunEvents(walls, junctions, s, events);
    if r.Stuck? then (Hang, r.state)
    else (Done(r.quit, Outcome(|r.state.dots|, |r.state.ghosts|)), r.state)
  }

  /** Ghosts multiply only on duplication ticks: a frame without one ends with
      at most the ghosts it started with. */
  lemma {:induction false} GhostsGrowOnlyByDuplication(walls: seq<Cell>, junctions: seq<Cell>, s: State, events: seq<Event>)
    requires forall i :: 0 <= i < |events| ==> !events[i].DuplicateTick?
    ensures |RunEvents(walls, junctions, s, events).state.ghosts| <= |s.ghosts|
  {
    if events != [] {
      var n := |events| - 1;
      GhostsGrowOnlyByDuplication(walls, junctions, s, events[..n]);
    }
  }

  /** With no ghosts, every event keeps the ghost list empty (duplication
      doubles 0 to 0), so a frame never ends lost. */
  lemma {:induction false} ZeroGhostsNeverLose(walls: seq<Cell>, junctions: seq<Cell>, s: State, events: seq<Event>)
    requires s.ghosts == []
    ensures RunEvents(walls, junctions, s, events).state.ghosts == []
    ensures var f := RunFrame(walls, junctions, s, events).0; f.Done? ==> f.verdict != Lost
  {
    if events != [] {
      var n := |events| - 1;
      ZeroGhostsNeverLose(walls, junctions, s, events[..n]);
    }
  }

  /** The play loop after some frames: how many ran, how the last ended (when
      none has run, Done(false, Running)), and the state. */
  datatype Session = Session(played: nat, end: FrameEnd, state: State)

  /** The play loop over the first n frames: it always runs a frame first and
      stops after the frame that ends the game. */
  function PlayFrames(walls: seq<Cell>, junctions: seq<Cell>, s: State, frames: seq<seq<Event>>, n: nat): (r: Session)
    requires n <= |frames|
    ensures r.played <= n
    ensures n > 0 ==> r.played > 0
    ensures r.played < n ==> GameOver(r.end)
    ensures r.end.Done? ==> r.end.verdict == Outcome(|r.state.dots|, |r.state.ghosts|) || r.played == 0
  {
    if n == 0 then Session(0, Done(false, Running), s)
    else
      var r := PlayFrames(walls, junctions, s, frames, n - 1);
      if r.played > 0 && GameOver(r.end) then r
      else
        var (end, t) := RunFrame(walls, junctions, r.state, frames[n - 1]);
        Session(n, end, t)
  }

  /** One more frame runs unless an earlier one has ended the game. */
  lemma PlayFramesNext(walls: seq<Cell>, junctions: seq<Cell>, s: State, frames: seq<seq<Event>>, n: nat)
    requires n < |frames|
    requires var r := PlayFrames(walls, junctions, s, frames, n); !(r.played > 0 && GameOver(r.end))
    ensures var f := RunFrame(walls, junctions, PlayFrames(walls, junctions, s, frames, n).state, frames[n]);
            PlayFrames(walls, junctions, s, frames, n + 1) == Session(n + 1, f.0, f.1)
  {
  }

  /** Every frame before the last one played left the game running. */
  lemma {:induction false} EarlierFramesKeptRunning(walls: seq<Cell>, junctions: seq<Cell>, s: State, frames: seq<seq<Event>>, n: nat, k: nat)
    requires n <= |frames| && 0 < k < PlayFrames(walls, junctions, s, frames, n).played
    ensures PlayFrames(walls, junctions, s, frames, k).played == k
    ensures !GameOver(PlayFrames(walls, junctions, s, frames, k).end)
  {
    var r := PlayFrames(walls, junctions, s, frames, n - 1);
    if k < n - 1 || (r.played > 0 && GameOver(r.end)) {
      EarlierFramesKeptRunning(walls, junctions, s, frames, n - 1, k);
    }
  }

  /** Once a frame has ended the game, no further frame runs. */
  lemma {:induction false} StopsWhenOver(walls: seq<Cell>, junctions: seq<Cell>, s: State, frames: seq<seq<Event>>, n: nat, m: nat)
    requires n <= m <= |frames|
    requires PlayFrames(walls, junctions, s, frames, n).played > 0 && GameOver(PlayFrames(walls, junctions, s, frames, n).end)
    ensures PlayFrames(walls, junctions, s, frames, m) == PlayFrames(walls, junctions, s, frames, n)
    decreases m - n
  {
    if n < m {
      StopsWhenOver(walls, junctions, s, frames, n, m - 1);
    }
  }

  /** A game that starts without ghosts keeps none, so no frame of it ends lost. */
  lemma {:induction false} ZeroGhostsNeverLoseGame(walls: seq<Cell>, junctions: seq<Cell>, s: State, frames: seq<seq<Event>>, n: nat)
    requires n <= |frames| && s.ghosts == []
    ensures PlayFrames(walls, junctions, s, frames, n).state.ghosts == []
    ensures var r := PlayFrames(walls, junctions, s, frames, n); r.end.Done? ==> r.end.verdict != Lost
  {
    if n > 0 {
      ZeroGhostsNeverLoseGame(walls, junctions, s, frames, n - 1);
      var r := PlayFrames(walls, junctions, s, frames, n - 1);
      ZeroGhostsNeverLose(walls, junctions, r.state, frames[n - 1]);
    }
  }

  /** The first frame always runs: a state whose last dot lies under the player
      is won by that frame even with 50 or more ghosts, as long as no ghost
      shares the player's cell. */
  lemma LastDotWinsDespiteGhosts(walls: seq<Cell>, junctions: seq<Cell>, s: State)
    requires s.dots == [s.player.pos] && |s.ghosts| >= GhostLimit
    requires s.player.pos !in Positions(s.ghosts)
    ensures Outcome(|s.dots|, |s.ghosts|) == Lost
    ensures PlayFrames(walls, junctions, s, [[OtherEvent]], 1) ==
      Session(1, Done(false, Won), s.(dots := [], score := s.score + DotReward))
  {
    var t := Resolved(s);
    assert t == s.(dots := [], score := s.score + DotReward);
    assert [OtherEvent][..0] == [];
    assert RunEvents(walls, junctions, s, [OtherEvent]) == Through(t, false);
  }

  class Game {
    /** Wall cells (Game.WALLS); fixed after set-up. */
    var walls: seq<Cell>
    /** Junction cells (Game.JUNCTIONS); fixed after set-up. */
    var junctions: seq<Cell>
    /** Remaining dots, in map order. */
    var dots: seq<Cell>
    /** Ghosts, in list order. */
    var ghosts: seq<Actor>
    /** The player's cell and direction. */
    var player: Actor
    /** The player's score. */
    var score: int

    /** The part of the game the events change. */
    function View(): State
      reads this
    {
      State(player, ghosts, dots, score)
    }

    ghost predicate Valid()
      reads this
    {
      Consistent(walls, View())
    }

    /** Start of a game: the player at (0, 0) with a drawn direction, then
        set_up_grid over the lines of the map (each with its newline). */
    constructor (grid: seq<string>, playerDir: Dir, spawnDir: nat -> Dir)
      ensures walls == Cells(grid, WallChar) && dots == Cells(grid, DotChar)
      ensures |ghosts| == |Cells(grid, GhostChar)|
      ensures forall i :: 0 <= i < |ghosts| ==> ghosts[i] == Actor(Cells(grid, GhostChar)[i], spawnDir(i))
      ensures junctions == Junctions(walls, |grid|, ScanWidth(grid))
      ensures player == Actor(Cell(0, 0), playerDir) && score == 0
      ensures Valid()
    {
      var w, d, spawns := ScanGrid(grid);
      var js := ScanJunctions(w, |grid|, ScanWidth(grid));
      player := Actor(Cell(0, 0), playerDir);
      score := 0;
      walls, dots, junctions := w, d, js;
      var gs := seq(|spawns|, i requires 0 <= i < |spawns| => Actor(spawns[i], spawnDir(i)));
      forall g | g in gs ensures g.pos !in w {
        var i :| 0 <= i < |gs| && gs[i] == g;
        CellsDisjoint(grid, GhostChar, WallChar, g.pos);
      }
      ghosts := gs;
      forall c | c in d ensures c !in w {
        CellsDisjoint(grid, DotChar, WallChar, c);
      }
    }

    /** A MOVE_PLAYER tick: step one wrapped cell along the current direction
        unless that cell is a wall; otherwise stay. */
    method MovePlayer()
      requires Valid()
      modifies this`player
      ensures Valid()
      ensures player == PlayerMoved(walls, old(player))
    {
      if !WillCollide(walls, player.pos, player.dir) {
        player := player.(pos := Step(player.pos, player.dir));
      }
    }

    /** A direction key: turn only if one step that way does not collide. */
    method Turn(d: Dir)
      requires Valid()
      modifies this`player
      ensures Valid()
      ensures player == PlayerTurned(walls, old(player), d)
    {
      if !WillCollide(walls, player.pos, d) {
        player := player.(dir := d);
      }
    }

    /** A MOVE_GHOSTS tick: each ghost in turn takes the direction rand_direction
        gives it and moves one wrapped cell along that same direction. */
    method MoveGhosts(draws: nat -> Draws)
      requires Valid() && DrawsFit(walls, junctions, ghosts, draws)
      modifies this`ghosts
      ensures Valid()
      ensures ghosts == GhostsMoved(walls, junctions, old(ghosts), draws)
    {
      var i := 0;
      while i < |ghosts|
        invariant 0 <= i <= |ghosts| == |old(ghosts)|
        invariant forall j :: 0 <= j < i ==> ghosts[j] == Advance(walls, junctions, old(ghosts)[j], draws(j))
        invariant forall j :: i <= j < |ghosts| ==> ghosts[j] == old(ghosts)[j]
      {
        var g := ghosts[i];
        var d := RandDirection(walls, junctions, g, draws(i));
        ghosts := ghosts[i := Actor(Step(g.pos, d), d)];
        i := i + 1;
      }
    }

    /** player_at_ghost: remove the first ghost on the player's cell, if any,
        and report whether one was removed. */
    method PlayerAtGhost() returns (captured: bool)
      requires Valid()
      modifies this`ghosts
      ensures Valid()
      ensures captured <==> player.pos in Positions(old(ghosts))
      ensures ghosts == Capture(old(ghosts), player.pos)
    {
      var k := FindFirst(Positions(ghosts), player.pos);
      if k < |ghosts| {
        ghosts := RemoveAt(ghosts, k);
        captured := true;
      } else {
        captured := false;
      }
    }

    /** player_at_dot: remove the first dot on the player's cell, if any,
        and report whether one was removed. */
    method PlayerAtDot() returns (collected: bool)
      requires Valid()
      modifies this`dots
      ensures Valid()
      ensures collected <==> player.pos in old(dots)
      ensures dots == Collect(old(dots), player.pos)
    {
      var k := FindFirst(dots, player.pos);
      if k < |dots| {
        dots := RemoveAt(dots, k);
        collected := true;
      } else {
        collected := false;
      }
    }

    /** The checks run after every event: a capture scores 10, then a
        collection scores 1. Each removes the first matching entity, if any. */
    method Resolve() returns (captured: bool, collected: bool)
      requires Valid()
      modifies this`ghosts, this`dots, this`score
      ensures Valid()
      ensures captured <==> player.pos in Positions(old(ghosts))
      ensures collected <==> player.pos in old(dots)
      ensures View() == Resolved(old(View()))
    {
      ghost var s0 := View();
      captured := PlayerAtGhost();
      if captured {
        score := score + GhostReward;
      }
      collected := PlayerAtDot();
      if collected {
        score := score + DotReward;
      }
      assert View() == State(s0.player, Capture(s0.ghosts, s0.player.pos), Collect(s0.dots, s0.player.pos), score);
    }

    /** A DUPLICATE_GHOSTS tick: append one new ghost per existing ghost, on
        the same cell, with a freshly drawn direction. */
    method DuplicateGhosts(spawnDir: nat -> Dir)
      requires Valid()
      modifies this`ghosts
      ensures Valid()
      ensures ghosts == Duplicated(old(ghosts), spawnDir)
    {
      ghost var gs := ghosts;
      var count := |ghosts|;
      var i := 0;
      while i < count
        invariant 0 <= i <= count == |gs|
        invariant ghosts == gs + Duplicated(gs, spawnDir)[count..count + i]
      {
        DuplicatedNext(gs, spawnDir, i);
        ghosts := ghosts + [Actor(ghosts[i].pos, spawnDir(i))];
        i := i + 1;
      }
      assert ghosts == Duplicated(gs, spawnDir);
      DuplicatedCells(gs, spawnDir);
    }

    /** One event of the queue, in the source's order: the player move, the
        ghost move, the capture and dot checks (for every event), duplication,
        then a key turn. Quit and backspace end the game after this frame. */
    method HandleEvent(e: Event) returns (quit: bool)
      requires Valid() && Handles(walls, junctions, View(), e)
      modifies this`player, this`ghosts, this`dots, this`score
      ensures Valid()
      ensures View() == ApplyEvent(walls, junctions, old(View()), e)
      ensures quit <==> e.Quit? || e.Backspace?
    {
      quit := e.Quit?;
      if e.MovePlayerTick? {
        MovePlayer();
      }
      if e.MoveGhostsTick? {
        MoveGhosts(e.draws);
      }
      var captured, collected := Resolve();
      if e.DuplicateTick? {
        DuplicateGhosts(e.spawnDir);
      }
      if e.TurnKey? {
        Turn(e.dir);
      }
      if e.Backspace? {
        quit := true;
      }
    }

    /** One frame: drain the queue, then check for a win before a loss. A
        ghost tick whose draws do not let rand_direction return ends it as Hang. */
    method Frame(events: seq<Event>) returns (end: FrameEnd)
      requires Valid()
      modifies this`player, this`ghosts, this`dots, this`score
      ensures Valid()
      ensures (end, View()) == RunFrame(walls, junctions, old(View()), events)
    {
      ghost var s0 := View();
      var quit := false;
      var i := 0;
      while i < |events|
        invariant 0 <= i <= |events|
        invariant Valid()
        invariant RunEvents(walls, junctions, s0, events[..i]) == Through(View(), quit)
      {
        var e := events[i];
        RunEventsNext(walls, junctions, s0, events, i);
        if !Handles(walls, junctions, View(), e) {
          StuckStays(walls, junctions, s0, events, i + 1);
          return Hang;
        }
        var q := HandleEvent(e);
        quit := quit || q;
        i := i + 1;
      }
      assert events[..i] == events;
      end := Done(quit, Outcome(|dots|, |ghosts|));
    }

    /** The play loop: run frames, always at least one, until one ends the
        game or the input runs out. */
    method Play(frames: seq<seq<Event>>) returns (played: nat, end: FrameEnd)
      requires Valid()
      modifies this`player, this`ghosts, this`dots, this`score
      ensures Valid()
      ensures Session(played, end, View()) == PlayFrames(walls, junctions, old(View()), frames, |frames|)
      ensures |frames| > 0 ==> played > 0
      ensures played < |frames| ==> GameOver(end)
      ensures played > 0 && end.Done? ==> end.verdict == Outcome(|dots|, |ghosts|)
    {
      ghost var s0 := View();
      played := 0;
      end := Done(false, Running);
      while played < |frames| && !(played > 0 && GameOver(end))
        invariant played <= |frames|
        invariant Valid()
        invariant Session(played, end, View()) == PlayFrames(walls, junctions, s0, frames, played)
      {
        PlayFramesNext(walls, junctions, s0, frames, played);
        end := Frame(frames[played]);
        played := played + 1;
      }
      if played < |frames| {
        StopsWhenOver(walls, junctions, s0, frames, played, |frames|);
      }
    }
  }
}
