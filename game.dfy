/**
 The game session: score, lives, the running flag, the player and the two
 collections of falling objects, all updated in place by the frame step, the
 start and end transitions, the spawners and a touch drag.
 */
module Game {
  import opened Entities

  /** The start and restart buttons start a game only once all three images have loaded. */
  const ImagesNeeded: int := 3

  class Session {
    var score: int
    var lives: int
    var running: bool
    var player: Player
    var hearts: seq<Faller>
    var muds: seq<Faller>

    /**
     The state every frame leaves behind apart from the running flag: the
     player keeps its size, speed and row and is never more than one keyboard
     step outside the arena; every heart and mud keeps the shape it was
     spawned with and is on screen; and the score is never negative.
     */
    ghost predicate Consistent()
      reads this
    {
      player.width == PlayerWidth && player.height == PlayerHeight &&
      player.speed == PlayerSpeed && player.y == StartPlayer.y &&
      -PlayerSpeed < player.x < GW - PlayerWidth + PlayerSpeed &&
      (forall h :: h in hearts ==> WellFormed(h, HeartSize, HeartSpeedRange)) &&
      (forall m :: m in muds ==> WellFormed(m, MudSize, MudSpeedRange)) &&
      score >= 0
    }

    /**
     The session invariant: a consistent state in which a running game always
     has a life left. Lives may still drop below zero, at the frame that ends
     the game.
     */
    ghost predicate Valid()
      reads this
    {
      Consistent() && (running ==> lives > 0)
    }

    /** The session as the page loads it: idle, nothing on screen. */
    constructor ()
      ensures Valid()
      ensures score == 0 && lives == 3 && !running
      ensures player == StartPlayer && hearts == [] && muds == []
    {
      score := 0;
      lives := 3;
      running := false;
      player := StartPlayer;
      hearts := [];
      muds := [];
    }

    /** Appends one heart when its image is ready; r1 and r2 are the two random draws. */
    method SpawnHeart(heartReady: bool, r1: real, r2: real)
      requires Valid()
      requires 0.0 <= r1 < 1.0 && 0.0 <= r2 < 1.0
      modifies this
      ensures Valid()
      ensures hearts == if heartReady then old(hearts) + [NewHeart(r1, r2)] else old(hearts)
      ensures muds == old(muds) && player == old(player)
      ensures score == old(score) && lives == old(lives) && running == old(running)
    {
      if heartReady {
        hearts := hearts + [Faller(r1 * (GW - 30.0), -30.0, 30.0, 30.0, 2.0 + r2 * 2.0)];
      }
    }

    /** Appends one mud when its image is ready; r1 and r2 are the two random draws. */
    method SpawnMud(mudReady: bool, r1: real, r2: real)
      requires Valid()
      requires 0.0 <= r1 < 1.0 && 0.0 <= r2 < 1.0
      modifies this
      ensures Valid()
      ensures muds == if mudReady then old(muds) + [NewMud(r1, r2)] else old(muds)
      ensures hearts == old(hearts) && player == old(player)
      ensures score == old(score) && lives == old(lives) && running == old(running)
    {
      if mudReady {
        muds := muds + [Faller(r1 * (GW - 40.0), -40.0, 40.0, 40.0, 2.0 + r2 * 3.0)];
      }
    }

    /** One firing of the heart timer: it spawns only while the game runs. */
    method HeartTimerFires(heartReady: bool, r1: real, r2: real)
      requires Valid()
      requires 0.0 <= r1 < 1.0 && 0.0 <= r2 < 1.0
      modifies this
      ensures Valid()
      ensures hearts == if running && heartReady then old(hearts) + [NewHeart(r1, r2)] else old(hearts)
      ensures muds == old(muds) && player == old(player)
      ensures score == old(score) && lives == old(lives) && running == old(running)
    {
      if running {
        SpawnHeart(heartReady, r1, r2);
      }
    }

    /** One firing of the mud timer: it spawns only while the game runs. */
    method MudTimerFires(mudReady: bool, r1: real, r2: real)
      requires Valid()
      requires 0.0 <= r1 < 1.0 && 0.0 <= r2 < 1.0
      modifies this
      ensures Valid()
      ensures muds == if running && mudReady then old(muds) + [NewMud(r1, r2)] else old(muds)
      ensures hearts == old(hearts) && player == old(player)
      ensures score == old(score) && lives == old(lives) && running == old(running)
    {
      if running {
        SpawnMud(mudReady, r1, r2);
      }
    }

    /**
     A touch drag by delta (already converted to arena units): while the game
     runs the player moves by delta and is clamped into [0, GW - width].
     */
    method Drag(delta: real)
      requires Valid()
      modifies this
      ensures Valid()
      ensures player == if running then old(player).(x := DragX(old(player).x, delta)) else old(player)
      ensures running ==> 0.0 <= player.x <= GW - PlayerWidth
      ensures hearts == old(hearts) && muds == old(muds)
      ensures score == old(score) && lives == old(lives) && running == old(running)
    {
      if running {
        player := player.(x := player.x + delta);
        if player.x < 0.0 {
          player := player.(x := 0.0);
        }
        if player.x > GW - player.width {
          player := player.(x := GW - player.width);
        }
      }
    }

    /**
     Stops the game; the score, lives and objects stay as they are. A stopped
     game needs no life left, so this restores the session invariant.
     */
    method EndGame()
      requires Consistent()
      modifies this
      ensures Valid()
      ensures !running
      ensures score == old(score) && lives == old(lives) && player == old(player)
      ensures hearts == old(hearts) && muds == old(muds)
    {
      running := false;
    }

    /**
     The hearts part of a frame: from the last heart to the first, each advances
     by its speed and is removed when it has left the bottom of the arena or,
     scoring a point, when it touches the player. Lives are not touched.
     */
    method StepHearts()
      modifies this`hearts, this`score
      ensures hearts == Survivors(old(hearts), player)
      ensures score == old(score) + Collisions(old(hearts), player)
    {
      ghost var orig := hearts;
      var p := player;
      var i := |hearts| - 1;
      while i >= 0
        invariant -1 <= i < |orig|
        invariant hearts == orig[..i + 1] + Survivors(orig[i + 1..], p)
        invariant score == old(score) + Collisions(orig[i + 1..], p)
        decreases i
      {
        ReverseFilterStep(orig, i, hearts, p);
        var h := hearts[i];
        h := h.(y := h.y + h.speed);
        assert h == Fall(orig[i]);
        if h.y > GH {
          hearts := hearts[..i] + hearts[i + 1..];
        } else if Overlaps(h, p) {
          score := score + 1;
          hearts := hearts[..i] + hearts[i + 1..];
        } else {
          hearts := hearts[i := h];
        }
        i := i - 1;
      }
      assert orig[0..] == old(hearts);
    }

    /**
     The muds part of a frame: as for hearts, but a mud that touches the player
     costs a life instead of scoring. The score is not touched.
     */
    method StepMuds()
      modifies this`muds, this`lives
      ensures muds == Survivors(old(muds), player)
      ensures lives == old(lives) - Collisions(old(muds), player)
    {
      ghost var orig := muds;
      var p := player;
      var i := |muds| - 1;
      while i >= 0
        invariant -1 <= i < |orig|
        invariant muds == orig[..i + 1] + Survivors(orig[i + 1..], p)
        invariant lives == old(lives) - Collisions(orig[i + 1..], p)
        decreases i
      {
        ReverseFilterStep(orig, i, muds, p);
        var m := muds[i];
        m := m.(y := m.y + m.speed);
        assert m == Fall(orig[i]);
        if m.y > GH {
          muds := muds[..i] + muds[i + 1..];
        } else if Overlaps(m, p) {
          lives := lives - 1;
          muds := muds[..i] + muds[i + 1..];
        } else {
          muds := muds[i := m];
        }
        i := i - 1;
      }
      assert orig[0..] == old(muds);
    }

    /**
     One frame: the player moves with the held keys, the hearts and then the
     muds are stepped against the moved player, and the game ends when no life
     is left.
     */
    method Update(left: bool, right: bool)
      requires Valid()
      modifies this
      ensures Valid()
      ensures player == Steer(old(player), left, right)
      ensures hearts == Survivors(old(hearts), player)
      ensures muds == Survivors(old(muds), player)
      ensures score == old(score) + Collisions(old(hearts), player)
      ensures lives == old(lives) - Collisions(old(muds), player)
      ensures running == (old(running) && lives > 0)
    {
      SteerStaysNearArena(player, left, right);
      if left && player.x > 0.0 {
        player := player.(x := player.x - player.speed);
      }
      if right && player.x < GW - player.width {
        player := player.(x := player.x + player.speed);
      }
      SurvivorsWellFormed(hearts, player, HeartSize, HeartSpeedRange);
      SurvivorsWellFormed(muds, player, MudSize, MudSpeedRange);
      StepHearts();
      StepMuds();
      if lives <= 0 {
        EndGame();
      }
    }

    /** One animation frame: the step runs only while the game runs. */
    method GameLoop(left: bool, right: bool)
      requires Valid()
      modifies this
      ensures Valid()
      ensures !old(running) ==> unchanged(this)
      ensures old(running) ==>
                player == Steer(old(player), left, right) &&
                hearts == Survivors(old(hearts), player) &&
                muds == Survivors(old(muds), player) &&
                score == old(score) + Collisions(old(hearts), player) &&
                lives == old(lives) - Collisions(old(muds), player) &&
                running == (lives > 0)
    {
      if running {
        Update(left, right);
      }
    }

    /**
     Starts (or restarts) a game: counters and collections reset, the player
     re-centred, and the first frame run at once with the keys now held.
     */
    method StartGame(left: bool, right: bool)
      requires Valid()
      modifies this
      ensures Valid()
      ensures score == 0 && lives == 3 && running
      ensures hearts == [] && muds == []
      ensures player == Steer(StartPlayer, left, right)
    {
      score := 0;
      lives := 3;
      hearts := [];
      muds := [];
      player := player.(x := GW / 2.0 - player.width / 2.0);
      player := player.(y := GH - 80.0);
      running := true;
      GameLoop(left, right);
    }

    /**
     The start and restart buttons: with all images loaded the game starts;
     otherwise the request is refused and nothing changes.
     */
    method PressStart(imagesLoaded: int, left: bool, right: bool) returns (started: bool)
      requires Valid()
      modifies this
      ensures Valid()
      ensures started == (imagesLoaded == ImagesNeeded)
      ensures started ==> score == 0 && lives == 3 && running && hearts == [] && muds == [] &&
                          player == Steer(StartPlayer, left, right)
      ensures !started ==> unchanged(this)
    {
      started := imagesLoaded == ImagesNeeded;
      if started {
        StartGame(left, right);
      }
    }
  }

  /**
   A session as the page sees it: a start refused while images load, a start
   once they have, one heart spawned by its timer, and one frame in which it
   falls without reaching the player.
   */
  method FirstHeartScenario(r1: real, r2: real) returns (onScreen: nat, score: int, lives: int, running: bool)
    requires 0.0 <= r1 < 1.0 && 0.0 <= r2 < 1.0
    ensures onScreen == 1 && score == 0 && lives == 3 && running
  {
    var g := new Session();
    var started := g.PressStart(2, false, false);
    assert !started && !g.running;
    started := g.PressStart(ImagesNeeded, false, false);
    assert g.player == StartPlayer;
    g.HeartTimerFires(true, r1, r2);
    assert g.hearts == [NewHeart(r1, r2)];
    g.GameLoop(false, false);
    assert Stays(NewHeart(r1, r2), StartPlayer);
    assert g.hearts == [Fall(NewHeart(r1, r2))];
    onScreen, score, lives, running := |g.hearts|, g.score, g.lives, g.running;
  }
}
