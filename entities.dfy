/**
 The entities of the kitty game and the pure rules of one frame: the player,
 the falling hearts and muds, the rectangle overlap test, how a falling object
 advances, which objects a frame keeps, and how the keyboard and a touch drag
 move the player. Positions and speeds are exact reals.
 */
module Entities {

  /** Width and height of the arena, in virtual units. */
  const GW: real := 500.0
  const GH: real := 600.0

  /** The player sprite never changes size or speed. */
  const PlayerWidth: real := 60.0
  const PlayerHeight: real := 60.0
  const PlayerSpeed: real := 5.0

  /** Hearts are 30 units square and fall at a speed in [2, 4). */
  const HeartSize: real := 30.0
  const HeartSpeedRange: real := 2.0
  /** Muds are 40 units square and fall at a speed in [2, 5). */
  const MudSize: real := 40.0
  const MudSpeedRange: real := 3.0
  /** Every falling object moves at least this much per frame. */
  const BaseSpeed: real := 2.0

  datatype Player = Player(x: real, y: real, width: real, height: real, speed: real)

  /** A heart or a mud. */
  datatype Faller = Faller(x: real, y: real, width: real, height: real, speed: real)

  /** The player as placed when a game starts: centred, 80 units above the bottom. */
  const StartPlayer: Player :=
    Player(GW / 2.0 - PlayerWidth / 2.0, GH - 80.0, PlayerWidth, PlayerHeight, PlayerSpeed)

  /**
   Strict axis-aligned rectangle intersection of a falling object and the
   player. An object of positive size whose centre lies strictly inside the
   player overlaps it; rectangles that only touch along an edge do not.
   */
  predicate Overlaps(o: Faller, p: Player)
    ensures (o.width > 0.0 && o.height > 0.0 &&
             p.x < o.x + o.width / 2.0 < p.x + p.width &&
             p.y < o.y + o.height / 2.0 < p.y + p.height) ==> Overlaps(o, p)
    ensures (o.x + o.width == p.x || o.x == p.x + p.width ||
             o.y + o.height == p.y || o.y == p.y + p.height) ==> !Overlaps(o, p)
  {
    o.x < p.x + p.width && o.x + o.width > p.x &&
    o.y < p.y + p.height && o.y + o.height > p.y
  }

  /**
   The object one frame later: it has moved down by its own speed, which Rise
   undoes, and only its y has changed.
   */
  function Fall(o: Faller): (r: Faller)
    ensures Rise(r) == o
    ensures r == o.(y := r.y)
    ensures o.speed > 0.0 ==> r.y > o.y
  {
    o.(y := o.y + o.speed)
  }

  /** Undoes Fall: the object as it was one frame earlier. */
  function Rise(o: Faller): Faller
  {
    o.(y := o.y - o.speed)
  }

  /**
   After advancing, the object is below the bottom of the arena: exactly the
   objects within one step of the bottom, which include every object already
   below it that does not move up.
   */
  predicate FellOut(o: Faller)
    ensures FellOut(o) <==> o.y > GH - o.speed
    ensures o.y > GH && o.speed >= 0.0 ==> FellOut(o)
  {
    Fall(o).y > GH
  }

  /** After advancing, the object is still on screen and touches the player. */
  predicate Collides(o: Faller, p: Player)
  {
    !FellOut(o) && Overlaps(Fall(o), p)
  }

  /** After advancing, the object is neither gone below the arena nor touching the player. */
  predicate Stays(o: Faller, p: Player)
  {
    !FellOut(o) && !Overlaps(Fall(o), p)
  }

  /** The objects a frame keeps, advanced by one step, in their original order. */
  function Survivors(s: seq<Faller>, p: Player): (r: seq<Faller>)
    ensures |r| <= |s|
  {
    if s == [] then []
    else if Stays(s[0], p) then [Fall(s[0])] + Survivors(s[1..], p)
    else Survivors(s[1..], p)
  }

  /**
   Every survivor is on screen and clear of the player, and is the advanced
   form of an object that was there before and stays.
   */
  lemma {:induction false} SurvivorsSound(s: seq<Faller>, p: Player)
    ensures forall o :: o in Survivors(s, p) ==> o.y <= GH && !Overlaps(o, p)
    ensures forall o :: o in Survivors(s, p) ==> Rise(o) in s && Stays(Rise(o), p)
  {
    if s != [] {
      SurvivorsSound(s[1..], p);
      assert Rise(Fall(s[0])) == s[0];
      forall o | o in Survivors(s[1..], p) ensures Rise(o) in s {
        assert Rise(o) in s[1..];
      }
    }
  }

  /** How many objects of s hit the player in this frame. */
  function Collisions(s: seq<Faller>, p: Player): (n: nat)
    ensures n <= |s|
  {
    if s == [] then 0
    else
      (if Collides(s[0], p) then 1 else 0) + Collisions(s[1..], p)
  }

  /** How many objects of s leave the arena through the bottom in this frame. */
  function Missed(s: seq<Faller>): (n: nat)
    ensures n <= |s|
  {
    if s == [] then 0
    else
      (if FellOut(s[0]) then 1 else 0) + Missed(s[1..])
  }

  /** The frame's verdict on position i, from the back: keeping the prefix untouched. */
  lemma {:induction false} SurvivorsAt(s: seq<Faller>, i: nat, p: Player)
    requires i < |s|
    ensures Survivors(s[i..], p) ==
              (if Stays(s[i], p) then [Fall(s[i])] else []) + Survivors(s[i + 1..], p)
    ensures Collisions(s[i..], p) == (if Collides(s[i], p) then 1 else 0) + Collisions(s[i + 1..], p)
  {
    assert s[i..][1..] == s[i + 1..];
  }

  /**
   One step of the in-place reverse filter: with positions after i already
   filtered, position i is either cut out (it fell out or hit the player) or
   replaced by its advanced form, and the prefix up to i then agrees with
   filtering from i on.
   */
  lemma ReverseFilterStep(orig: seq<Faller>, i: nat, a: seq<Faller>, p: Player)
    requires i < |orig| && a == orig[..i + 1] + Survivors(orig[i + 1..], p)
    ensures a[i] == orig[i]
    ensures Fall(orig[i]).y > GH ==>
              a[..i] + a[i + 1..] == orig[..i] + Survivors(orig[i..], p) &&
              Collisions(orig[i..], p) == Collisions(orig[i + 1..], p)
    ensures Fall(orig[i]).y <= GH && Overlaps(Fall(orig[i]), p) ==>
              a[..i] + a[i + 1..] == orig[..i] + Survivors(orig[i..], p) &&
              Collisions(orig[i..], p) == 1 + Collisions(orig[i + 1..], p)
    ensures Fall(orig[i]).y <= GH && !Overlaps(Fall(orig[i]), p) ==>
              a[i := Fall(orig[i])] == orig[..i] + Survivors(orig[i..], p) &&
              Collisions(orig[i..], p) == Collisions(orig[i + 1..], p)
  {
    SurvivorsAt(orig, i, p);
    SpliceFacts(orig, i, a, Survivors(orig[i + 1..], p), Fall(orig[i]));
  }

  /** Sequence facts behind ReverseFilterStep: cutting or replacing position i of prefix + tail. */
  lemma SpliceFacts<T>(orig: seq<T>, i: nat, a: seq<T>, done: seq<T>, y: T)
    requires i < |orig| && a == orig[..i + 1] + done
    ensures a[i] == orig[i]
    ensures a[..i] + a[i + 1..] == orig[..i] + done
    ensures a[i := y] == orig[..i] + ([y] + done)
  {
    assert orig[..i + 1] == orig[..i] + [orig[i]];
    assert a[..i] == orig[..i];
    assert a[i + 1..] == done;
  }

  /** Every object either falls out, hits the player, or survives: nothing is lost or made up. */
  lemma {:induction false} SurvivorsPartition(s: seq<Faller>, p: Player)
    ensures |s| == |Survivors(s, p)| + Collisions(s, p) + Missed(s)
  {
    if s != [] {
      SurvivorsPartition(s[1..], p);
    }
  }

  /** Keeping survivors commutes with concatenation: relative order is preserved. */
  lemma {:induction false} SurvivorsAppend(s: seq<Faller>, t: seq<Faller>, p: Player)
    ensures Survivors(s + t, p) == Survivors(s, p) + Survivors(t, p)
    ensures Collisions(s + t, p) == Collisions(s, p) + Collisions(t, p)
  {
    if s == [] {
      assert s + t == t;
    } else {
      assert (s + t)[1..] == s[1..] + t;
      SurvivorsAppend(s[1..], t, p);
    }
  }

  /** Every object that stays is kept, advanced by its speed. */
  lemma {:induction false} StayingIsKept(s: seq<Faller>, k: nat, p: Player)
    requires k < |s| && Stays(s[k], p)
    ensures Fall(s[k]) in Survivors(s, p)
  {
    if k > 0 {
      StayingIsKept(s[1..], k - 1, p);
    }
  }

  /** A point strictly inside a falling object. */
  predicate InsideFaller(o: Faller, px: real, py: real)
  {
    o.x < px < o.x + o.width && o.y < py < o.y + o.height
  }

  /** A point strictly inside the player. */
  predicate InsidePlayer(p: Player, px: real, py: real)
  {
    p.x < px < p.x + p.width && p.y < py < p.y + p.height
  }

  function Max(a: real, b: real): real { if a < b then b else a }
  function Min(a: real, b: real): real { if a < b then a else b }

  /**
   For rectangles of positive size, the overlap test holds exactly when some
   point lies strictly inside both; rectangles that share only an edge or a
   corner therefore do not collide.
   */
  lemma OverlapIffCommonPoint(o: Faller, p: Player)
    requires o.width > 0.0 && o.height > 0.0 && p.width > 0.0 && p.height > 0.0
    ensures Overlaps(o, p) <==> exists px, py :: InsideFaller(o, px, py) && InsidePlayer(p, px, py)
  {
    if Overlaps(o, p) {
      var px := (Max(o.x, p.x) + Min(o.x + o.width, p.x + p.width)) / 2.0;
      var py := (Max(o.y, p.y) + Min(o.y + o.height, p.y + p.height)) / 2.0;
      assert InsideFaller(o, px, py) && InsidePlayer(p, px, py);
    }
  }

  /** Touching along any edge is not a collision. */
  lemma EdgeContactIsNoCollision(o: Faller, p: Player)
    requires o.x + o.width == p.x || o.x == p.x + p.width ||
             o.y + o.height == p.y || o.y == p.y + p.height
    ensures !Overlaps(o, p)
  {
  }

  /**
   One frame of keyboard movement: left moves by the player's speed only while
   x > 0, then right moves by it only while x < GW - width. Nothing clamps the
   result. Only x changes, and by at most one step.
   */
  function Steer(p: Player, left: bool, right: bool): (q: Player)
    ensures q == p.(x := q.x)
    ensures q.x == p.x - p.speed || q.x == p.x || q.x == p.x + p.speed
  {
    var afterLeft := if left && p.x > 0.0 then p.(x := p.x - p.speed) else p;
    if right && afterLeft.x < GW - afterLeft.width then afterLeft.(x := afterLeft.x + afterLeft.speed)
    else afterLeft
  }

  /** Each key acts alone exactly under its own guard. */
  lemma SteerSingleKey(p: Player)
    ensures Steer(p, true, false).x == if p.x > 0.0 then p.x - p.speed else p.x
    ensures Steer(p, false, true).x == if p.x < GW - p.width then p.x + p.speed else p.x
    ensures Steer(p, false, false) == p
  {
  }

  /**
   With both keys held both guards are tested in turn: inside the band
   0 < x < 445 the two steps cancel, at or left of 0 only the right step
   applies, and at or beyond 445 only the left one does.
   */
  lemma SteerBothKeys(p: Player)
    requires p.width == PlayerWidth && p.speed == PlayerSpeed
    ensures Steer(p, true, true).x ==
              if p.x <= 0.0 then p.x + 5.0 else if p.x < 445.0 then p.x else p.x - 5.0
  {
  }

  /**
   Keyboard drift is bounded by one step: a player strictly within one step
   of the arena stays there, whatever keys are held.
   */
  lemma SteerStaysNearArena(p: Player, left: bool, right: bool)
    requires p.speed > 0.0
    requires -p.speed < p.x < GW - p.width + p.speed
    ensures -p.speed < Steer(p, left, right).x < GW - p.width + p.speed
  {
  }

  /** Keyboard movement can leave the arena: after a drag to x = 2.3, left gives -2.7. */
  lemma SteerCanLeaveArena()
    ensures Steer(StartPlayer.(x := 2.3), true, false).x == -2.7
  {
  }

  /** Where a touch drag by delta leaves the player: moved, then clamped to [0, GW - width]. */
  function DragX(x: real, delta: real): (r: real)
    ensures 0.0 <= r <= GW - PlayerWidth
    ensures 0.0 <= x + delta <= GW - PlayerWidth ==> r == x + delta
    ensures x + delta < 0.0 ==> r == 0.0
    ensures x + delta > GW - PlayerWidth ==> r == GW - PlayerWidth
  {
    var moved := x + delta;
    var low := if moved < 0.0 then 0.0 else moved;
    if low > GW - PlayerWidth then GW - PlayerWidth else low
  }

  /** A freshly spawned heart: at a random x in [0, GW - 30), just above the arena, speed 2 + 2 * r2. */
  function NewHeart(r1: real, r2: real): (o: Faller)
    requires 0.0 <= r1 < 1.0 && 0.0 <= r2 < 1.0
    ensures 0.0 <= o.x < GW - HeartSize
    ensures o.y == -HeartSize && o.width == HeartSize && o.height == HeartSize
    ensures BaseSpeed <= o.speed < BaseSpeed + HeartSpeedRange
  {
    Faller(r1 * (GW - 30.0), -30.0, 30.0, 30.0, 2.0 + r2 * 2.0)
  }

  /** A freshly spawned mud: at a random x in [0, GW - 40), just above the arena, speed 2 + 3 * r2. */
  function NewMud(r1: real, r2: real): (o: Faller)
    requires 0.0 <= r1 < 1.0 && 0.0 <= r2 < 1.0
    ensures 0.0 <= o.x < GW - MudSize
    ensures o.y == -MudSize && o.width == MudSize && o.height == MudSize
    ensures BaseSpeed <= o.speed < BaseSpeed + MudSpeedRange
  {
    Faller(r1 * (GW - 40.0), -40.0, 40.0, 40.0, 2.0 + r2 * 3.0)
  }

  /** The shape every heart or mud of a given kind keeps for its whole life. */
  predicate WellFormed(o: Faller, size: real, speedRange: real)
  {
    o.width == size && o.height == size && 0.0 <= o.x < GW - size &&
    BaseSpeed <= o.speed < BaseSpeed + speedRange && -size <= o.y <= GH
  }

  /** Survivors of well-formed objects are well-formed: falling only moves y down and stays on screen. */
  lemma {:induction false} SurvivorsWellFormed(s: seq<Faller>, p: Player, size: real, speedRange: real)
    requires forall o :: o in s ==> WellFormed(o, size, speedRange)
    ensures forall o :: o in Survivors(s, p) ==> WellFormed(o, size, speedRange)
  {
    SurvivorsSound(s, p);
    forall o | o in Survivors(s, p) ensures WellFormed(o, size, speedRange) {
      assert WellFormed(Rise(o), size, speedRange);
    }
  }

  /**
   A player at (100, 500), 60 by 60, and a heart at (110, 520), 30 by 30,
   falling at speed 2: one frame catches the heart and keeps nothing.
   */
  lemma CatchOneHeart()
    ensures var p := Player(100.0, 500.0, 60.0, 60.0, 5.0);
            var h := Faller(110.0, 520.0, 30.0, 30.0, 2.0);
            Collisions([h], p) == 1 && Survivors([h], p) == [] && Missed([h]) == 0
  {
  }

  /**
   Two muds landing on the player in the same frame cost two lives, so a
   player with one life left ends on -1: nothing keeps lives at or above zero.
   */
  lemma TwoMudsCostTwoLives()
    ensures var m := Faller(StartPlayer.x, StartPlayer.y, MudSize, MudSize, BaseSpeed);
            1 - Collisions([m, m], StartPlayer) == -1
  {
  }
}
