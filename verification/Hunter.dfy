/**
  The hunter game: published players that move, shoot, flee and mate on a timer.

  What rand() returns is left open, so every claim holds whatever it returns. The two
  lists of players are sequences, the most recently added player first.
 */
module Hunter {

  const MIN_X := 5
  const MAX_X := 240
  const MIN_Y := 5
  const MAX_Y := 256
  const HUNTER_SIGHT := 40
  const HUNTER_RANGE := 6
  const RABBIT_SIGHT := 15
  const MATING_RANGE := 5
  const RABBIT_SPEED := 5
  const UNLIMITED: nat := 0xffff_ffff

  /** The colours of the young, in the order they are tried, and as a player keeps them. */
  const NAMES: seq<string> := ["Red", "Green", "Yellow", "Blue", "Magenta", "Cyan", "White"]
  const PALETTE: seq<string> := ["RED", "GREEN", "YELLOW", "BLUE", "MAGENTA", "CYAN", "WHITE"]

  datatype Sample = Sample(color: string, x: int, y: int)

  predicate InField(x: int, y: int) {
    MIN_X <= x <= MAX_X && MIN_Y <= y <= MAX_Y
  }

  predicate IsSpeed(d: int) {
    d != 0 && -RABBIT_SPEED <= d <= RABBIT_SPEED
  }

  function Upper(s: string): (u: string)
    ensures |u| == |s|
  {
    seq(|s|, i requires 0 <= i < |s| => if 'a' <= s[i] <= 'z' then s[i] - 'a' + 'A' else s[i])
  }

  /** A coordinate and a speed after one step between two walls. */
  function Step(at: int, speed: int, low: int, high: int): (r: (int, int))
    ensures low <= at <= high && low <= high ==> low <= r.0 <= high
    ensures r.1 == speed || r.1 == -speed
    ensures low <= at + speed <= high ==> r == (at + speed, speed)
    ensures low <= at <= high && at + speed < low ==> r == (low, -speed)
    ensures low <= at <= high && at + speed > high ==> r == (high, -speed)
  {
    if speed < 0 && at + speed < low then (low, -speed)
    else if speed > 0 && at + speed > high then (high, -speed)
    else (at + speed, speed)
  }

  /** Where a player is, where it heads, and its power. */
  datatype Pose = Pose(x: int, y: int, dx: int, dy: int, power: int)

  /** After the standard movement. */
  function Stepped(p: Pose): Pose {
    var sx, sy := Step(p.x, p.dx, MIN_X, MAX_X), Step(p.y, p.dy, MIN_Y, MAX_Y);
    Pose(sx.0, sy.0, sx.1, sy.1, p.power)
  }

  lemma SteppedTo(p: Pose)
    ensures Stepped(p).x == Step(p.x, p.dx, MIN_X, MAX_X).0 && Stepped(p).y == Step(p.y, p.dy, MIN_Y, MAX_Y).0
  {
  }

  class Player {
    const color: string
    const isHunter: bool
    const gender: int
    var x: int
    var y: int
    var dx: int
    var dy: int
    var power: int

    function Placed(): Pose
      reads this
    {
      Pose(x, y, dx, dy, power)
    }

    ghost predicate Ok()
      reads this
    {
      InField(x, y) && IsSpeed(dx) && IsSpeed(dy) && 1 <= power <= if isHunter then 20 else 100
    }

    constructor (color: string, isHunter: bool, gender: int, x: int, y: int, speed: (int, int), power: int)
      ensures this.color == color && this.isHunter == isHunter && this.gender == gender
      ensures this.x == x && this.y == y && (dx, dy) == speed && this.power == power
    {
      this.color, this.isHunter, this.gender := color, isHunter, gender;
      this.x, this.y, this.dx, this.dy, this.power := x, y, speed.0, speed.1, power;
    }

    /** Whether a place is less than `d` away in both directions. */
    predicate Near(qx: int, qy: int, d: int)
      reads this
    {
      Within(x, y, qx, qy, d)
    }

    /** The standard movement: a step, bouncing off the border. */
    method Go()
      requires Ok()
      modifies `x, `y, `dx, `dy
      ensures Ok()
      ensures (x, dx) == old(Step(x, dx, MIN_X, MAX_X)) && (y, dy) == old(Step(y, dy, MIN_Y, MAX_Y))
      ensures Placed() == Stepped(old(Placed()))
    {
      x := x + dx;
      if dx < 0 && x < MIN_X {
        x := MIN_X;
        dx := -dx;
      } else if dx > 0 && x > MAX_X {
        x := MAX_X;
        dx := -dx;
      }
      y := y + dy;
      if dy < 0 && y < MIN_Y {
        y := MIN_Y;
        dy := -dy;
      } else if dy > 0 && y > MAX_Y {
        y := MAX_Y;
        dy := -dy;
      }
    }

    /** Towards a rabbit in sight. */
    method Chase(rabbit: Player)
      requires Ok()
      modifies `dx, `dy
      ensures Ok() && dx == Toward(old(dx), x, rabbit.x) && dy == Toward(old(dy), y, rabbit.y)
      ensures rabbit.x < x ==> dx < 0
      ensures rabbit.x > x ==> dx > 0
      ensures rabbit.y < y ==> dy < 0
      ensures rabbit.y > y ==> dy > 0
    {
      if rabbit.x < x && dx > 0 {
        dx := -dx;
      }
      if rabbit.x > x && dx < 0 {
        dx := -dx;
      }
      if rabbit.y < y && dy > 0 {
        dy := -dy;
      }
      if rabbit.y > y && dy < 0 {
        dy := -dy;
      }
    }

    /** A shot that leaves some power slows a rabbit down and puts it elsewhere. */
    method Suffer(shot: int)
      requires Ok() && !isHunter && 0 < shot < power
      modifies this
      ensures Ok() && Wounded(old(Placed()), Placed(), shot)
    {
      power := power - shot;
      var speed := RABBIT_SPEED * power / 100 + 1;
      dx := if dx > 0 then speed else -speed;
      dy := if dy > 0 then speed else -speed;
      var newX: int :| MIN_X <= newX < MAX_X;
      var newY: int :| MIN_Y <= newY < MAX_Y;
      x, y := newX, newY;
    }

    /** Away from a hunter in sight. */
    method Flee(hunter: Player)
      requires Ok()
      modifies `dx, `dy
      ensures Ok() && dx == Away(old(dx), x, hunter.x) && dy == Away(old(dy), y, hunter.y)
      ensures hunter.x < x ==> dx > 0
      ensures hunter.x > x ==> dx < 0
      ensures hunter.y < y ==> dy > 0
      ensures hunter.y > y ==> dy < 0
    {
      if hunter.x < x && !(dx > 0) {
        dx := -dx;
      }
      if hunter.x > x && !(dx < 0) {
        dx := -dx;
      }
      if hunter.y < y && !(dy > 0) {
        dy := -dy;
      }
      if hunter.y > y && !(dy < 0) {
        dy := -dy;
      }
    }
  }

  predicate Within(px: int, py: int, qx: int, qy: int, d: int) {
    px - d < qx < px + d && py - d < qy < py + d
  }

  // ---- Fleeing and chasing ----

  /** The speed that leads away from a place. */
  function Away(speed: int, at: int, from: int): int {
    if (from < at && speed < 0) || (from > at && speed > 0) then -speed else speed
  }

  /** The speed that leads towards a place. */
  function Toward(speed: int, at: int, to: int): int {
    if (to < at && speed > 0) || (to > at && speed < 0) then -speed else speed
  }

  /** A rabbit turns away from a hunter in sight. */
  function Dodging(r: Pose, h: Pose): Pose {
    if Within(r.x, r.y, h.x, h.y, RABBIT_SIGHT) then r.(dx := Away(r.dx, r.x, h.x), dy := Away(r.dy, r.y, h.y)) else r
  }

  /** A hunter turns towards a rabbit in sight. */
  function Watching(h: Pose, r: Pose): Pose {
    if Within(h.x, h.y, r.x, r.y, HUNTER_SIGHT) then h.(dx := Toward(h.dx, h.x, r.x), dy := Toward(h.dy, h.y, r.y))
    else h
  }

  /** A rabbit after the first `n` hunters. */
  function Fled(r: Pose, hunters: seq<Pose>, n: nat): Pose
    requires n <= |hunters|
  {
    if n == 0 then r else Dodging(Fled(r, hunters, n - 1), hunters[n - 1])
  }

  /** A hunter after the first `n` rabbits. */
  function Chased(h: Pose, rabbits: seq<Pose>, n: nat): Pose
    requires n <= |rabbits|
  {
    if n == 0 then h else Watching(Chased(h, rabbits, n - 1), rabbits[n - 1])
  }

  /** Turning changes no place, power or pace. */
  predicate SamePace(p: Pose, q: Pose) {
    q == p.(dx := q.dx, dy := q.dy) && (q.dx == p.dx || q.dx == -p.dx) && (q.dy == p.dy || q.dy == -p.dy)
  }

  lemma {:induction false} FledPace(r: Pose, hunters: seq<Pose>, n: nat)
    requires n <= |hunters|
    ensures SamePace(r, Fled(r, hunters, n))
  {
    if n > 0 {
      FledPace(r, hunters, n - 1);
    }
  }

  lemma {:induction false} ChasedPace(h: Pose, rabbits: seq<Pose>, n: nat)
    requires n <= |rabbits|
    ensures SamePace(h, Chased(h, rabbits, n))
  {
    if n > 0 {
      ChasedPace(h, rabbits, n - 1);
    }
  }

  /** The rabbit heads away from the last hunter in sight that is to one side of it. */
  lemma {:induction false} FledAway(r: Pose, hunters: seq<Pose>, n: nat, k: nat)
    requires k < n <= |hunters| && r.dx != 0 && Within(r.x, r.y, hunters[k].x, hunters[k].y, RABBIT_SIGHT)
    requires forall j :: k < j < n && Within(r.x, r.y, hunters[j].x, hunters[j].y, RABBIT_SIGHT) ==> hunters[j].x == r.x
    ensures hunters[k].x < r.x ==> Fled(r, hunters, n).dx > 0
    ensures hunters[k].x > r.x ==> Fled(r, hunters, n).dx < 0
    decreases n
  {
    FledPace(r, hunters, n - 1);
    if k < n - 1 {
      FledAway(r, hunters, n - 1, k);
    }
  }

  /** The same above and below. */
  lemma {:induction false} FledAwayY(r: Pose, hunters: seq<Pose>, n: nat, k: nat)
    requires k < n <= |hunters| && r.dy != 0 && Within(r.x, r.y, hunters[k].x, hunters[k].y, RABBIT_SIGHT)
    requires forall j :: k < j < n && Within(r.x, r.y, hunters[j].x, hunters[j].y, RABBIT_SIGHT) ==> hunters[j].y == r.y
    ensures hunters[k].y < r.y ==> Fled(r, hunters, n).dy > 0
    ensures hunters[k].y > r.y ==> Fled(r, hunters, n).dy < 0
    decreases n
  {
    FledPace(r, hunters, n - 1);
    if k < n - 1 {
      FledAwayY(r, hunters, n - 1, k);
    }
  }

  /** The hunter heads for the last rabbit in sight that is to one side of it. */
  lemma {:induction false} ChasedToward(h: Pose, rabbits: seq<Pose>, n: nat, k: nat)
    requires k < n <= |rabbits| && h.dx != 0 && Within(h.x, h.y, rabbits[k].x, rabbits[k].y, HUNTER_SIGHT)
    requires forall j :: k < j < n && Within(h.x, h.y, rabbits[j].x, rabbits[j].y, HUNTER_SIGHT) ==> rabbits[j].x == h.x
    ensures rabbits[k].x < h.x ==> Chased(h, rabbits, n).dx < 0
    ensures rabbits[k].x > h.x ==> Chased(h, rabbits, n).dx > 0
    decreases n
  {
    ChasedPace(h, rabbits, n - 1);
    if k < n - 1 {
      ChasedToward(h, rabbits, n - 1, k);
    }
  }

  /** The same above and below. */
  lemma {:induction false} ChasedTowardY(h: Pose, rabbits: seq<Pose>, n: nat, k: nat)
    requires k < n <= |rabbits| && h.dy != 0 && Within(h.x, h.y, rabbits[k].x, rabbits[k].y, HUNTER_SIGHT)
    requires forall j :: k < j < n && Within(h.x, h.y, rabbits[j].x, rabbits[j].y, HUNTER_SIGHT) ==> rabbits[j].y == h.y
    ensures rabbits[k].y < h.y ==> Chased(h, rabbits, n).dy < 0
    ensures rabbits[k].y > h.y ==> Chased(h, rabbits, n).dy > 0
    decreases n
  {
    ChasedPace(h, rabbits, n - 1);
    if k < n - 1 {
      ChasedTowardY(h, rabbits, n - 1, k);
    }
  }

  // ---- Shooting ----

  ghost function Poses(players: seq<Player>): (s: seq<Pose>)
    reads players
    ensures |s| == |players| && forall i :: 0 <= i < |s| ==> s[i] == players[i].Placed()
  {
    if players == [] then [] else [players[0].Placed()] + Poses(players[1..])
  }

  lemma PosesAt(players: seq<Player>, poses: seq<Pose>)
    requires poses == Poses(players)
    ensures |poses| == |players| && forall i :: 0 <= i < |poses| ==> poses[i] == players[i].Placed()
  {
  }

  predicate InRange(h: Pose, r: Pose) {
    Within(h.x, h.y, r.x, r.y, HUNTER_RANGE)
  }

  /** A rabbit that was shot: it loses power and, if any is left, is slowed down and put elsewhere. */
  predicate Wounded(before: Pose, after: Pose, power: int) {
    && after.power == before.power - power
    && if after.power <= 0 then after == before.(power := after.power)
       else
         var speed := RABBIT_SPEED * after.power / 100 + 1;
         && MIN_X <= after.x < MAX_X && MIN_Y <= after.y < MAX_Y
         && after.dx == (if before.dx > 0 then speed else -speed)
         && after.dy == (if before.dy > 0 then speed else -speed)
  }

  /** A rabbit before and after a hunter has passed: shot exactly if it was in range. */
  predicate Passed(h: Pose, before: Pose, after: Pose) {
    if InRange(h, before) then Wounded(before, after, h.power) else after == before
  }

  /** The powers the rabbits have left when a hunter has passed. */
  function LeftPowers(h: Pose, herd: seq<Pose>): (s: seq<int>)
    ensures |s| == |herd|
    ensures forall i :: 0 <= i < |s| ==> s[i] == herd[i].power - if InRange(h, herd[i]) then h.power else 0
  {
    seq(|herd|, i requires 0 <= i < |herd| => herd[i].power - if InRange(h, herd[i]) then h.power else 0)
  }

  /** Those of the first `n` rabbits that have power left. */
  ghost function Survivors(rabbits: seq<Player>, powers: seq<int>, n: nat): seq<Player>
    requires n <= |rabbits| == |powers|
  {
    if n == 0 then [] else
    Survivors(rabbits, powers, n - 1) + if powers[n - 1] > 0 then [rabbits[n - 1]] else []
  }

  lemma {:induction false} SurvivorsIn(rabbits: seq<Player>, powers: seq<int>, n: nat)
    requires n <= |rabbits| == |powers|
    ensures forall r :: r in Survivors(rabbits, powers, n) ==> r in rabbits
  {
    if n > 0 {
      SurvivorsIn(rabbits, powers, n - 1);
    }
  }

  lemma PassedOn(list: seq<Player>, powers: seq<int>, i: nat, rabbits: seq<Player>)
    requires i < |list| == |powers|
    requires var alive := Survivors(list, powers, i);
      var before := alive + list[i..];
      rabbits == if powers[i] <= 0 then before[..|alive|] + before[|alive| + 1..] else before
    ensures rabbits == Survivors(list, powers, i + 1) + list[i + 1..]
  {
    var alive := Survivors(list, powers, i);
    TakeOut(alive, list, i);
    assert alive + [] == alive;
  }

  lemma TakeOut(alive: seq<Player>, list: seq<Player>, i: nat)
    requires i < |list|
    ensures var before := alive + list[i..];
      && before == alive + [list[i]] + list[i + 1..]
      && before[..|alive|] + before[|alive| + 1..] == alive + list[i + 1..]
  {
  }

  // ---- Colours ----

  ghost predicate Used(players: seq<Player>, color: string) {
    exists i :: 0 <= i < |players| && players[i].color == color
  }

  /** The colours a young rabbit can still get. */
  ghost function Free(rabbits: seq<Player>): set<string> {
    set c | c in PALETTE && !Used(rabbits, c)
  }

  ghost predicate DistinctColors(players: seq<Player>) {
    forall i, j :: 0 <= i < j < |players| ==> players[i].color != players[j].color
  }

  lemma DistinctPlayers(players: seq<Player>)
    requires DistinctColors(players)
    ensures forall i, j :: 0 <= i < j < |players| ==> players[i] != players[j]
  {
  }

  lemma UsedGrows(before: seq<Player>, after: seq<Player>)
    requires forall p :: p in before ==> p in after
    ensures forall c :: Used(before, c) ==> Used(after, c)
    ensures Free(after) <= Free(before)
  {
    forall c | Used(before, c) ensures Used(after, c) {
      var i :| 0 <= i < |before| && before[i].color == c;
      assert before[i] in after;
    }
  }

  lemma ColorTaken(rabbits: seq<Player>, p: Player)
    requires p.color in PALETTE && !Used(rabbits, p.color)
    ensures Free([p] + rabbits) < Free(rabbits) && Free(rabbits) != {}
  {
    UsedGrows(rabbits, [p] + rabbits);
    assert ([p] + rabbits)[0].color == p.color;
    assert p.color in Free(rabbits) && p.color !in Free([p] + rabbits);
  }

  lemma PaletteSize()
    ensures |NAMES| == |PALETTE|
  {
  }

  lemma PaletteUpper(i: nat)
    requires i < |NAMES|
    ensures Upper(NAMES[i]) == PALETTE[i]
  {
  }

  /** The young get the first colour no rabbit has. */
  ghost predicate IsFirstFree(rabbits: seq<Player>, k: nat) {
    k < |PALETTE| && !Used(rabbits, PALETTE[k]) && forall j :: 0 <= j < k ==> Used(rabbits, PALETTE[j])
  }

  lemma NoneFree(rabbits: seq<Player>)
    requires forall j :: 0 <= j < |PALETTE| ==> Used(rabbits, PALETTE[j])
    ensures Free(rabbits) == {}
  {
  }

  ghost predicate GetsFirstFree(rabbits: seq<Player>, young: Player) {
    exists k: nat :: IsFirstFree(rabbits, k) && young.color == PALETTE[k]
  }

  /** Some new rabbit has the first colour that was free. */
  ghost predicate Born(before: seq<Player>, after: seq<Player>) {
    exists r :: r in after && r !in before && GetsFirstFree(before, r)
  }

  lemma YoungBorn(before: seq<Player>, after: seq<Player>, young: Player)
    requires young in after && GetsFirstFree(before, young)
    ensures Born(before, after)
  {
    UsedColor(before, young);
  }

  lemma BornStays(before: seq<Player>, between: seq<Player>, after: seq<Player>)
    requires Born(before, between) && forall p :: p in between ==> p in after
    ensures Born(before, after)
  {
  }

  /** Another rabbit of the other gender is close to a place. */
  predicate Meets(player: Player, at: Pose, other: Player, pose: Pose) {
    && other != player && other.gender != player.gender
    && Within(at.x, at.y, pose.x, pose.y, MATING_RANGE)
  }

  lemma MeetsNear(player: Player, other: Player)
    ensures Meets(player, player.Placed(), other, other.Placed())
       <==> other != player && other.gender != player.gender && player.Near(other.x, other.y, MATING_RANGE)
  {
  }

  /** The rabbits after one at a place has met the first `n` of them: some young with the first free
      colour if there was a colour left and one to mate with, and none otherwise. */
  ghost predicate Mated(player: Player, at: Pose, list: seq<Player>, herd: seq<Pose>, n: nat, rabbits: seq<Player>)
    requires n <= |list| == |herd|
  {
    if Free(list) != {} && exists j :: 0 <= j < n && Meets(player, at, list[j], herd[j]) then Born(list, rabbits)
    else rabbits == list
  }

  /** The pose of the player itself does not matter, nor where the player heads. */
  lemma MatedFrom(player: Player, at: Pose, at': Pose, list: seq<Player>, herd: seq<Pose>, herd': seq<Pose>,
                  rabbits: seq<Player>)
    requires |list| == |herd| == |herd'| && at.x == at'.x && at.y == at'.y
    requires forall j :: 0 <= j < |list| && list[j] != player ==> herd[j] == herd'[j]
    requires Mated(player, at, list, herd, |list|, rabbits)
    ensures Mated(player, at', list, herd', |list|, rabbits)
  {
    hide Free, Born;
    assert forall j :: 0 <= j < |list| ==> Meets(player, at, list[j], herd[j]) == Meets(player, at', list[j], herd'[j]);
  }

  lemma MetNone(player: Player, at: Pose, list: seq<Player>, herd: seq<Pose>)
    requires |list| == |herd|
    ensures Mated(player, at, list, herd, 0, list)
  {
  }

  lemma MetOne(player: Player, at: Pose, list: seq<Player>, herd: seq<Pose>, i: nat, before: seq<Player>,
               after: seq<Player>)
    requires i < |list| == |herd| && Mated(player, at, list, herd, i, before)
    requires forall p :: p in before ==> p in after
    requires if Meets(player, at, list[i], herd[i]) && Free(before) != {} then Born(before, after) else after == before
    ensures Mated(player, at, list, herd, i + 1, after)
  {
    hide Free, Meets, Born;
    if before != list && Born(list, before) {
      BornStays(list, before, after);
    }
  }

  lemma UsedColor(players: seq<Player>, p: Player)
    ensures p in players ==> Used(players, p.color)
  {
    if p in players {
      var i :| 0 <= i < |players| && players[i] == p;
      assert players[i].color == p.color;
    }
  }

  /** The steps left of `n` after `used` samples; 0 and UNLIMITED do not count. */
  function StepsLeft(n: nat, used: nat): nat {
    if n == 0 || n == UNLIMITED then n else if used >= n then 0 else n - used
  }

  // ---- The game ----

  /** The lists and the flags of a game. */
  datatype State = State(hunters: seq<Player>, rabbits: seq<Player>, published: seq<Sample>,
                         aborting: bool, paused: bool, nsteps: nat)

  /** The samples written are counted against the steps, and the last step pauses the game. */
  ghost predicate Counted(s: State, s': State) {
    && s'.hunters == s.hunters && s'.aborting == s.aborting
    && s.published <= s'.published
    && s'.nsteps == StepsLeft(s.nsteps, |s'.published| - |s.published|)
    && (s'.paused <==> s.paused || (s.nsteps != 0 && s'.nsteps == 0))
  }

  /** Besides, only young rabbits were added, in front. */
  ghost predicate Grown(s: State, s': State) {
    && Counted(s, s')
    && |s.rabbits| <= |s'.rabbits| && s'.rabbits[|s'.rabbits| - |s.rabbits|..] == s.rabbits
    && forall i :: 0 <= i < |s'.rabbits| - |s.rabbits| ==> s'.rabbits[i].color in PALETTE
  }

  /** No more young are born than there were colours left. */
  lemma {:induction false} BirthsBounded(s: State, s': State)
    requires Grown(s, s') && DistinctColors(s'.rabbits)
    ensures |s'.rabbits| <= |s.rabbits| + |Free(s.rabbits)|
  {
    var n := |s'.rabbits| - |s.rabbits|;
    ColorsTaken(s.rabbits, s'.rabbits, n);
  }

  /** The first `n` of the rabbits, none of them among the others, took as many free colours. */
  lemma {:induction false} ColorsTaken(before: seq<Player>, after: seq<Player>, n: nat)
    requires n <= |after| && after[n..] == before && DistinctColors(after)
    requires forall i :: 0 <= i < n ==> after[i].color in PALETTE
    ensures n <= |Free(before)|
  {
    var taken: set<string> := {};
    var i := 0;
    while i < n
      invariant 0 <= i <= n && |taken| == i && taken <= Free(before)
      invariant forall c :: c in taken ==> exists j :: 0 <= j < i && after[j].color == c
    {
      var c := after[i].color;
      forall j | 0 <= j < |before| ensures before[j].color != c {
        assert after[n + j] == after[n..][j];
      }
      assert c !in taken && c in Free(before);
      taken := taken + {c};
      i := i + 1;
    }
    Subset(taken, Free(before));
  }

  lemma {:induction false} Subset(a: set<string>, b: set<string>)
    requires a <= b
    ensures |a| <= |b|
  {
    assert b == a + (b - a);
  }

  lemma SameSteps(s: State, s': State)
    requires s' == s.(rabbits := s'.rabbits)
    ensures Counted(s, s')
  {
  }

  lemma CountedKeeps(s: State, s': State)
    requires Counted(s, s')
    ensures s'.hunters == s.hunters && s.published <= s'.published
  {
  }

  lemma OneMoreSample(s: State, s': State, sample: Sample)
    requires Counted(s, s')
    ensures |s.published| < |s'.published + [sample]|
  {
  }

  lemma GrownCounted(s: State, s': State)
    requires Grown(s, s')
    ensures Counted(s, s')
  {
  }

  lemma GrownMore(s: State, s': State, s'': State)
    requires Grown(s, s') && Grown(s', s'') && s.nsteps <= UNLIMITED
    ensures Grown(s, s'')
  {
    var k := |s''.rabbits| - |s.rabbits|;
    var k' := |s''.rabbits| - |s'.rabbits|;
    assert s''.rabbits[k..] == s''.rabbits[k'..][k - k'..];
  }

  lemma OneMore(s: State, s': State, p: Player)
    requires s' == s.(rabbits := [p] + s.rabbits) && GetsFirstFree(s.rabbits, p)
    ensures Grown(s, s')
  {
  }

  lemma PublishedAfter(s: State, s': State, s'': State)
    requires Counted(s, s') && Counted(s', s'') && s.nsteps <= UNLIMITED && s''.rabbits == s'.rabbits
    ensures Counted(s, s'')
    ensures Grown(s, s') ==> Grown(s, s'')
  {
  }

  lemma GrownKeeps(s: State, s': State)
    requires Grown(s, s')
    ensures forall p :: p in s.rabbits ==> p in s'.rabbits
    ensures Free(s'.rabbits) <= Free(s.rabbits)
  {
    forall p | p in s.rabbits ensures p in s'.rabbits {
      var i :| 0 <= i < |s.rabbits| && s.rabbits[i] == p;
      assert s'.rabbits[|s'.rabbits| - |s.rabbits|..][i] == p;
    }
    UsedGrows(s.rabbits, s'.rabbits);
  }

  /** A player is added, as on the command line, a listed player is activated, as at start-up, or both,
      as from the menu; a timer fires, or the command shell sets the flags. */
  datatype Event =
    | Addition(isHunter: bool, color: string)
    | Activation(isHunter: bool, index: nat)
    | Join(isHunter: bool, color: string)
    | Timer(isHunter: bool, index: nat)
    | Control(aborting: bool, paused: bool, nsteps: nat)

  /** The player at an index of one of the lists. */
  ghost function Listed(isHunter: bool, index: nat, hunters: seq<Player>, rabbits: seq<Player>): Player? {
    var list := if isHunter then hunters else rabbits;
    if index < |list| then list[index] else null
  }

  class Game {
    var hunters: seq<Player>
    var rabbits: seq<Player>
    var published: seq<Sample>
    var aborting: bool
    var paused: bool
    var nsteps: nat

    ghost predicate Valid()
      reads this, hunters, rabbits
    {
      && (forall p :: p in hunters ==> p.isHunter && p.Ok())
      && (forall p :: p in rabbits ==> !p.isHunter && p.Ok())
      && DistinctColors(hunters) && DistinctColors(rabbits)
      && (forall i :: 0 <= i < |published| ==> InField(published[i].x, published[i].y))
      && nsteps <= UNLIMITED
    }

    ghost function Now(): State
      reads this
    {
      State(hunters, rabbits, published, aborting, paused, nsteps)
    }

    lemma Unchanged()
      requires Valid()
      ensures Grown(Now(), Now()) && Counted(Now(), Now()) && nsteps <= UNLIMITED
    {
    }

    constructor ()
      ensures Valid() && hunters == [] && rabbits == [] && published == []
    {
      hunters, rabbits, published := [], [], [];
      aborting, paused, nsteps := false, false, UNLIMITED;
    }

    /** player_add: refused exactly when the list has that colour, in any case of letters. */
    method Add(isHunter: bool, color: string) returns (p: Player?)
      requires Valid()
      modifies `hunters, `rabbits
      ensures Valid()
      ensures p == null <==> Used(old(if isHunter then hunters else rabbits), Upper(color))
      ensures p == null ==> hunters == old(hunters) && rabbits == old(rabbits)
      ensures p != null ==> fresh(p) && p.isHunter == isHunter && p.color == Upper(color)
      ensures p != null ==> MIN_X <= p.x < MAX_X && MIN_Y <= p.y < MAX_Y && 0 <= p.gender < 2
      ensures p != null && isHunter ==> 1 <= p.dx <= 5 && 1 <= p.dy <= 5 && 1 <= p.power <= 20
      ensures p != null && !isHunter ==> p.dx == p.dy == RABBIT_SPEED && p.power == 100
      ensures p != null && isHunter ==> hunters == [p] + old(hunters) && rabbits == old(rabbits)
      ensures p != null && !isHunter ==> rabbits == [p] + old(rabbits) && hunters == old(hunters)
    {
      var list := if isHunter then hunters else rabbits;
      var i := 0;
      while i < |list|
        invariant 0 <= i <= |list|
        invariant forall j :: 0 <= j < i ==> list[j].color != Upper(color)
      {
        if list[i].color == Upper(color) {
          return null;
        }
        i := i + 1;
      }
      var x: int :| MIN_X <= x < MAX_X;
      var y: int :| MIN_Y <= y < MAX_Y;
      var gender: int :| 0 <= gender < 2;
      if isHunter {
        var dx: int :| 1 <= dx <= 5;
        var dy: int :| 1 <= dy <= 5;
        var power: int :| 1 <= power <= 20;
        p := new Player(Upper(color), true, gender, x, y, (dx, dy), power);
        hunters := [p] + hunters;
      } else {
        p := new Player(Upper(color), false, gender, x, y, (RABBIT_SPEED, RABBIT_SPEED), 100);
        rabbits := [p] + rabbits;
      }
    }

    /** player_delete of a published rabbit. */
    method Delete(rabbit: Player, ghost k: nat)
      requires Valid() && k < |rabbits| && rabbits[k] == rabbit
      modifies `rabbits
      ensures Valid() && rabbits == old(rabbits[..k] + rabbits[k + 1..]) && rabbit !in rabbits
    {
      var i := 0;
      while rabbits[i] != rabbit
        invariant 0 <= i <= k
        decreases k - i
      {
        i := i + 1;
      }
      SameColor(rabbits, i, k);
      rabbits := rabbits[..i] + rabbits[i + 1..];
    }

    lemma SameColor(players: seq<Player>, i: nat, k: nat)
      requires i <= k < |players| && DistinctColors(players) && players[i] == players[k]
      ensures i == k
    {
    }

    /** player_shoot */
    method Shoot(hunter: Player, rabbit: Player, ghost k: nat)
      requires Valid() && hunter in hunters && k < |rabbits| && rabbits[k] == rabbit
      modifies `rabbits, rabbit
      ensures Valid()
      ensures rabbit.power == old(rabbit.power) - hunter.power
      ensures rabbits == if rabbit.power <= 0 then old(rabbits[..k] + rabbits[k + 1..]) else old(rabbits)
      ensures Wounded(old(rabbit.Placed()), rabbit.Placed(), hunter.power)
    {
      hide DistinctColors;
      if rabbit.power <= hunter.power {
        Delete(rabbit, k);
        rabbit.power := rabbit.power - hunter.power;
      } else {
        rabbit.Suffer(hunter.power);
      }
    }

    /** Towards a rabbit if it is in sight. */
    method Watch(hunter: Player, rabbit: Player)
      requires Valid() && hunter in hunters
      modifies hunter`dx, hunter`dy
      ensures Valid() && hunter.Placed() == Watching(old(hunter.Placed()), rabbit.Placed())
      ensures hunter.Near(rabbit.x, rabbit.y, HUNTER_SIGHT) ==>
        && (rabbit.x < hunter.x ==> hunter.dx < 0) && (rabbit.x > hunter.x ==> hunter.dx > 0)
        && (rabbit.y < hunter.y ==> hunter.dy < 0) && (rabbit.y > hunter.y ==> hunter.dy > 0)
    {
      if hunter.Near(rabbit.x, rabbit.y, HUNTER_SIGHT) {
        hunter.Chase(rabbit);
      }
    }

    lemma Apart(hunter: Player, rabbit: Player)
      requires Valid() && hunter in hunters && rabbit in rabbits
      ensures hunter != rabbit && rabbit.power > 0
    {
    }

    /** Where a hunter that started from `h` is in the list it found, with the poses it found: the first
        `i` rabbits have been dealt with. */
    ghost predicate Hunting(hunter: Player, h: Pose, list: seq<Player>, herd: seq<Pose>, i: nat)
      requires i <= |list| == |herd|
      reads `rabbits, hunter, list
    {
      && rabbits == Survivors(list, LeftPowers(h, herd), i) + list[i..]
      && hunter.Placed() == Chased(h, herd, i)
      && (forall j :: 0 <= j < i ==> Passed(h, herd[j], list[j].Placed()))
      && (forall j :: i <= j < |list| ==> list[j].Placed() == herd[j])
    }

    /** What a hunter does about one rabbit: chase it in sight, shoot it in range. */
    method Confront(hunter: Player, ghost h: Pose, list: seq<Player>, ghost herd: seq<Pose>, i: nat)
      requires Valid() && hunter in hunters
      requires i < |list| == |herd| && DistinctColors(list) && hunter !in list && Hunting(hunter, h, list, herd, i)
      modifies `rabbits, list[i], hunter`dx, hunter`dy
      ensures Valid() && Hunting(hunter, h, list, herd, i + 1)
    {
      hide Valid, DistinctColors, Survivors, Chased, Watching, Passed, LeftPowers, SamePace;
      var rabbit := list[i];
      ghost var left := LeftPowers(h, herd);
      ghost var alive := Survivors(list, left, i);
      assert rabbit == rabbits[|alive|];
      Apart(hunter, rabbit);
      DistinctPlayers(list);
      ChasedOne(h, herd, i);
      Watch(hunter, rabbit);
      PassedIn(h, herd, i, hunter.Placed());
      if hunter.Near(rabbit.x, rabbit.y, HUNTER_RANGE) {
        Shoot(hunter, rabbit, |alive|);
      }
      PassedOn(list, left, i, rabbits);
    }

    lemma ChasedOne(h: Pose, herd: seq<Pose>, i: nat)
      requires i < |herd|
      ensures Chased(h, herd, i + 1) == Watching(Chased(h, herd, i), herd[i])
    {
    }

    /** What decides about the rabbit at an index. */
    lemma PassedIn(h: Pose, herd: seq<Pose>, i: nat, now: Pose)
      requires i < |herd| && now == Chased(h, herd, i + 1)
      ensures InRange(h, herd[i]) <==> Within(now.x, now.y, herd[i].x, herd[i].y, HUNTER_RANGE)
      ensures LeftPowers(h, herd)[i] == herd[i].power - if InRange(h, herd[i]) then now.power else 0
      ensures !InRange(h, herd[i]) ==> Passed(h, herd[i], herd[i])
      ensures InRange(h, herd[i]) ==> forall after :: Wounded(herd[i], after, now.power) ==> Passed(h, herd[i], after)
    {
      ChasedPace(h, herd, i + 1);
    }

    /** The hunter turns towards the rabbits in sight one after the other; those in range are shot, and
        those with power left stay, in the same order. */
    method Hunt(hunter: Player)
      requires Valid() && hunter in hunters
      modifies `rabbits, rabbits, hunter`dx, hunter`dy
      ensures Valid()
      ensures forall r :: r in rabbits ==> r in old(rabbits)
      ensures Hunted(hunter, old(hunter.Placed()), old(rabbits), old(Poses(rabbits)))
    {
      hide Valid, DistinctColors, Hunting, Hunted, Poses;
      var list := rabbits;
      ghost var h, herd := hunter.Placed(), Poses(list);
      OneList(hunter);
      HuntStarts(hunter);
      HuntThrough(hunter, h, list, herd);
      HuntEnds(hunter, h, list, herd);
    }

    /** A hunter that started from `h` has dealt with the rabbits it found. */
    ghost predicate Hunted(hunter: Player, h: Pose, list: seq<Player>, herd: seq<Pose>)
      reads `rabbits, hunter, list
    {
      && |list| == |herd| && hunter.Placed() == Chased(h, herd, |herd|)
      && (forall j :: 0 <= j < |list| ==> Passed(h, herd[j], list[j].Placed()))
      && rabbits == Survivors(list, LeftPowers(h, herd), |list|)
    }

    /** The loop over the rabbits found. */
    method HuntThrough(hunter: Player, ghost h: Pose, list: seq<Player>, ghost herd: seq<Pose>)
      requires Valid() && hunter in hunters && |list| == |herd| && DistinctColors(list) && hunter !in list
      requires Hunting(hunter, h, list, herd, 0)
      modifies `rabbits, list, hunter`dx, hunter`dy
      ensures Valid() && Hunting(hunter, h, list, herd, |list|)
    {
      hide Valid, DistinctColors, Hunting;
      var i := 0;
      while i < |list|
        invariant 0 <= i <= |list| && Valid() && Hunting(hunter, h, list, herd, i)
      {
        Confront(hunter, h, list, herd, i);
        i := i + 1;
      }
    }

    lemma HuntStarts(hunter: Player)
      requires Valid()
      ensures DistinctColors(rabbits) && |Poses(rabbits)| == |rabbits|
      ensures Hunting(hunter, hunter.Placed(), rabbits, Poses(rabbits), 0)
    {
    }

    lemma HuntEnds(hunter: Player, h: Pose, list: seq<Player>, herd: seq<Pose>)
      requires |herd| == |list| && Hunting(hunter, h, list, herd, |list|)
      ensures Hunted(hunter, h, list, herd)
      ensures forall r :: r in rabbits ==> r in list
    {
      SurvivorsIn(list, LeftPowers(h, herd), |list|);
    }

    /** What a rabbit does about one hunter. */
    method Dodge(rabbit: Player, hunter: Player)
      requires Valid() && rabbit in rabbits
      modifies rabbit`dx, rabbit`dy
      ensures Valid() && rabbit.Placed() == Dodging(old(rabbit.Placed()), old(hunter.Placed()))
    {
      if rabbit.Near(hunter.x, hunter.y, RABBIT_SIGHT) {
        rabbit.Flee(hunter);
      }
    }

    /** What a rabbit does about the hunters. */
    method Escape(rabbit: Player)
      requires Valid() && rabbit in rabbits
      modifies rabbit`dx, rabbit`dy
      ensures Valid()
      ensures rabbit.Placed() == Fled(old(rabbit.Placed()), old(Poses(hunters)), |hunters|)
    {
      hide Valid, Dodging;
      OneList(rabbit);
      var i := 0;
      while i < |hunters|
        invariant 0 <= i <= |hunters| && Valid()
        invariant rabbit.Placed() == Fled(old(rabbit.Placed()), old(Poses(hunters)), i)
      {
        OneList(rabbit);
        Dodge(rabbit, hunters[i]);
        i := i + 1;
      }
    }

    lemma OneList(player: Player)
      requires Valid()
      ensures player in hunters ==> player !in rabbits
    {
    }

    /** A young rabbit with the first colour no rabbit has, if there is one left. */
    method AddYoung() returns (young: Player?)
      requires Valid()
      modifies `hunters, `rabbits
      ensures Valid() && hunters == old(hunters) && (young == null <==> Free(old(rabbits)) == {})
      ensures young == null ==> unchanged(this)
      ensures young != null ==> fresh(young) && !young.isHunter && rabbits == [young] + old(rabbits)
      ensures young != null ==> Free(rabbits) < Free(old(rabbits))
      ensures young != null ==> GetsFirstFree(old(rabbits), young)
    {
      hide Valid, Free, Used, NAMES, PALETTE, Upper;
      PaletteSize();
      var color := 0;
      while color < |NAMES|
        invariant 0 <= color <= |NAMES| && Valid() && unchanged(this)
        invariant forall j :: 0 <= j < color ==> Used(rabbits, PALETTE[j])
      {
        PaletteUpper(color);
        young := Add(false, NAMES[color]);
        if young != null {
          ColorTaken(old(rabbits), young);
          assert IsFirstFree(old(rabbits), color);
          return;
        }
        color := color + 1;
      }
      NoneFree(rabbits);
      young := null;
    }

    /** A rabbit is activated: no other player of the game is touched. */
    method Raise(young: Player)
      requires Valid() && young in rabbits && !young.isHunter
      modifies this, young
      ensures Valid() && Grown(old(Now()), Now()) && young in rabbits
      ensures forall r :: r in rabbits ==> r in old(rabbits) || fresh(r)
      decreases Free(rabbits), 7
    {
      hide Valid, Counted, Grown, Free;
      Activate(young);
    }

    /** rabbit_mate */
    method Mate(rabbit1: Player, rabbit2: Player)
      requires Valid() && rabbit1 in rabbits && rabbit2 in rabbits
      modifies this
      ensures Valid() && Grown(old(Now()), Now())
      ensures rabbit1.gender == rabbit2.gender || Free(old(rabbits)) == {} ==> unchanged(this)
      ensures rabbit1.gender != rabbit2.gender && Free(old(rabbits)) != {} ==> Born(old(rabbits), rabbits)
      ensures forall r :: r in rabbits ==> r in old(rabbits) || fresh(r)
      decreases Free(rabbits), 1
    {
      hide Valid, Counted, Grown, Free, Used, GetsFirstFree, Born;
      Unchanged();
      if rabbit1.gender != rabbit2.gender {
        var young := AddYoung();
        if young != null {
          ghost var added := Now();
          OneMore(old(Now()), added, young);
          assert forall r :: r in rabbits ==> r in old(rabbits) || r == young;
          Raise(young);
          forall r | r in rabbits ensures r in old(rabbits) || fresh(r) {
            assert r in added.rabbits ==> r in old(rabbits) || r == young;
          }
          GrownMore(old(Now()), added, Now());
          YoungBorn(old(rabbits), rabbits, young);
        }
      }
    }

    /** What a rabbit does about the other rabbits; those born meanwhile are not met. */
    method MeetRabbits(player: Player)
      requires Valid() && player in rabbits
      modifies this
      ensures Valid() && Grown(old(Now()), Now()) && player in rabbits
      ensures forall r :: r in rabbits ==> r in old(rabbits) || fresh(r)
      ensures Mated(player, player.Placed(), old(rabbits), old(Poses(rabbits)), |old(rabbits)|, rabbits)
      decreases Free(rabbits), 2
    {
      hide Valid, Counted, Grown, Free, Used, IsFirstFree, PALETTE, Born, Mated, Meets, Within, Poses;
      Unchanged();
      var list := rabbits;
      ghost var here, herd := player.Placed(), Poses(list);
      PosesAt(list, herd);
      MetNone(player, here, list, herd);
      var i := 0;
      while i < |list|
        invariant 0 <= i <= |list| && Valid() && Grown(old(Now()), Now()) && player in rabbits
        invariant forall r :: r in rabbits ==> r in old(rabbits) || fresh(r)
        invariant Mated(player, here, list, herd, i, rabbits)
      {
        ghost var before := Now();
        GrownKeeps(old(Now()), before);
        MeetsNear(player, list[i]);
        if player != list[i] && player.Near(list[i].x, list[i].y, MATING_RANGE) {
          Mate(player, list[i]);
          GrownKeeps(before, Now());
          GrownMore(old(Now()), before, Now());
        }
        MetOne(player, here, list, herd, i, before.rabbits, rabbits);
        i := i + 1;
      }
    }

    /** The standard movement of a player of the game. */
    method Walk(player: Player)
      requires Valid() && player in (if player.isHunter then hunters else rabbits)
      modifies player`x, player`y, player`dx, player`dy
      ensures Valid() && player.Placed() == Stepped(old(player.Placed()))
    {
      player.Go();
    }

    /** A player that was at `p` has moved, when the rabbits were these with the poses of `herd` and the
        hunters had those of `pack`. From where its step takes it, a hunter hunts; a rabbit flees and mates. */
    ghost predicate Moved(player: Player, p: Pose, list: seq<Player>, herd: seq<Pose>, pack: seq<Pose>)
      requires |list| == |herd|
      reads `rabbits, player, list
    {
      if player.isHunter then Hunted(player, Stepped(p), list, herd)
      else
        && player.Placed() == Fled(Stepped(p), pack, |pack|)
        && Mated(player, Stepped(p), list, herd, |list|, rabbits)
    }

    /** player_move */
    method Move(player: Player)
      requires Valid() && player in (if player.isHunter then hunters else rabbits)
      modifies this, player, if player.isHunter then rabbits else []
      ensures Valid()
      ensures player.x == old(Step(player.x, player.dx, MIN_X, MAX_X)).0
      ensures player.y == old(Step(player.y, player.dy, MIN_Y, MAX_Y)).0
      ensures player in (if player.isHunter then hunters else rabbits)
      ensures Counted(old(Now()), Now())
      ensures !player.isHunter ==> Grown(old(Now()), Now())
      ensures forall r :: r in rabbits ==> r in old(rabbits) || fresh(r)
      ensures Moved(player, old(player.Placed()), old(rabbits), old(Poses(rabbits)), old(Poses(hunters)))
      decreases Free(rabbits), 3
    {
      hide Valid, Counted, Grown, Free, Step, Stepped, Survivors, Hunted, Mated, Fled, Chased, Poses;
      Unchanged();
      ghost var p, list, herd, pack := player.Placed(), rabbits, Poses(rabbits), Poses(hunters);
      OneList(player);
      PosesAt(list, herd);
      SteppedTo(p);
      Walk(player);
      if player.isHunter {
        Hunt(player);
        SameSteps(old(Now()), Now());
      } else {
        Escape(player);
        FledPace(Stepped(p), pack, |pack|);
        ghost var there, met := player.Placed(), Poses(rabbits);
        PosesAt(list, met);
        MeetRabbits(player);
        MatedFrom(player, there, Stepped(p), list, met, herd, rabbits);
        GrownCounted(old(Now()), Now());
      }
    }

    /** Writing the sample of a player, and counting down the steps if they are limited. */
    method Publish(player: Player)
      requires Valid() && player in (if player.isHunter then hunters else rabbits)
      modifies `published, `nsteps, `paused
      ensures Valid() && published == old(published) + [Sample(player.color, player.x, player.y)]
      ensures Counted(old(Now()), Now()) && rabbits == old(rabbits)
    {
      published := published + [Sample(player.color, player.x, player.y)];
      if nsteps != 0 && nsteps != UNLIMITED {
        nsteps := nsteps - 1;
        if nsteps == 0 {
          paused := true;
        }
      }
    }

    /** A move and its sample. */
    method TakeTurn(player: Player)
      requires Valid() && player in (if player.isHunter then hunters else rabbits)
      modifies this, player, if player.isHunter then rabbits else []
      ensures Valid()
      ensures player in (if player.isHunter then hunters else rabbits)
      ensures Counted(old(Now()), Now())
      ensures !player.isHunter ==> Grown(old(Now()), Now())
      ensures |old(published)| < |published| && published[|published| - 1] == Sample(player.color, player.x, player.y)
      ensures player.x == old(Step(player.x, player.dx, MIN_X, MAX_X)).0
      ensures player.y == old(Step(player.y, player.dy, MIN_Y, MAX_Y)).0
      ensures Moved(player, old(player.Placed()), old(rabbits), old(Poses(rabbits)), old(Poses(hunters)))
      ensures forall r :: r in rabbits ==> r in old(rabbits) || fresh(r)
      decreases Free(rabbits), 4
    {
      hide Valid, Counted, Grown, Free, Step, Moved, Poses, Player.Placed;
      Unchanged();
      ghost var start := Now();
      Move(player);
      ghost var moved := Now();
      Publish(player);
      PublishedAfter(start, moved, Now());
      OneMoreSample(start, moved, Sample(player.color, player.x, player.y));
    }

    /** player_timeout: one sample for the player that moved, after those of its young. */
    method Timeout(player: Player)
      requires Valid() && player in (if player.isHunter then hunters else rabbits)
      modifies this, player, if player.isHunter then rabbits else []
      ensures Valid()
      ensures player in (if player.isHunter then hunters else rabbits)
      ensures Counted(old(Now()), Now())
      ensures !player.isHunter ==> Grown(old(Now()), Now())
      ensures old(aborting || paused) ==> unchanged(this) && unchanged(player)
      ensures old(!aborting && !paused) ==>
        && |old(published)| < |published| && published[|published| - 1] == Sample(player.color, player.x, player.y)
        && player.x == old(Step(player.x, player.dx, MIN_X, MAX_X)).0
        && player.y == old(Step(player.y, player.dy, MIN_Y, MAX_Y)).0
        && Moved(player, old(player.Placed()), old(rabbits), old(Poses(rabbits)), old(Poses(hunters)))
      ensures old(aborting || paused) ==> Poses(old(rabbits)) == old(Poses(rabbits))
      ensures forall r :: r in rabbits ==> r in old(rabbits) || fresh(r)
      decreases Free(rabbits), 5
    {
      hide Valid, Counted, Grown, Free, Step, Moved, Poses;
      Unchanged();
      if aborting {
        return;
      }
      if !paused {
        TakeTurn(player);
      }
    }

    /** player_activate */
    method Activate(player: Player)
      requires Valid() && player in (if player.isHunter then hunters else rabbits)
      modifies this, player, if player.isHunter then rabbits else []
      ensures Valid()
      ensures player in (if player.isHunter then hunters else rabbits)
      ensures Counted(old(Now()), Now())
      ensures !player.isHunter ==> Grown(old(Now()), Now())
      ensures old(aborting || paused) ==> unchanged(this) && unchanged(player)
      ensures old(!aborting && !paused) ==>
        && |old(published)| < |published| && published[|published| - 1] == Sample(player.color, player.x, player.y)
        && player.x == old(Step(player.x, player.dx, MIN_X, MAX_X)).0
        && player.y == old(Step(player.y, player.dy, MIN_Y, MAX_Y)).0
        && Moved(player, old(player.Placed()), old(rabbits), old(Poses(rabbits)), old(Poses(hunters)))
      ensures old(aborting || paused) ==> Poses(old(rabbits)) == old(Poses(rabbits))
      ensures forall r :: r in rabbits ==> r in old(rabbits) || fresh(r)
      decreases Free(rabbits), 6
    {
      hide Valid, Counted, Grown, Free, Step, Moved, Poses;
      Timeout(player);
    }

    lemma ListedIn(isHunter: bool, index: nat)
      requires Valid() && index < |if isHunter then hunters else rabbits|
      ensures (if isHunter then hunters else rabbits)[index].isHunter == isHunter
    {
    }

    method SetFlags(abort: bool, pause: bool, steps: nat)
      requires Valid() && steps <= UNLIMITED
      modifies `aborting, `paused, `nsteps
      ensures Valid() && aborting == abort && paused == pause && nsteps == steps
    {
      aborting, paused, nsteps := abort, pause, steps;
    }

    /** A player is added and waits for its activation. */
    method Enlist(isHunter: bool, color: string)
      requires Valid()
      modifies this
      ensures Valid() && published == old(published)
      ensures forall p :: p in hunters ==> p in old(hunters) || fresh(p)
      ensures forall p :: p in rabbits ==> p in old(rabbits) || fresh(p)
      ensures |hunters + rabbits| == |old(hunters + rabbits)|
              + if Used(old(if isHunter then hunters else rabbits), Upper(color)) then 0 else 1
    {
      hide Valid, Used, Upper;
      var player := Add(isHunter, color);
    }

    /** A listed player is activated. */
    method Awaken(isHunter: bool, index: nat)
      requires Valid()
      modifies this, hunters, rabbits
      ensures Valid() && old(published) <= published
      ensures forall p :: p in hunters ==> p in old(hunters) || fresh(p)
      ensures forall p :: p in rabbits ==> p in old(rabbits) || fresh(p)
      ensures
        var player := Listed(isHunter, index, old(hunters), old(rabbits));
        player != null && old(!aborting && !paused) ==>
          Moved(player, old(player.Placed()), old(rabbits), old(Poses(rabbits)), old(Poses(hunters)))
    {
      hide Valid, Counted, Grown, Free, Step, Moved, Poses;
      var list := if isHunter then hunters else rabbits;
      if index < |list| {
        ListedIn(isHunter, index);
        Activate(list[index]);
        CountedKeeps(old(Now()), Now());
      }
    }

    /** A player that was just added is activated. */
    method Begin(player: Player)
      requires Valid() && player in (if player.isHunter then hunters else rabbits)
      modifies this, player, rabbits
      ensures Valid() && hunters == old(hunters) && old(published) <= published
      ensures forall r :: r in rabbits ==> r in old(rabbits) || fresh(r)
      ensures old(!aborting && !paused) ==>
        |old(published)| < |published| && published[|published| - 1].color == player.color
    {
      hide Valid, Counted, Grown, Free, Step, Moved, Poses;
      Activate(player);
      CountedKeeps(old(Now()), Now());
    }

    /** A player is added and, if the colour was not taken, activated. */
    method Enter(isHunter: bool, color: string)
      requires Valid()
      modifies this, rabbits
      ensures Valid() && old(published) <= published
      ensures forall p :: p in hunters ==> p in old(hunters) || fresh(p)
      ensures forall p :: p in rabbits ==> p in old(rabbits) || fresh(p)
      ensures !Used(old(if isHunter then hunters else rabbits), Upper(color)) && old(!aborting && !paused) ==>
        |old(published)| < |published| && published[|published| - 1].color == Upper(color)
    {
      hide Valid, Used, Upper;
      var player := Add(isHunter, color);
      if player != null {
        ghost var hs, rs := hunters, rabbits;
        Begin(player);
        assert hunters == hs && forall p :: p in rs ==> p in old(rabbits) || p == player;
      }
    }

    /** The timer of a published player fires. */
    method Fire(isHunter: bool, index: nat)
      requires Valid()
      modifies this, hunters, rabbits
      ensures Valid() && old(published) <= published
      ensures forall p :: p in hunters ==> p in old(hunters) || fresh(p)
      ensures forall p :: p in rabbits ==> p in old(rabbits) || fresh(p)
      ensures
        var player := Listed(isHunter, index, old(hunters), old(rabbits));
        player != null && old(!aborting && !paused) ==>
          Moved(player, old(player.Placed()), old(rabbits), old(Poses(rabbits)), old(Poses(hunters)))
    {
      hide Valid, Counted, Grown, Free, Step, Moved, Poses;
      var list := if isHunter then hunters else rabbits;
      if index < |list| {
        ListedIn(isHunter, index);
        Timeout(list[index]);
        CountedKeeps(old(Now()), Now());
      }
    }

    method Handle(event: Event)
      requires Valid()
      modifies this, hunters, rabbits
      ensures Valid() && old(published) <= published
      ensures forall p :: p in hunters ==> p in old(hunters) || fresh(p)
      ensures forall p :: p in rabbits ==> p in old(rabbits) || fresh(p)
    {
      hide Valid;
      match event {
        case Addition(isHunter, color) => {
          Enlist(isHunter, color);
        }
        case Activation(isHunter, index) => {
          Awaken(isHunter, index);
        }
        case Join(isHunter, color) => {
          Enter(isHunter, color);
        }
        case Timer(isHunter, index) => {
          Fire(isHunter, index);
        }
        case Control(abort, pause, steps) => {
          SetFlags(abort, pause, steps % (UNLIMITED + 1));
        }
      }
    }

    /**
      Any run of the game keeps the players and all the samples ever written as they should be.
     */
    method Run(events: seq<Event>)
      requires Valid()
      modifies this, hunters, rabbits
      ensures Valid() && old(published) <= published
    {
      hide Valid, Counted, Grown, Free, Step;
      var i := 0;
      while i < |events|
        invariant Valid() && old(published) <= published
        invariant forall p :: p in hunters ==> p in old(hunters) || fresh(p)
        invariant forall p :: p in rabbits ==> p in old(rabbits) || fresh(p)
      {
        assert forall j :: 0 <= j < |hunters| ==> hunters[j] in old(hunters) || fresh(hunters[j]);
        assert forall j :: 0 <= j < |rabbits| ==> rabbits[j] in old(rabbits) || fresh(rabbits[j]);
        Handle(events[i]);
        i := i + 1;
      }
    }
  }
}
