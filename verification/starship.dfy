/** The game logic of the spaceship scene: the keyboard handler that picks
    the curve and the speed, the star collision rule that scores, and the
    per-frame advance of the curve parameter `t` that ends the game once
    `t` passes 1. The three.js scene, the drawing and the spaceship's
    orientation are not part of this model. */
module Starship {

  datatype Key = ArrowLeft | ArrowRight | ArrowUp | ArrowDown | OtherKey

  /** A collectible star: its curve parameter, its curve, and whether its
      sphere is still shown. */
  datatype Star = Star(t: real, curve: int, visible: bool)

  /** The globals the handlers share: `t`, `t_increase_index`,
      `curve_index`, `score`, the stars, and whether the animation loop has
      been cancelled. */
  datatype Game = Game(t: real, stepIndex: int, curve: int, score: int, stars: seq<Star>, over: bool)

  /** `t_increase_values`. */
  const Steps: seq<real> := [0.0005, 0.001, 0.0015]

  /** The smallest step: every frame advances `t` by at least this. */
  const MinStep: real := 0.0005

  const InitialStars: seq<Star> :=
    [Star(0.2, 0, true), Star(0.8, 1, true), Star(0.5, 0, true), Star(0.3, 1, true), Star(0.6, 2, true)]

  /** The state when the page has loaded. */
  const Initial: Game := Game(0.1, 1, 0, 0, InitialStars, false)

  /** The curve index and the speed index are in range. */
  predicate Valid(g: Game) {
    0 <= g.curve < 3 && 0 <= g.stepIndex < |Steps|
  }

  /** `t_increase_values[t_increase_index]`. */
  function Step(g: Game): (s: real)
    requires 0 <= g.stepIndex < |Steps|
    ensures MinStep <= s
  {
    Steps[g.stepIndex]
  }

  /** JavaScript's `a % b`: the remainder takes the sign of `a`. */
  function JsRem(a: int, b: int): (r: int)
    requires 0 < b
    ensures 0 <= a ==> 0 <= r < b
    ensures a < 0 ==> -b < r <= 0
  {
    if 0 <= a then a % b else -((-a) % b)
  }

  /** `Math.abs`. */
  function Abs(x: real): real {
    if x < 0.0 then -x else x
  }

  // ---------------------------------------------------------------- keys

  /** `handle_keydown`: left and right cycle through the three curves,
      up and down move the speed index within 0 .. 2, any other key does
      nothing. Only the curve and the speed index can change. */
  function HandleKeydown(g: Game, k: Key): (r: Game)
    ensures r.t == g.t && r.score == g.score && r.stars == g.stars && r.over == g.over
    ensures k.ArrowUp? ==> r.curve == g.curve && r.stepIndex == (if g.stepIndex == 2 then 2 else g.stepIndex + 1)
    ensures k.ArrowDown? ==> r.curve == g.curve && r.stepIndex == (if g.stepIndex == 0 then 0 else g.stepIndex - 1)
    ensures k.OtherKey? ==> r == g
    ensures Valid(g) ==> Valid(r)
  {
    match k
    case ArrowLeft => g.(curve := JsRem(g.curve + 1, 3))
    case ArrowRight => if g.curve == 0 then g.(curve := 2) else g.(curve := JsRem(g.curve - 1, 3))
    case ArrowUp => if g.stepIndex != 2 then g.(stepIndex := g.stepIndex + 1) else g
    case ArrowDown => if g.stepIndex != 0 then g.(stepIndex := g.stepIndex - 1) else g
    case OtherKey => g
  }

  /** On a valid state, left moves to the next curve and right to the
      previous one, cyclically, and every key keeps the state valid. */
  lemma KeysCycleCurves(g: Game, k: Key)
    requires Valid(g)
    ensures Valid(HandleKeydown(g, k))
    ensures k.ArrowLeft? ==> HandleKeydown(g, k) == g.(curve := (g.curve + 1) % 3)
    ensures k.ArrowRight? ==> HandleKeydown(g, k) == g.(curve := (g.curve + 2) % 3)
  {
  }

  /** Left and right undo each other. */
  lemma LeftRightInverse(g: Game)
    requires Valid(g)
    ensures HandleKeydown(HandleKeydown(g, ArrowLeft), ArrowRight) == g
    ensures HandleKeydown(HandleKeydown(g, ArrowRight), ArrowLeft) == g
  {
    KeysCycleCurves(g, ArrowLeft);
    KeysCycleCurves(g, ArrowRight);
    KeysCycleCurves(HandleKeydown(g, ArrowLeft), ArrowRight);
    KeysCycleCurves(HandleKeydown(g, ArrowRight), ArrowLeft);
  }

  /** Three presses of left come back to the same curve. */
  lemma ThreeLeftsComeBack(g: Game)
    requires Valid(g)
    ensures HandleKeydown(HandleKeydown(HandleKeydown(g, ArrowLeft), ArrowLeft), ArrowLeft) == g
  {
    var g1 := HandleKeydown(g, ArrowLeft);
    var g2 := HandleKeydown(g1, ArrowLeft);
    KeysCycleCurves(g, ArrowLeft);
    KeysCycleCurves(g1, ArrowLeft);
    KeysCycleCurves(g2, ArrowLeft);
  }

  /** Up then down is the identity unless the speed was already the
      highest; down then up unless it was the lowest. */
  lemma UpDownInverse(g: Game)
    requires Valid(g)
    ensures g.stepIndex != 2 ==> HandleKeydown(HandleKeydown(g, ArrowUp), ArrowDown) == g
    ensures g.stepIndex != 0 ==> HandleKeydown(HandleKeydown(g, ArrowDown), ArrowUp) == g
  {
  }

  // ---------------------------------------------------------------- collisions

  /** The collision test of `check_collision`: the star is within half a
      step of `t` on the current curve. Its visibility plays no part. */
  predicate Hits(star: Star, t: real, curve: int, step: real) {
    Abs(star.t - t) < step / 2.0 && star.curve == curve
  }

  /** `check_collision(star, t_value, curve_index, old_score)` with the
      current step and score: on a hit the star is hidden and `old_score`
      is added to the score; otherwise nothing changes. */
  function CheckCollision(star: Star, t: real, curve: int, oldScore: int, step: real, score: int): (r: (Star, int))
    ensures r.1 == score + (if Hits(star, t, curve, step) then oldScore else 0)
    ensures r.0 == star.(visible := star.visible && !Hits(star, t, curve, step))
  {
    if Hits(star, t, curve, step) then (star.(visible := false), score + oldScore) else (star, score)
  }

  /** `collectible_stars.forEach(star => check_collision(star, t, curve_index, 1))`:
      every star is checked in list order, each hit adding one. */
  function CollideAll(stars: seq<Star>, t: real, curve: int, step: real, score: int): (r: (seq<Star>, int))
    ensures |r.0| == |stars|
    ensures forall i :: 0 <= i < |stars| ==> r.0[i] == CheckCollision(stars[i], t, curve, 1, step, 0).0
    ensures r.1 == score + HitCount(stars, t, curve, step)
  {
    if |stars| == 0 then ([], score)
    else
      var (s0, score0) := CheckCollision(stars[0], t, curve, 1, step, score);
      var (rest, score1) := CollideAll(stars[1..], t, curve, step, score0);
      ([s0] + rest, score1)
  }

  /** How many stars the test matches. */
  function HitCount(stars: seq<Star>, t: real, curve: int, step: real): (n: nat)
    ensures n <= |stars|
  {
    if |stars| == 0 then 0
    else (if Hits(stars[0], t, curve, step) then 1 else 0) + HitCount(stars[1..], t, curve, step)
  }

  /** How many stars are still shown. */
  function VisibleCount(stars: seq<Star>): (n: nat)
    ensures n <= |stars|
  {
    if |stars| == 0 then 0 else (if stars[0].visible then 1 else 0) + VisibleCount(stars[1..])
  }

  /** The collision rule with the visibility test the scoring evidently
      relies on: a hidden star is never scored again. */
  function CheckCollisionOnce(star: Star, t: real, curve: int, oldScore: int, step: real, score: int): (r: (Star, int))
    ensures star.visible && Hits(star, t, curve, step) ==> r == (star.(visible := false), score + oldScore)
    ensures !(star.visible && Hits(star, t, curve, step)) ==> r == (star, score)
  {
    if star.visible && Hits(star, t, curve, step) then (star.(visible := false), score + oldScore) else (star, score)
  }

  /** `CollideAll` with the corrected test: every star hidden in the frame
      is scored once, so the score plus the stars still shown is kept. */
  function CollideAllOnce(stars: seq<Star>, t: real, curve: int, step: real, score: int): (r: (seq<Star>, int))
    ensures |r.0| == |stars|
    ensures r.1 + VisibleCount(r.0) == score + VisibleCount(stars)
    ensures forall i :: 0 <= i < |stars| ==> r.0[i].t == stars[i].t && r.0[i].curve == stars[i].curve
  {
    if |stars| == 0 then ([], score)
    else
      var (s0, score0) := CheckCollisionOnce(stars[0], t, curve, 1, step, score);
      var (rest, score1) := CollideAllOnce(stars[1..], t, curve, step, score0);
      assert ([s0] + rest)[1..] == rest;
      ([s0] + rest, score1)
  }

  /** Which collision test a frame applies: the one of `check_collision`,
      or the corrected one that skips hidden stars. */
  datatype Rule = AsWritten | ScoreOnce

  function Collide(rule: Rule, stars: seq<Star>, t: real, curve: int, step: real, score: int): (r: (seq<Star>, int))
    ensures |r.0| == |stars|
  {
    match rule
    case AsWritten => CollideAll(stars, t, curve, step, score)
    case ScoreOnce => CollideAllOnce(stars, t, curve, step, score)
  }

  // ---------------------------------------------------------------- frames

  /** One call of `animate` once the loop is running: the collisions are
      checked at the current `t`, then `t` advances by the current step,
      and the loop is cancelled once `t` exceeds 1. After that no frame
      runs. */
  function Frame(g: Game, rule: Rule): (r: Game)
    requires Valid(g)
    ensures g.over ==> r == g
    ensures !g.over ==> r.t == g.t + Step(g) && (r.over <==> r.t > 1.0)
    ensures !g.over && rule == AsWritten ==> r.score == g.score + HitCount(g.stars, g.t, g.curve, Step(g))
    ensures rule == ScoreOnce ==> r.score + VisibleCount(r.stars) == g.score + VisibleCount(g.stars)
    ensures r.curve == g.curve && r.stepIndex == g.stepIndex && |r.stars| == |g.stars|
  {
    if g.over then g
    else
      var (stars, score) := Collide(rule, g.stars, g.t, g.curve, Step(g), g.score);
      var t := g.t + Step(g);
      g.(t := t, stars := stars, score := score, over := t > 1.0)
  }

  /** What happens between two moments: a key press or a frame. */
  datatype Event = Press(key: Key) | Tick

  function Apply(g: Game, e: Event, rule: Rule): (r: Game)
    requires Valid(g)
    ensures Valid(r)
    ensures rule == ScoreOnce ==> r.score + VisibleCount(r.stars) == g.score + VisibleCount(g.stars)
  {
    match e
    case Press(k) => HandleKeydown(g, k)
    case Tick => Frame(g, rule)
  }

  /** The state after a sequence of events, in order. */
  function Run(g: Game, evs: seq<Event>, rule: Rule): (r: Game)
    requires Valid(g)
    ensures Valid(r)
    decreases |evs|
  {
    if |evs| == 0 then g else Run(Apply(g, evs[0], rule), evs[1..], rule)
  }

  lemma {:induction false} RunAppend(g: Game, a: seq<Event>, b: seq<Event>, rule: Rule)
    requires Valid(g)
    ensures Run(g, a + b, rule) == Run(Run(g, a, rule), b, rule)
    decreases |a|
  {
    if |a| == 0 {
      assert a + b == b;
    } else {
      assert (a + b)[1..] == a[1..] + b;
      RunAppend(Apply(g, a[0], rule), a[1..], b, rule);
    }
  }

  function TickCount(evs: seq<Event>): (n: nat)
    ensures n <= |evs|
  {
    if |evs| == 0 then 0 else (if evs[0].Tick? then 1 else 0) + TickCount(evs[1..])
  }

  /** Every frame moves `t` forward by at least the smallest step, key
      presses do not move it, and a finished game stays finished: so after
      `n` frames the game is over or `t` has grown by at least `n` smallest
      steps. */
  lemma {:induction false} RunAdvances(g: Game, evs: seq<Event>, rule: Rule)
    requires Valid(g) && (g.over || g.t <= 1.0)
    ensures g.over ==> Run(g, evs, rule).over
    ensures !Run(g, evs, rule).over ==> Run(g, evs, rule).t <= 1.0
    ensures Run(g, evs, rule).over || Run(g, evs, rule).t >= g.t + TickCount(evs) as real * MinStep
    decreases |evs|
  {
    if |evs| != 0 {
      var g1 := Apply(g, evs[0], rule);
      RunAdvances(g1, evs[1..], rule);
      if !g.over && evs[0].Tick? {
        assert g1.t >= g.t + MinStep;
      }
    }
  }

  /** The game ends: from the start, any run with at least 1801 frames has
      stopped the loop, whatever keys were pressed, under either rule. */
  lemma GameEnds(evs: seq<Event>, rule: Rule)
    requires 1801 <= TickCount(evs)
    ensures Run(Initial, evs, rule).over
  {
    RunAdvances(Initial, evs, rule);
  }

  // ---------------------------------------------------------------- the same star twice

  /** A run of `n` frames, with no key pressed. */
  function Ticks(n: nat): (evs: seq<Event>)
    ensures |evs| == n && TickCount(evs) == n
  {
    if n == 0 then [] else [Tick] + Ticks(n - 1)
  }

  /** From the start, with no key pressed, the first 100 frames score
      nothing: on curve 0 the stars sit at 0.2 and 0.5, and `t` stays at
      least a whole step away from both. */
  lemma {:induction false} QuietStart(n: nat)
    requires n <= 100
    ensures Run(Initial, Ticks(n), AsWritten) == Initial.(t := 0.1 + n as real * 0.001)
  {
    if n != 0 {
      var m := n - 1;
      assert Ticks(n) == Ticks(m) + [Tick] by {
        TicksSnoc(m);
      }
      RunAppend(Initial, Ticks(m), [Tick], AsWritten);
      QuietStart(m);
      var g := Initial.(t := 0.1 + m as real * 0.001);
      NoHits(g);
      assert Run(g, [Tick], AsWritten) == Frame(g, AsWritten);
    }
  }

  lemma {:induction false} TicksSnoc(n: nat)
    ensures Ticks(n + 1) == Ticks(n) + [Tick]
  {
    if n != 0 {
      TicksSnoc(n - 1);
    }
  }

  /** No star matches: the score is unchanged. */
  lemma {:induction false} HitCountNone(stars: seq<Star>, t: real, curve: int, step: real)
    requires forall i :: 0 <= i < |stars| ==> !Hits(stars[i], t, curve, step)
    ensures HitCount(stars, t, curve, step) == 0
  {
    if |stars| != 0 {
      HitCountNone(stars[1..], t, curve, step);
    }
  }

  /** Only the first star matches. */
  lemma HitCountFirst(stars: seq<Star>, t: real, curve: int, step: real)
    requires 0 < |stars| && Hits(stars[0], t, curve, step)
    requires forall i :: 1 <= i < |stars| ==> !Hits(stars[i], t, curve, step)
    ensures HitCount(stars, t, curve, step) == 1
  {
    HitCountNone(stars[1..], t, curve, step);
  }

  lemma NoHits(g: Game)
    requires g == Initial.(t := g.t) && 0.1 <= g.t <= 0.199
    ensures CollideAll(g.stars, g.t, g.curve, Step(g), g.score) == (g.stars, g.score)
  {
    var s := g.stars;
    assert Step(g) == 0.001;
    assert forall i :: 0 <= i < |s| ==> !Hits(s[i], g.t, 0, 0.001) by {
      assert s == InitialStars;
    }
    HitCountNone(s, g.t, 0, 0.001);
    var r := CollideAll(s, g.t, 0, 0.001, g.score);
    assert r.0 == s;
  }

  /** The stars once the first one has been hidden. */
  const FirstCollected: seq<Star> := InitialStars[0 := InitialStars[0].(visible := false)]

  /** The last events of the double score: down, one frame at `t = 0.2`
      with the slow step, up twice, one more frame. */
  const DoubleScoreTail: seq<Event> := [Press(ArrowDown), Tick, Press(ArrowUp), Press(ArrowUp), Tick]

  /** The events of the double score: 100 quiet frames, then the tail. */
  function DoubleScoreEvents(): seq<Event> {
    Ticks(100) + DoubleScoreTail
  }

  /** From `t = 0.2` the tail scores the first star twice. */
  lemma DoubleScoreFromTwoTenths()
    ensures Run(Initial.(t := 0.2), DoubleScoreTail, AsWritten).score == 2
    ensures Run(Initial.(t := 0.2), DoubleScoreTail, AsWritten).stars == FirstCollected
  {
    var g := Initial.(t := 0.2);
    var g1 := HandleKeydown(g, ArrowDown);
    var g2 := Frame(g1, AsWritten);
    assert g2.t == 0.2005 && g2.score == 1 && g2.stars == FirstCollected by {
      OneHit(g1, 0.0005);
    }
    var g3 := HandleKeydown(HandleKeydown(g2, ArrowUp), ArrowUp);
    assert g3.stepIndex == 2 && g3.t == 0.2005 && g3.stars == FirstCollected;
    OneHit(g3, 0.0015);
    RunUnfold5(g, ArrowDown, ArrowUp, ArrowUp);
  }

  /** The first star is hidden at `t = 0.2` and scored, then scored again
      at `t = 0.2005`: the test ignores that it is already hidden, and the
      faster step widens its window. The score reaches 2 while only one
      star has been collected. */
  lemma SameStarScoredTwice()
    ensures Run(Initial, DoubleScoreEvents(), AsWritten).score == 2
    ensures VisibleCount(Run(Initial, DoubleScoreEvents(), AsWritten).stars) == 4
  {
    QuietStart(100);
    RunAppend(Initial, Ticks(100), DoubleScoreTail, AsWritten);
    DoubleScoreFromTwoTenths();
    VisibleCountStep(FirstCollected);
  }

  lemma RunUnfold5(g: Game, k1: Key, k2: Key, k3: Key)
    requires Valid(g)
    ensures Run(g, [Press(k1), Tick, Press(k2), Press(k3), Tick], AsWritten) ==
            Frame(HandleKeydown(HandleKeydown(Frame(HandleKeydown(g, k1), AsWritten), k2), k3), AsWritten)
  {
    var evs := [Press(k1), Tick, Press(k2), Press(k3), Tick];
    var g1 := HandleKeydown(g, k1);
    var g2 := Frame(g1, AsWritten);
    KeysCycleCurves(g2, k2);
    var g3 := HandleKeydown(g2, k2);
    var g4 := HandleKeydown(g3, k3);
    assert evs[1..] == [Tick, Press(k2), Press(k3), Tick];
    assert evs[1..][1..] == [Press(k2), Press(k3), Tick];
    assert evs[1..][1..][1..] == [Press(k3), Tick];
    assert evs[1..][1..][1..][1..] == [Tick];
    calc {
      Run(g, evs, AsWritten);
      Run(g1, evs[1..], AsWritten);
      Run(g2, evs[1..][1..], AsWritten);
      Run(g3, evs[1..][1..][1..], AsWritten);
      Run(g4, evs[1..][1..][1..][1..], AsWritten);
      Run(Frame(g4, AsWritten), [], AsWritten);
    }
  }

  /** Near `t = 0.2` on curve 0 only the first star matches. */
  lemma OneHit(g: Game, step: real)
    requires Valid(g) && !g.over && g.curve == 0 && Step(g) == step
    requires g.stars == InitialStars || g.stars == FirstCollected
    requires Abs(0.2 - g.t) < step / 2.0 && 0.19 <= g.t <= 0.21 && g.t + step <= 1.0
    ensures Frame(g, AsWritten).t == g.t + step
    ensures Frame(g, AsWritten).score == g.score + 1
    ensures Frame(g, AsWritten).stars == FirstCollected
  {
    var s := g.stars;
    assert |s| == 5;
    assert forall i :: 1 <= i < 5 ==> s[i] == InitialStars[i];
    assert forall i :: 1 <= i < 5 ==> !Hits(s[i], g.t, 0, step);
    HitCountFirst(s, g.t, 0, step);
    var r := CollideAll(s, g.t, 0, step, g.score).0;
    assert r == FirstCollected;
  }

  /** Every star shown: all of them count. */
  lemma {:induction false} VisibleCountAll(stars: seq<Star>)
    requires forall i :: 0 <= i < |stars| ==> stars[i].visible
    ensures VisibleCount(stars) == |stars|
  {
    if |stars| != 0 {
      VisibleCountAll(stars[1..]);
    }
  }

  lemma VisibleCountStep(stars: seq<Star>)
    requires stars == FirstCollected
    ensures VisibleCount(stars) == 4
  {
    VisibleCountAll(stars[1..]);
  }

  /** With the corrected rule the score plus the stars still shown never
      changes, so the score never exceeds the number of stars: at most 5. */
  lemma {:induction false} ScoreCountsCollectedStars(g: Game, evs: seq<Event>)
    requires Valid(g)
    ensures Run(g, evs, ScoreOnce).score + VisibleCount(Run(g, evs, ScoreOnce).stars) == g.score + VisibleCount(g.stars)
    decreases |evs|
  {
    if |evs| != 0 {
      ScoreCountsCollectedStars(Apply(g, evs[0], ScoreOnce), evs[1..]);
    }
  }

  lemma ScoreAtMostFive(evs: seq<Event>)
    ensures Run(Initial, evs, ScoreOnce).score <= 5
  {
    ScoreCountsCollectedStars(Initial, evs);
    VisibleCountAll(InitialStars);
  }
}
