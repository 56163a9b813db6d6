/** The program's start-up and its per-frame update, without the window.

Start-up registers eight animations on a player. Each iteration of the main
loop then reads which of the keys A, D, S and W are held and which were just
released, moves the player and selects an animation accordingly, and advances
the selected animation by one tick. Keyboard polling becomes the two `Keys`
arguments; drawing is left out.
 */
module Game {
  import opened Outcomes
  import Sprites
  import opened Players

  /** The player's movement speed and the shape of every registered sprite
      sheet: eight frames, at speed divisor 20. */
  const PLAYER_SPEED: real := 2.0
  const SHEET_FRAMES: Sprites.u32 := 8
  const SHEET_SPEED: Sprites.u32 := 20

  /** The state of the keys A, D, S and W, in that order. */
  datatype Keys = Keys(a: bool, d: bool, s: bool, w: bool)

  /** One loop iteration's input: keys held down and keys just released. */
  datatype Input = Input(down: Keys, released: Keys)

  /** The key bound to each direction: A left, D right, S down, W up. */
  predicate Pressed(k: Keys, dir: Direction) {
    match dir
    case Left => k.a
    case Right => k.d
    case Down => k.s
    case Up => k.w
  }

  predicate AnyPressed(k: Keys) {
    k.a || k.d || k.s || k.w
  }

  /** The position of a direction's key in the order the loop tests them. */
  function Rank(dir: Direction): nat {
    match dir
    case Left => 0
    case Right => 1
    case Down => 2
    case Up => 3
  }

  /** `dir`'s key is pressed and no key tested after it is. */
  predicate IsLastPressed(k: Keys, dir: Direction) {
    Pressed(k, dir) && forall e :: Rank(dir) < Rank(e) ==> !Pressed(k, e)
  }

  /** Every key state with some key pressed has exactly one last-pressed
      direction. */
  lemma LastPressedExists(k: Keys)
    ensures AnyPressed(k) <==> exists dir :: IsLastPressed(k, dir)
    ensures forall d1, d2 :: IsLastPressed(k, d1) && IsLastPressed(k, d2) ==> d1 == d2
  {
    if AnyPressed(k) {
      var dir := if k.w then Up else if k.s then Down else if k.d then Right else Left;
      assert IsLastPressed(k, dir);
    }
  }

  /** The eight animation kinds. */
  const AllKinds: set<AnimationType> :=
    {Idle(Up), Idle(Down), Idle(Left), Idle(Right), Run(Up), Run(Down), Run(Left), Run(Right)}

  lemma EveryKindIsListed(kind: AnimationType)
    ensures kind in AllKinds
  {
    match kind
    case Idle(dir) => assert dir == Up || dir == Down || dir == Left || dir == Right;
    case Run(dir) => assert dir == Up || dir == Down || dir == Left || dir == Right;
  }

  /** Every registered counter is a fresh one of the program's sheet shape. */
  ghost predicate AllFreshSheets(p: Player) {
    forall kind :: kind in p.animations ==> p.animations[kind] == Sprites.New(SHEET_FRAMES, SHEET_SPEED)
  }

  /** One `add_animation` call of start-up: a sheet of the program's shape. */
  function AddSheet(p: Player, kind: AnimationType): (r: Player)
    ensures r.animations.Keys == p.animations.Keys + {kind}
    ensures AllFreshSheets(p) ==> AllFreshSheets(r)
    ensures r.pos == p.pos && r.currentAnimation == p.currentAnimation && r.speed == p.speed
  {
    AddAnimation(p, kind, SHEET_FRAMES, SHEET_SPEED)
  }

  /** The program's start-up: a player moving at `speed` and eight
      registrations, in the program's order. */
  function Register(speed: real): (p: Player)
    ensures p.animations.Keys == AllKinds
    ensures AllFreshSheets(p)
    ensures p.currentAnimation == Idle(Down) && p.pos == Vector2(0.0, 0.0)
    ensures p.speed == speed
  {
    var p := Players.New(speed);
    var p := AddSheet(p, Idle(Down));
    var p := AddSheet(p, Idle(Up));
    var p := AddSheet(p, Idle(Right));
    var p := AddSheet(p, Idle(Left));
    var p := AddSheet(p, Run(Down));
    var p := AddSheet(p, Run(Up));
    var p := AddSheet(p, Run(Right));
    var p := AddSheet(p, Run(Left));
    p
  }

  /** The state the main loop starts from. */
  function Setup(): Player {
    Register(PLAYER_SPEED)
  }

  /** Every animation kind is registered and every frame counter is in a
      state the program can reach, so no lookup or tick can panic. */
  ghost predicate Ready(p: Player) {
    && (forall kind: AnimationType :: kind in p.animations)
    && (forall kind :: kind in p.animations ==> Sprites.Valid(p.animations[kind]))
  }

  /** After start-up every kind is registered, so the lookup in the loop
      never fails. */
  lemma SetupIsReady()
    ensures forall kind: AnimationType :: kind in Setup().animations
    ensures Ready(Setup())
  {
    forall kind: AnimationType
      ensures kind in Setup().animations
    {
      EveryKindIsListed(kind);
    }
  }

  /** The first half of an iteration: a move for each held key, in the
      order A, D, S, W. */
  function MoveHeld(p: Player, down: Keys): Player {
    var p := if down.a then MovePlayer(p, Left) else p;
    var p := if down.d then MovePlayer(p, Right) else p;
    var p := if down.s then MovePlayer(p, Down) else p;
    if down.w then MovePlayer(p, Up) else p
  }

  /** The second half: the idle animation for each released key, in the
      same order. */
  function IdleReleased(p: Player, released: Keys): Player {
    var p := if released.a then ChangeAnimation(p, Idle(Left)) else p;
    var p := if released.d then ChangeAnimation(p, Idle(Right)) else p;
    var p := if released.s then ChangeAnimation(p, Idle(Down)) else p;
    if released.w then ChangeAnimation(p, Idle(Up)) else p
  }

  /** The input handling of one iteration. */
  function HandleInput(p: Player, input: Input): (r: Player)
    ensures r.animations == p.animations && r.speed == p.speed
  {
    IdleReleased(MoveHeld(p, input.down), input.released)
  }

  /** After the moves, the running animation of the last held key is
      selected, or the previous selection when no key is held. */
  lemma MoveHeldSelects(p: Player, down: Keys)
    ensures forall dir :: IsLastPressed(down, dir) ==> MoveHeld(p, down).currentAnimation == Run(dir)
    ensures !AnyPressed(down) ==> MoveHeld(p, down).currentAnimation == p.currentAnimation
  {
    forall dir | IsLastPressed(down, dir)
      ensures MoveHeld(p, down).currentAnimation == Run(dir)
    {
      match dir
      case Left => assert !Pressed(down, Right) && !Pressed(down, Down) && !Pressed(down, Up);
      case Right => assert !Pressed(down, Down) && !Pressed(down, Up);
      case Down => assert !Pressed(down, Up);
      case Up =>
    }
  }

  /** After the releases, the idle animation of the last released key is
      selected, or the selection is unchanged when no key was released. */
  lemma IdleReleasedSelects(p: Player, released: Keys)
    ensures forall dir :: IsLastPressed(released, dir) ==>
              IdleReleased(p, released).currentAnimation == Idle(dir)
    ensures !AnyPressed(released) ==> IdleReleased(p, released) == p
  {
    forall dir | IsLastPressed(released, dir)
      ensures IdleReleased(p, released).currentAnimation == Idle(dir)
    {
      match dir
      case Left => assert !Pressed(released, Right) && !Pressed(released, Down) && !Pressed(released, Up);
      case Right => assert !Pressed(released, Down) && !Pressed(released, Up);
      case Down => assert !Pressed(released, Up);
      case Up =>
    }
  }

  /** The selected animation after one iteration's input: the idle animation
      of the last released key if any key was released, otherwise the
      running animation of the last held key if any is held, otherwise the
      previous selection. */
  lemma InputRule(p: Player, input: Input)
    ensures forall dir :: IsLastPressed(input.released, dir) ==>
              HandleInput(p, input).currentAnimation == Idle(dir)
    ensures !AnyPressed(input.released) ==>
              forall dir :: IsLastPressed(input.down, dir) ==>
                HandleInput(p, input).currentAnimation == Run(dir)
    ensures !AnyPressed(input.released) && !AnyPressed(input.down) ==>
              HandleInput(p, input).currentAnimation == p.currentAnimation
    ensures HandleInput(p, input).currentAnimation.Idle? <==>
              AnyPressed(input.released) || (!AnyPressed(input.down) && p.currentAnimation.Idle?)
  {
    MoveHeldSelects(p, input.down);
    IdleReleasedSelects(MoveHeld(p, input.down), input.released);
    LastPressedExists(input.down);
    LastPressedExists(input.released);
  }

  /** Releasing a single key selects its idle animation whatever keys are
      held. */
  lemma ReleaseOneKey(p: Player, down: Keys, dir: Direction)
    ensures var released := Keys(dir == Left, dir == Right, dir == Down, dir == Up);
            HandleInput(p, Input(down, released)).currentAnimation == Idle(dir)
  {
  }

  /** Held keys move the player: D and A cancel along x, S and W along y. */
  lemma InputMovesByHeldKeys(p: Player, input: Input)
    ensures HandleInput(p, input).pos.x
            == p.pos.x + Step(input.down.d, p.speed) - Step(input.down.a, p.speed)
    ensures HandleInput(p, input).pos.y
            == p.pos.y + Step(input.down.s, p.speed) - Step(input.down.w, p.speed)
  {
  }

  /** The distance a key moves the player: `speed` when held, nothing otherwise. */
  function Step(held: bool, speed: real): real {
    if held then speed else 0.0
  }

  /** One iteration of the main loop: input handling, then one tick of the
      selected animation. */
  function LoopIteration(p: Player, input: Input): (r: Result<Player>)
    ensures Ready(p) ==> r.Ok? && Ready(r.value)
    ensures r.Ok? ==> r.value.currentAnimation == HandleInput(p, input).currentAnimation
    ensures r.Ok? ==> r.value.pos == HandleInput(p, input).pos
  {
    Players.Animate(HandleInput(p, input))
  }

  /** The main loop over a sequence of inputs, stopping at the first panic. */
  function RunLoop(p: Player, inputs: seq<Input>): (r: Result<Player>)
    ensures Ready(p) ==> r.Ok? && Ready(r.value)
    decreases |inputs|
  {
    if |inputs| == 0 then Ok(p)
    else
      match LoopIteration(p, inputs[0])
      case Panicked(reason) => Panicked(reason)
      case Ok(next) => RunLoop(next, inputs[1..])
  }

  /** The program as written never panics in its main loop, whatever the
      keyboard does. */
  lemma MainLoopNeverPanics(inputs: seq<Input>)
    ensures RunLoop(Setup(), inputs).Ok?
  {
    SetupIsReady();
  }
}
