/** The player: a map from animation kind to frame counter, a position and
the kind currently shown.

Positions are `real`, an idealisation of the program's `f32`: the model states
which coordinate a move changes and by how much in exact arithmetic. The
collision rectangle and the `is_moving` flag are set but never read, and are
left out.
 */
module Players {
  import opened Outcomes
  import Sprites

  datatype Direction = Up | Down | Left | Right

  /** The eight animations a player can show: standing or running, facing one
      of four directions. */
  datatype AnimationType = Idle(dir: Direction) | Run(dir: Direction)

  datatype Vector2 = Vector2(x: real, y: real)

  datatype Player = Player(
    animations: map<AnimationType, Sprites.SpriteAnimation>,
    pos: Vector2,
    currentAnimation: AnimationType,
    speed: real)

  /** Up and down move along the y axis; left and right along the x axis. */
  predicate IsVertical(dir: Direction) {
    dir == Up || dir == Down
  }

  /** The direction that undoes a move. */
  function Opposite(dir: Direction): (r: Direction)
    ensures r != dir && IsVertical(r) == IsVertical(dir)
  {
    match dir
    case Up => Down
    case Down => Up
    case Left => Right
    case Right => Left
  }

  /** A player with no animations yet, at the origin, facing down. Its
      selected animation is not registered, so it cannot be animated until
      one is added for that key. */
  function New(speed: real): (p: Player)
    ensures p.animations == map[] && p.currentAnimation == Idle(Down)
    ensures p.pos == Vector2(0.0, 0.0) && p.speed == speed
    ensures Animate(p) == Panicked(MissingAnimation)
  {
    Player(map[], Vector2(0.0, 0.0), Idle(Down), speed)
  }

  /** Registers a fresh frame counter under `kind`, replacing any earlier one
      (the texture loaded alongside it is left out). */
  function AddAnimation(p: Player, kind: AnimationType, numFrames: Sprites.u32, speed: Sprites.u32)
    : (r: Player)
    ensures r.animations.Keys == p.animations.Keys + {kind}
    ensures r.animations[kind] == Sprites.New(numFrames, speed)
    ensures forall k :: k in p.animations && k != kind ==> r.animations[k] == p.animations[k]
    ensures r.pos == p.pos && r.currentAnimation == p.currentAnimation && r.speed == p.speed
  {
    p.(animations := p.animations[kind := Sprites.New(numFrames, speed)])
  }

  /** Selects the animation to show. Nothing checks that it is registered. */
  function ChangeAnimation(p: Player, kind: AnimationType): (r: Player)
    ensures r.currentAnimation == kind
    ensures r.animations == p.animations && r.pos == p.pos && r.speed == p.speed
    ensures kind !in p.animations ==> Animate(r) == Panicked(MissingAnimation)
  {
    p.(currentAnimation := kind)
  }

  /** Moves `speed` units in `dir` (screen coordinates: y grows downwards)
      and selects the running animation for that direction. */
  function MovePlayer(p: Player, dir: Direction): (r: Player)
    ensures r.currentAnimation == Run(dir)
    ensures r.animations == p.animations && r.speed == p.speed
    ensures IsVertical(dir) ==> r.pos.x == p.pos.x
    ensures !IsVertical(dir) ==> r.pos.y == p.pos.y
    ensures dir == Down ==> r.pos.y == p.pos.y + p.speed
    ensures dir == Up ==> r.pos.y == p.pos.y - p.speed
    ensures dir == Right ==> r.pos.x == p.pos.x + p.speed
    ensures dir == Left ==> r.pos.x == p.pos.x - p.speed
  {
    var pos :=
      match dir
      case Up => p.pos.(y := p.pos.y - p.speed)
      case Down => p.pos.(y := p.pos.y + p.speed)
      case Right => p.pos.(x := p.pos.x + p.speed)
      case Left => p.pos.(x := p.pos.x - p.speed);
    ChangeAnimation(p.(pos := pos), Run(dir))
  }

  /** A move followed by a move the other way returns to the starting
      position, running in the second direction. */
  lemma MoveThenOppositeRestoresPosition(p: Player, dir: Direction)
    ensures MovePlayer(MovePlayer(p, dir), Opposite(dir)).pos == p.pos
    ensures MovePlayer(MovePlayer(p, dir), Opposite(dir)).currentAnimation == Run(Opposite(dir))
  {
  }

  /** Advances the frame counter of the selected animation. The lookup
      panics when that animation was never registered. */
  function Animate(p: Player): (r: Result<Player>)
    ensures p.currentAnimation !in p.animations ==> r == Panicked(MissingAnimation)
    ensures p.currentAnimation in p.animations ==>
              (r.Ok? <==> Sprites.Animate(p.animations[p.currentAnimation]).Ok?)
    ensures p.currentAnimation in p.animations && r.Panicked? ==>
              Sprites.Animate(p.animations[p.currentAnimation]) == Panicked(r.reason)
    ensures (p.currentAnimation in p.animations
             && Sprites.Valid(p.animations[p.currentAnimation])) ==> r.Ok?
    // Only the selected entry is stepped.
    ensures r.Ok? ==>
              && r.value.animations.Keys == p.animations.Keys
              && r.value.animations[p.currentAnimation]
                 == Sprites.Animate(p.animations[p.currentAnimation]).value
              && (forall k :: k in p.animations && k != p.currentAnimation ==>
                    r.value.animations[k] == p.animations[k])
              && r.value.pos == p.pos
              && r.value.currentAnimation == p.currentAnimation
              && r.value.speed == p.speed
  {
    if p.currentAnimation !in p.animations then Panicked(MissingAnimation)
    else
      match Sprites.Animate(p.animations[p.currentAnimation])
      case Panicked(reason) => Panicked(reason)
      case Ok(next) => Ok(p.(animations := p.animations[p.currentAnimation := next]))
  }
}
