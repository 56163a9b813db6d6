# Sprite-animation demo: frame counter, player and input rule

This project models the bookkeeping under a small raylib demo, a single
`src/main.rs`. A player owns eight sprite-sheet animations keyed by
`AnimationType`, which is `Idle` or `Run` in one of four directions. Every
iteration of the game loop does three things:

- it reads the keys A, D, S and W;
- it moves the player and selects an animation;
- it advances the selected animation's frame counter by one tick.

The model keeps the naturals and the map. It drops the textures and the drawing.

- `outcomes.dfy` (module `Outcomes`): the ways the program panics, and a
  `Result` type. A panic is modelled as `Panicked(reason)` rather than as a
  precondition. This makes the crash conditions part of the contracts.
- `sprites.dfy` (module `Sprites`): `SpriteAnimation::new` and `animate` as a
  state machine over four `u32` fields. The module also holds its invariant,
  the counting law after `n` ticks, and the behaviour at speeds above 60.
- `players.dfy` (module `Players`): the `Direction` and `AnimationType` enums
  and the `Player` operations `new`, `add_animation` (the map insertion only),
  `change_animation`, `move_player` and `animate`.
- `game.dfy` (module `Game`): the eight registrations `main` makes, and the
  per-iteration input rule as a pure function of held and released keys. It
  relates that rule to a declarative one: the last released key wins, and
  otherwise the last held key wins. It also holds the loop iteration, and a
  proof that the main loop never panics, whatever the keyboard does.

Arithmetic follows Rust's debug build: `+=` on a `u32` at its maximum panics,
`num_frames - 1` with `num_frames == 0` panics, and `60 / 0` panics. Positions
are `real`, an idealisation of `f32`.

## Model

| member | source | states |
|---|---|---|
| Sprites.New | src/main.rs:15-25 | a fresh animation shows frame 0 with a zero tick counter; it is in a reachable (valid) state exactly when it has at least one frame and a non-zero speed |
| Sprites.Period | src/main.rs:29 | the number of ticks a frame lasts is between 1 and 60; it is the threshold `60 / speed` (the helper `Sprites.Threshold`) unless that is 0 (speed above 60), in which case it is 1 and every tick advances |
| Sprites.Animate | src/main.rs:27-37 | the four crash sites, in order: overflow of the counter increment, divide by zero when `anim_speed = 0`, and, once the threshold is reached, overflow of the frame increment and then underflow of `num_frames - 1` when `num_frames = 0`; a tick panics only under one of these; with at least one frame, non-zero speed, the frame in range and the counter below `u32::MAX`, no panic and the frame stays in range; valid states go to valid states; frame count and speed never change |
| Sprites.AnimateOutcomes | src/main.rs:28-36 | from a frame in range, one successful tick either reaches the threshold, restarts the counter and advances the frame by one modulo `num_frames`, or only increments the counter; above speed 60 it always advances |
| Sprites.Tick | src/main.rs:27-37 | from a valid state a tick never panics and keeps the state valid |
| Sprites.Ticks | src/main.rs:229 | any number of loop ticks keeps the state valid and leaves frame count and speed unchanged |
| Sprites.TickFollowsCount | src/main.rs:28-36 | one tick carries the counting law from `n` ticks to `n + 1` ticks |
| Sprites.CountingLaw | src/main.rs:15-37 | from a fresh animation, after `n` ticks the counter is `n % p` and the frame is `(n / p) % num_frames`, where `p` is the period |
| Sprites.SlowCountingLaw | src/main.rs:29 | for speeds 1 to 60 the period is exactly `60 / speed` in the counting law |
| Sprites.FastCountingLaw | src/main.rs:29-35 | above speed 60 the counter stays 0 and after `n` ticks the frame is `n % num_frames` |
| Sprites.FrameChangesOnPeriod | src/main.rs:27-37 | with at least two frames, the shown frame changes on tick `n + 1` if and only if `n + 1` is a multiple of the period |
| Sprites.EightFramesAtSpeedTwenty | src/main.rs:152-156 | the registered sheets (8 frames, speed 20) show frame `(n / 3) % 8` after `n` ticks, and the frame changes exactly on every third tick |
| Sprites.EightFramesCycle | src/main.rs:152-156 | 24 ticks of such a sheet return it to its initial state |
| Players.New | src/main.rs:83-93 | a new player has no animations, stands at the origin facing down (`Idle(DOWN)`), and animating it before any registration panics on the lookup |
| Players.AddAnimation | src/main.rs:95-104 | the key set grows by exactly the inserted kind; that kind now holds a fresh counter, replacing any earlier one; every other entry, the position and the selection are unchanged |
| Players.ChangeAnimation | src/main.rs:106-108 | the selection becomes the given kind with no check; if the kind is unregistered the next `animate` panics |
| Players.MovePlayer | src/main.rs:122-138 | the selection becomes `Run(dir)`; only the coordinate on `dir`'s axis changes, by `+speed` (DOWN, RIGHT) or `-speed` (UP, LEFT); the animation map and speed are untouched |
| Players.MoveThenOppositeRestoresPosition | src/main.rs:122-138 | a move followed by a move in the opposite direction restores the position |
| Players.Animate | src/main.rs:110-114 | an unregistered selection panics with the missing-animation error; otherwise it panics exactly when the selected counter's tick does, with the same reason; on success only the selected entry is stepped and every other entry, the key set, position and selection are unchanged; a valid selected entry never panics |
| Game.LastPressedExists | src/main.rs:203-227 | some key is pressed if and only if a last pressed direction exists (in the A, D, S, W test order), and it is unique |
| Game.EveryKindIsListed | src/main.rs:59-71 | there are exactly the eight animation kinds `Idle`/`Run` times four directions |
| Game.AddSheet | src/main.rs:152-156 | one start-up registration adds exactly its kind to the key set and keeps every registered counter a fresh 8-frame, speed-20 one |
| Game.Register | src/main.rs:151-198 | `main`'s start-up (`Game.Setup` is `Register` at speed 2.0); after the eight `add_animation` calls the key set is all eight kinds, each holding a fresh 8-frame speed-20 counter, with the player at the origin facing down |
| Game.SetupIsReady | src/main.rs:151-198 | after start-up every kind is a key and every counter is valid, so neither the lookup nor a tick can panic |
| Game.HandleInput | src/main.rs:203-227 | input handling, the held-key moves (`Game.MoveHeld`, lines 203-214) followed by the release checks (`Game.IdleReleased`, lines 216-227), never touches the animation map or the speed |
| Game.MoveHeldSelects | src/main.rs:203-214 | after the held-key moves, the selection is `Run` of the last held direction, or unchanged if nothing is held |
| Game.IdleReleasedSelects | src/main.rs:216-227 | after the release checks, the selection is `Idle` of the last released direction, or nothing changed if nothing was released |
| Game.InputRule | src/main.rs:203-227 | the selection after one iteration's input is `Idle` of the last released direction if any key was released, else `Run` of the last held direction if any is held, else unchanged; it is an `Idle` kind if and only if a key was released or (nothing held and it was idle before) |
| Game.ReleaseOneKey | src/main.rs:216-227 | releasing a single key selects its idle animation whatever keys are held |
| Game.InputMovesByHeldKeys | src/main.rs:203-214 | held keys move x by `+speed` for D and `-speed` for A, and y by `+speed` for S and `-speed` for W, so opposite keys cancel |
| Game.LoopIteration | src/main.rs:202-229 | one iteration keeps a ready player ready and never panics; the selection and position are those the input handling produced |
| Game.RunLoop | src/main.rs:202-236 | any sequence of iterations from a ready player never panics and ends ready |
| Game.MainLoopNeverPanics | src/main.rs:141-236 | from `main`'s start-up state, the loop never panics on any sequence of key states |

## Left out

- Textures, `frame_width`, `SpriteAnimation::draw` and `Player::draw`: these are
  rendering through raylib with `f32` arithmetic. So the property that the
  source rectangle stays inside the texture is not stated. The lookup in
  `Player::draw` is the same lookup as in `Player::animate`, which is modelled.
- `load_texture(...).unwrap()` in `add_animation`: this is file I/O. Only the
  map insertion is modelled.
- Window creation, `set_target_fps`, `window_should_close`, `begin_drawing`
  and `clear_background`: these are foreign calls. The loop is modelled over
  a finite sequence of inputs.
- `is_key_down` and `is_key_released`: keyboard polling becomes the two `Keys`
  arguments of an `Input`.
- The `collision` rectangle, the `is_moving` flag, and the `x`, `y`, `width`
  and `height` arguments of `Player::new`: they are only stored in `collision`,
  which nothing reads.
- Players.MovePlayer: positions are `real`, so rounding of `f32` additions is
  not modelled. The offsets are exact only in this idealisation.
- Sprites.Animate: release-build wrap-around is not modelled. Overflow checks
  follow the debug build. In a release build `num_frames - 1` with zero
  frames wraps to `u32::MAX` and the frame is never reset, instead of
  panicking.
- Releasing a key selects its idle animation unless a key tested later (in
  the order A, D, S, W) was also released in the same iteration.
  `Game.InputRule` states the general rule, and `Game.ReleaseOneKey` states the
  single-release case.
