# Alien Invasion: the fleet, the bullets and the collision pass

This project models the gameplay bookkeeping of a small pygame shooter, in
Dafny. A fleet of aliens sweeps sideways across the screen. It drops and turns
when any alien reaches a side edge. The player's ship fires a capped number of
laser bullets upward. A bullet that leaves the top of the screen is dropped.
Bullets and aliens that overlap destroy each other.

The model keeps the source's shape:

- The game object `Game.AlienInvasion` is a class. Its fields are the ship's
  rectangle, the bullet group, the alien group and the fleet's shared
  direction.
- Each sprite group is a sequence of objects without duplicates. Each alien
  (`Aliens.Alien`) and each bullet (`Bullets.Bullet`) is an object whose
  position fields the game updates in place.
- Every loop of the game is a method with its loop invariants. Each method is
  proved against a specification function:
  - `Fleet.Layout` is the grid the fleet is built on.
  - `OffScreen.OnScreen` is what the off-screen filter keeps.
  - `Collisions.Resolve` is what pygame's `groupcollide(bullets, aliens, True, True)` leaves.
- The properties the game relies on are lemmas about those functions:
  - the fleet fits the screen;
  - no two aliens of a new fleet overlap;
  - no surviving bullet overlaps a surviving alien;
  - every removal was caused by a hit.

Rectangles follow pygame's `Rect`: integer `x`, `y`, `width` and `height`.
`colliderect` means the interiors intersect and both sizes are non-zero, so
rectangles that only touch do not collide. `midtop` is `(x + width // 2, y)`.
Python's `//` floors. Every divisor in the fleet arithmetic is a positive
alien size, so Dafny's `/` computes the same value.

The column count follows the code (`alien_invasion.py:108-109`): the screen
less a two-width margin, divided by two widths. On a 1200-pixel screen with
64-pixel aliens this gives eight columns (`Fleet.ColumnsExample`). Reading the
layout as a four-width margin would give seven.

The collision pass is modelled on pygame's own loop: for each bullet in turn,
every alien still present that overlaps it is removed, and the bullet is
removed if it hit anything. The rectangles do not move during the pass. The
specification function therefore takes the set of overlapping bullet-alien
pairs, taken when the pass starts (`Collisions.HitPairs`). The methods still
test the rectangles themselves.

## Model

| member | source | states |
|---|---|---|
| Geometry.Rect.WithMidTop | bullet.py:25 | assigning `midtop` keeps the size and makes `midtop` the given point |
| Geometry.CollideRectEdges | alien_invasion.py:58-60 | `colliderect` is symmetric; zero-size rectangles collide with nothing; rectangles that are apart or only touch along an edge do not collide |
| Geometry.CollideIffSharedPixel | alien_invasion.py:58-60 | two rectangles collide exactly when some pixel lies inside both |
| Bullets.SpawnRect | bullet.py:19-25 | a new bullet is 5 wide and 20 tall; its `midtop` is the ship's `midtop`, so it has the ship's top and its left edge sits two pixels left of the ship's centre |
| Bullets.Bullet.constructor | bullet.py:19-34 | the bullet's rectangle is the spawn rectangle and its tracked `y` equals `rect.y` |
| Bullets.Bullet.Update | bullet.py:36-39 | `y` drops by exactly the speed, `rect.y` follows it, and nothing horizontal changes |
| Bullets.Bullet.Fly | bullet.py:36-39 | k successive updates leave `y` where `YAfter` predicts and `rect.y` still following it |
| Bullets.YAfterClosedForm | bullet.py:36-39 | after k updates the tracked `y` is `y0 - k * speed` |
| Bullets.YAfterDecreasing | bullet.py:38 | with a positive speed, `y` is strictly smaller after more updates |
| Bullets.EventuallyOffScreen | bullet.py:36-39 | with a positive speed, some number of updates brings the bullet's bottom to 0 or above the top, which is the game's removal condition |
| Aliens.Alien.constructor | alien.py:16-23 | a new alien starts at `rect.x = width`, `rect.y = height` at its image's size, with `x == rect.x` |
| Aliens.Alien.CheckEdges | alien.py:30-34 | true iff `rect.right >= screen width` or `rect.left <= 0` (the `None` answer read as false); it only reads the alien |
| Aliens.Alien.Update | alien.py:25-28 | `x` moves by exactly `speed * direction`, `rect.x` follows it, and `rect.y` is unchanged |
| Aliens.ShiftedBack | alien.py:27-28 | a step in direction d followed by a step in direction -d restores `x` |
| Fleet.Row | alien_invasion.py:118-120 | one pass of the inner loop places `max(0, n)` aliens, the c-th in column c of the row |
| Fleet.Grid | alien_invasion.py:117-120 | the grid of `rows` rows holds `max(0, rows) * max(0, cols)` cells |
| Fleet.Layout | alien_invasion.py:106-120 | the fleet size is `max(0, (W - 2w) // 2w) * max(0, (H - 8h - ship_h) // 2h)`, empty when either count is not positive |
| Fleet.GridAt | alien_invasion.py:117-120 | the k-th alien created is in column `k % cols` of row `k // cols` |
| Fleet.LayoutCell | alien_invasion.py:117-128 | every alien of the fleet sits in a grid cell within the computed column and row ranges |
| Fleet.CellBounds | alien_invasion.py:106-128 | the cell at column n, row r within range has left ≥ w, right ≤ W - 2w, top ≥ 2h and bottom ≤ H - ship_h - 7h |
| Fleet.CellsDisjoint | alien_invasion.py:125-128 | aliens in different cells do not collide |
| Fleet.FleetInsideScreen | alien_invasion.py:106-128 | every alien of a new fleet is at least one width from the left edge and two from the right edge, is not at an edge, and has its bottom at most H - ship_h - 7h |
| Fleet.FleetDisjoint | alien_invasion.py:117-128 | no two aliens of a new fleet collide |
| Fleet.FleetApart | alien_invasion.py:117-128 | the same for every pair of distinct positions of the layout at once |
| Fleet.FleetClear | alien_invasion.py:117-128 | no alien of a new fleet is at a side edge |
| Fleet.ColumnsExample | alien_invasion.py:108-109 | a 1200-pixel screen with 64-pixel aliens gives eight columns |
| OffScreen.OnScreen | alien_invasion.py:51-53 | the filter never adds bullets |
| OffScreen.OnScreenSound | alien_invasion.py:51-53 | every kept bullet comes from the group and has `rect.bottom > 0` |
| OffScreen.OnScreenComplete | alien_invasion.py:51-53 | every bullet of the group with `rect.bottom > 0` is kept |
| OffScreen.OnScreenWithin | alien_invasion.py:51-53 | a bullet outside the group is never kept |
| OffScreen.OnScreenDistinct | alien_invasion.py:51-53 | filtering a group without duplicates gives one without duplicates |
| OffScreen.OnScreenSynced | alien_invasion.py:51-53 | kept bullets keep `rect.y == y` |
| OffScreen.FilterStep | alien_invasion.py:51-53 | removing the i-th bullet by value when its bottom is ≤ 0, or keeping it, extends the filtered prefix by one |
| Collisions.HitPairsSnapshot | alien_invasion.py:58-60 | the overlapping-pairs set holds a bullet-alien pair of the groups exactly when their rectangles collide |
| Collisions.SnapshotHitPairs | alien_invasion.py:58-60 | a pair set that agrees with the rectangles on the groups, and holds nothing else, is the overlapping-pairs set |
| Collisions.HitsAnyWitness | alien_invasion.py:58-60 | the list `spritecollide` returns for a bullet is non-empty exactly when some alien of the group overlaps it |
| Collisions.Spared | alien_invasion.py:58-60 | one bullet's sweep never adds aliens |
| Collisions.SparedSound | alien_invasion.py:58-60 | every alien left by one bullet's sweep comes from the group and does not overlap the bullet |
| Collisions.SparedComplete | alien_invasion.py:58-60 | every alien of the group that does not overlap the bullet is left |
| Collisions.SpriteCollide | alien_invasion.py:58-60 | the loop over the aliens for one bullet removes exactly the overlapping aliens, and reports a hit exactly when it removed one |
| Collisions.Resolve | alien_invasion.py:58-60 | the collision pass never adds bullets or aliens |
| Collisions.ResolveSound | alien_invasion.py:58-60 | every survivor comes from the group it started in |
| Collisions.ResolveDistinct | alien_invasion.py:58-60 | groups without duplicates stay without duplicates |
| Collisions.ResolveSynced | alien_invasion.py:58-60 | survivors keep their tracked position equal to their rectangle's |
| Collisions.GroupCollide | alien_invasion.py:58-60 | the loop over the bullets leaves exactly the survivors of the collision pass, in order |
| Collisions.SingleShot | alien_invasion.py:58-60 | one bullet removes every alien it overlaps, however many there are, and keeps every other alien; the bullet itself goes exactly when it hit something |
| Collisions.NoSurvivorsCollide | alien_invasion.py:58-60 | no surviving bullet and surviving alien form an overlapping pair |
| Collisions.SurvivorsApart | alien_invasion.py:58-60 | no surviving bullet's rectangle overlaps a surviving alien's |
| Collisions.RemovedBulletsHit | alien_invasion.py:58-60 | every removed bullet overlapped an alien of the group that was removed too |
| Collisions.DroppedOnlyIfHit | alien_invasion.py:58-60 | a bullet is removed only if it overlapped some alien still present when its turn came |
| Collisions.RemovedWhenChecked | alien_invasion.py:58-60 | every removed bullet overlapped an alien that was still present when the bullet was checked and that went with it |
| Collisions.RemovedAliensHit | alien_invasion.py:58-60 | every removed alien overlapped a bullet that was removed too |
| Game.Reversed | alien_invasion.py:142 | negating a direction of 1 or -1 gives 1 or -1 |
| Game.ReversedTwice | alien_invasion.py:142 | reversing the fleet's direction twice restores it |
| Game.AlienInvasion.constructor | alien_invasion.py:13-33 | a new game has no bullets; its aliens are fresh and sit on the layout cells in creation order; no two collide and none is at an edge |
| Game.AlienInvasion.FireBullet | alien_invasion.py:96-100 | below the cap, exactly one bullet is appended at the spawn rectangle; at the cap the group is unchanged; a count within the cap stays within it |
| Game.AlienInvasion.MoveBullets | alien_invasion.py:48 | every bullet moves up by the bullet speed, and nothing else about it changes |
| OffScreen.FilterOffScreen | alien_invasion.py:51-53 | walking a copy and removing by value leaves exactly the bullets with `rect.bottom > 0`, in order |
| Game.AlienInvasion.DropOffScreen | alien_invasion.py:51-53 | the bullet group becomes its on-screen part; the aliens are untouched |
| Game.AlienInvasion.Collide | alien_invasion.py:58-60 | given the overlapping pairs, both groups become the survivors of the pass, and no surviving bullet overlaps a surviving alien |
| Game.AlienInvasion.RemoveHits | alien_invasion.py:58-60 | both groups become the survivors of the pass over the pairs overlapping when it starts, and no surviving bullet overlaps a surviving alien |
| Game.AlienInvasion.UpdateBullets | alien_invasion.py:45-60 | every bullet moves up; then the groups become the collision survivors of the bullets still on screen and of the aliens; none of them overlap |
| Game.AlienInvasion.ChangeFleetDirection | alien_invasion.py:138-142 | every alien drops by the drop speed and keeps its `x`; the alien count is unchanged; the direction is reversed |
| Game.AlienInvasion.CheckFleetEdges | alien_invasion.py:131-136 | if some alien is at an edge, the fleet drops and turns exactly once; otherwise nothing changes |
| Game.AlienInvasion.MoveAliens | alien_invasion.py:65 | every alien steps by `alien_speed * direction`, with `rect.x` following |
| Game.AlienInvasion.UpdateAliens | alien_invasion.py:62-65 | the edge check runs before the move, so the step uses the direction after any reversal, and the drop happens exactly when an alien was at an edge beforehand |
| Game.AlienInvasion.CreateAlien | alien_invasion.py:122-129 | one fresh alien is appended at `x = w + 2wn`, `y = 2h + 2hr` |
| Game.AlienInvasion.CreateRow | alien_invasion.py:118-120 | the inner loop appends the row's aliens in column order |
| Game.AlienInvasion.CreateFleet | alien_invasion.py:102-120 | the loops append exactly the layout's aliens, in creation order |

## Left out

- The main loop, event handling and drawing (`run_game`, `_check_events`, the key handlers, `_update_screen`, `draw_bullet`) are not modelled. They are an endless loop, input handling that may call `sys.exit`, and rendering.
- The ship's movement and clamping are not modelled. `ship.py` is not part of this model. The ship is an input rectangle; only its height and `midtop` are read.
- Display set-up and image loading are not modelled. The screen size and the alien image size are fields of `Config.Settings`. A zero-size alien image is excluded by the `Positive` type. With a zero size the game would fail with a division by zero.
- `explosion.py` and `star.py` are not modelled. They are random, floating-point, clock-driven decoration.
- Speeds are whole pixels per frame. The game keeps `x` and `y` as floats and truncates them when it writes `rect.x` and `rect.y`. The model has integer speeds, so `x == rect.x` and `y == rect.y` hold exactly.
- `fleet_direction` lives on the game object, not in the settings record, because it is the only setting mutated after start-up (the screen size is written once, at start-up). It is restricted to 1 or -1.
- `alien.y` (`alien_invasion.py:127`) is written but never read, so only `rect.y` is modelled.
- `check_edges` returns `True` or `None`. It is modelled as a boolean, with `None` as false, which is how its only caller uses it.
- The dictionary `groupcollide` returns is never used by the game, and is not modelled.
- The off-screen loop removes from the live group while walking a copy. The model walks a copy and assigns the result back, which leaves the same group.
- pygame's groups are ordered sets of sprites. The model uses sequences without duplicates, kept in insertion order.
