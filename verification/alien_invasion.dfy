/** The game object: the ship's rectangle, the bullet and alien groups and the
    fleet's shared direction, with the per-frame bookkeeping on them. */
module Game {
  import opened Seqs
  import opened Geometry
  import opened Config
  import opened Aliens
  import opened Bullets
  import opened Fleet
  import opened OffScreen
  import opened Collisions

  /** `fleet_direction *= -1`. */
  function Reversed(direction: int): (d: int)
    ensures direction == 1 || direction == -1 ==> d == 1 || d == -1
  {
    direction * -1
  }

  /** Reversing twice restores the direction. */
  lemma ReversedTwice(direction: int)
    ensures Reversed(Reversed(direction)) == direction
  {
  }

  class AlienInvasion {
    const settings: Settings
    /** The ship's rectangle; the ship's own movement is not modelled. */
    var ship: Rect
    var bullets: seq<Bullet>
    var aliens: seq<Alien>
    /** 1 moves the fleet right, -1 left. */
    var fleetDirection: int

    ghost predicate Valid()
      reads this, bullets, aliens
    {
      (fleetDirection == 1 || fleetDirection == -1) &&
      Distinct(bullets) && Distinct(aliens) &&
      (forall i :: 0 <= i < |bullets| ==> bullets[i].Synced()) &&
      (forall i :: 0 <= i < |aliens| ==> aliens[i].Synced())
    }

    /** A new game: no bullets, and a fresh fleet laid out on the grid. */
    constructor (settings: Settings, ship: Rect)
      requires settings.Valid()
      ensures Valid()
      ensures this.settings == settings && this.ship == ship
      ensures bullets == [] && fleetDirection == settings.fleetDirection
      ensures |aliens| == |Layout(settings, ship.height)|
      ensures forall k :: 0 <= k < |aliens| ==> fresh(aliens[k]) && aliens[k].rect == Layout(settings, ship.height)[k]
      ensures NoOverlap(aliens) && !AnyAtEdge(aliens, settings.screenWidth)
    {
      this.settings := settings;
      this.ship := ship;
      bullets := [];
      aliens := [];
      fleetDirection := settings.fleetDirection;
      new;
      CreateFleet();
      FleetApart(settings, ship.height);
      FleetClear(settings, ship.height);
      PlacedApart(aliens, Layout(settings, ship.height), settings.screenWidth);
    }

    /** `_fire_bullet`: a bullet is added at the ship's top centre only while
        fewer than `bullets_allowed` are live, so firing never takes the count
        above the cap. */
    method FireBullet()
      requires Valid()
      modifies this
      ensures Valid()
      ensures aliens == old(aliens) && fleetDirection == old(fleetDirection) && ship == old(ship)
      ensures if |old(bullets)| < settings.bulletsAllowed then
          |bullets| == |old(bullets)| + 1 && bullets[..|old(bullets)|] == old(bullets) &&
          fresh(bullets[|old(bullets)|]) && bullets[|old(bullets)|].rect == SpawnRect(ship)
        else bullets == old(bullets)
      ensures |old(bullets)| <= settings.bulletsAllowed ==> |bullets| <= settings.bulletsAllowed
    {
      if |bullets| < settings.bulletsAllowed {
        var newBullet := new Bullet(ship);
        bullets := bullets + [newBullet];
      }
    }

    /** `bullets.update()`: every bullet climbs by `bullet_speed`. */
    method MoveBullets()
      requires Valid()
      modifies bullets
      ensures Valid()
      ensures forall k :: 0 <= k < |bullets| ==>
        bullets[k].y == old(bullets[k].y) - settings.bulletSpeed && bullets[k].rect == old(bullets[k].rect).(y := bullets[k].y)
    {
      var i := 0;
      while i < |bullets|
        invariant 0 <= i <= |bullets|
        invariant forall k :: 0 <= k < i ==>
          bullets[k].y == old(bullets[k].y) - settings.bulletSpeed && bullets[k].rect == old(bullets[k].rect).(y := bullets[k].y)
        invariant forall k :: i <= k < |bullets| ==> bullets[k].y == old(bullets[k].y) && bullets[k].rect == old(bullets[k].rect)
      {
        bullets[i].Update(settings.bulletSpeed);
        i := i + 1;
      }
    }

    /** The `groupcollide(bullets, aliens, True, True)` statement of
        `_update_bullets`: both groups become what the collision pass leaves
        given the rectangles as they are, and no surviving bullet overlaps a
        surviving alien. */
    method RemoveHits()
      requires Valid()
      modifies this
      ensures Valid()
      ensures Survivors(bullets, aliens) == Resolve(old(bullets), old(aliens), HitPairs(old(bullets), old(aliens)))
      ensures Apart(bullets, aliens)
      ensures fleetDirection == old(fleetDirection) && ship == old(ship)
    {
      ghost var shots, targets := bullets, aliens;
      ghost var hits := HitPairs(shots, targets);
      assert forall p :: p in hits ==> p.0 in shots && p.1 in targets;
      HitPairsSnapshot(shots, targets);
      Collide(hits);
      SnapshotHitPairs(hits, shots, targets);
    }

    /** `groupcollide` given the pairs that overlap when it starts: both
        groups become what the collision pass leaves of them. */
    method Collide(ghost hits: set<(Bullet, Alien)>)
      requires Valid() && Snapshot(hits, bullets, aliens)
      modifies this
      ensures Valid()
      ensures Survivors(bullets, aliens) == Resolve(old(bullets), old(aliens), hits)
      ensures Apart(bullets, aliens)
      ensures fleetDirection == old(fleetDirection) && ship == old(ship)
    {
      var r := GroupCollide(bullets, aliens, hits);
      SurvivorsApart(bullets, aliens, hits);
      ResolveDistinct(bullets, aliens, hits);
      ResolveSynced(bullets, aliens, hits);
      bullets, aliens := r.bullets, r.aliens;
    }

    /** The bullet group after the filtering loop of `_update_bullets`:
        exactly the bullets still on screen, in their order. */
    method DropOffScreen()
      requires Valid()
      modifies this
      ensures Valid()
      ensures bullets == old(OnScreen(bullets))
      ensures aliens == old(aliens) && fleetDirection == old(fleetDirection) && ship == old(ship)
    {
      var remaining := FilterOffScreen(bullets);
      OnScreenSynced(bullets);
      OnScreenDistinct(bullets);
      bullets := remaining;
    }

    /** `_update_bullets`: move every bullet, drop those whose bottom has
        reached the top of the screen, then resolve bullet-alien collisions. */
    method UpdateBullets()
      requires Valid()
      modifies this, bullets
      ensures Valid()
      ensures fleetDirection == old(fleetDirection) && ship == old(ship)
      ensures forall k :: 0 <= k < |old(bullets)| ==> var b := old(bullets)[k];
        b.y == old(b.y) - settings.bulletSpeed && b.rect == old(b.rect).(y := b.y)
      ensures var live := OnScreen(old(bullets));
        Survivors(bullets, aliens) == Resolve(live, old(aliens), HitPairs(live, old(aliens)))
      ensures Apart(bullets, aliens)
    {
      MoveBullets();
      ghost var moved := bullets;
      label dropping:
      DropOffScreen();
      RemoveHits();
      OnScreenKept@dropping(moved);
    }

    /** `_change_fleet_direction`: drop every alien by `fleet_drop_speed` and
        reverse the shared direction; no alien moves sideways and none is
        added or removed. */
    method ChangeFleetDirection()
      requires Valid()
      modifies this, aliens
      ensures Valid()
      ensures aliens == old(aliens) && bullets == old(bullets) && ship == old(ship)
      ensures forall a :: a in aliens ==>
        a.x == old(a.x) && a.rect == old(a.rect).(y := old(a.rect).y + settings.fleetDropSpeed)
      ensures fleetDirection == Reversed(old(fleetDirection))
    {
      var i := 0;
      while i < |aliens|
        modifies aliens
        invariant 0 <= i <= |aliens|
        invariant forall k :: 0 <= k < i ==>
          aliens[k].x == old(aliens[k].x) && aliens[k].rect == old(aliens[k].rect).(y := old(aliens[k].rect).y + settings.fleetDropSpeed)
        invariant forall k :: i <= k < |aliens| ==> aliens[k].x == old(aliens[k].x) && aliens[k].rect == old(aliens[k].rect)
      {
        aliens[i].rect := aliens[i].rect.(y := aliens[i].rect.y + settings.fleetDropSpeed);
        i := i + 1;
      }
      fleetDirection := Reversed(fleetDirection);
    }

    /** `_check_fleet_edges`: if any alien is at a side edge, the whole fleet
        drops and turns once, however many aliens are at the edge; otherwise
        nothing changes. */
    method CheckFleetEdges()
      requires Valid()
      modifies this, aliens
      ensures Valid()
      ensures aliens == old(aliens) && bullets == old(bullets) && ship == old(ship)
      ensures forall a :: a in aliens ==> a.x == old(a.x)
      ensures old(AnyAtEdge(aliens, settings.screenWidth)) ==>
        fleetDirection == Reversed(old(fleetDirection)) &&
        forall a :: a in aliens ==> a.rect == old(a.rect).(y := old(a.rect).y + settings.fleetDropSpeed)
      ensures !old(AnyAtEdge(aliens, settings.screenWidth)) ==>
        fleetDirection == old(fleetDirection) && forall a :: a in aliens ==> a.rect == old(a.rect)
    {
      var i := 0;
      while i < |aliens|
        invariant 0 <= i <= |aliens|
        invariant Valid()
        invariant aliens == old(aliens) && bullets == old(bullets) && ship == old(ship)
        invariant fleetDirection == old(fleetDirection)
        invariant forall a :: a in aliens ==> a.x == old(a.x) && a.rect == old(a.rect)
        invariant forall k :: 0 <= k < i ==> !aliens[k].CheckEdges(settings.screenWidth)
      {
        if aliens[i].CheckEdges(settings.screenWidth) {
          ChangeFleetDirection();
          break;
        }
        i := i + 1;
      }
    }

    /** `aliens.update()`: every alien takes one step in the fleet's
        direction. */
    method MoveAliens()
      requires Valid()
      modifies aliens
      ensures Valid()
      ensures forall a :: a in aliens ==>
        a.x == Shifted(old(a.x), settings.alienSpeed, fleetDirection) && a.rect == old(a.rect).(x := a.x)
    {
      var i := 0;
      while i < |aliens|
        invariant 0 <= i <= |aliens|
        invariant forall k :: 0 <= k < i ==>
          aliens[k].x == Shifted(old(aliens[k].x), settings.alienSpeed, fleetDirection) &&
          aliens[k].rect == old(aliens[k].rect).(x := aliens[k].x)
        invariant forall k :: i <= k < |aliens| ==> aliens[k].x == old(aliens[k].x) && aliens[k].rect == old(aliens[k].rect)
      {
        aliens[i].Update(settings.alienSpeed, fleetDirection);
        i := i + 1;
      }
    }

    /** `_update_aliens`: the edge check runs first, then every alien steps
        in the (possibly just reversed) direction. */
    method UpdateAliens()
      requires Valid()
      modifies this, aliens
      ensures Valid()
      ensures aliens == old(aliens) && bullets == old(bullets) && ship == old(ship)
      ensures fleetDirection == if old(AnyAtEdge(aliens, settings.screenWidth)) then Reversed(old(fleetDirection)) else old(fleetDirection)
      ensures forall a :: a in aliens ==>
        a.x == Shifted(old(a.x), settings.alienSpeed, fleetDirection) &&
        a.rect == old(a.rect).(x := a.x, y := old(a.rect).y + (if old(AnyAtEdge(aliens, settings.screenWidth)) then settings.fleetDropSpeed else 0))
    {
      CheckFleetEdges();
      MoveAliens();
    }

    /** `_create_alien`: place a new alien in column `alienNumber` of row
        `rowNumber` and add it to the fleet. */
    method CreateAlien(alienNumber: int, rowNumber: int)
      requires Valid()
      modifies this
      ensures Valid()
      ensures bullets == old(bullets) && fleetDirection == old(fleetDirection) && ship == old(ship)
      ensures |aliens| == |old(aliens)| + 1 && aliens == old(aliens) + [aliens[|old(aliens)|]]
      ensures fresh(aliens[|old(aliens)|])
      ensures aliens[|old(aliens)|].rect == Cell(settings.alienWidth, settings.alienHeight, alienNumber, rowNumber)
    {
      var alien := new Alien(settings.alienWidth, settings.alienHeight);
      var alienWidth, alienHeight := alien.rect.width, alien.rect.height;
      alien.x := alienWidth + 2 * alienWidth * alienNumber;
      alien.rect := alien.rect.(x := alien.x);
      alien.rect := alien.rect.(y := alien.rect.height * 2 + 2 * alien.rect.height * rowNumber);
      aliens := aliens + [alien];
    }

    /** One pass of the inner loop of `_create_fleet`: the first `count`
        aliens of row `rowNumber`, left to right. */
    method CreateRow(count: int, rowNumber: int)
      requires Valid()
      modifies this
      ensures Valid()
      ensures bullets == old(bullets) && fleetDirection == old(fleetDirection) && ship == old(ship)
      ensures |aliens| == |old(aliens)| + Max0(count) && aliens[..|old(aliens)|] == old(aliens)
      ensures forall k :: |old(aliens)| <= k < |aliens| ==>
        fresh(aliens[k]) && aliens[k].rect == Row(settings.alienWidth, settings.alienHeight, rowNumber, count)[k - |old(aliens)|]
    {
      var alienNumber := 0;
      while alienNumber < count
        invariant 0 <= alienNumber <= Max0(count)
        invariant |aliens| == |old(aliens)| + alienNumber && aliens[..|old(aliens)|] == old(aliens)
        invariant forall k :: |old(aliens)| <= k < |aliens| ==>
          fresh(aliens[k]) && aliens[k].rect == Cell(settings.alienWidth, settings.alienHeight, k - |old(aliens)|, rowNumber)
        invariant Valid() && bullets == old(bullets) && fleetDirection == old(fleetDirection) && ship == old(ship)
      {
        CreateAlien(alienNumber, rowNumber);
        alienNumber := alienNumber + 1;
      }
    }

    /** `_create_fleet`: add as many rows of as many aliens as fit, in the
        layout order. */
    method CreateFleet()
      requires Valid()
      modifies this
      ensures Valid()
      ensures bullets == old(bullets) && fleetDirection == old(fleetDirection) && ship == old(ship)
      ensures |aliens| == |old(aliens)| + |Layout(settings, ship.height)|
      ensures aliens[..|old(aliens)|] == old(aliens)
      ensures forall k :: |old(aliens)| <= k < |aliens| ==>
        fresh(aliens[k]) && aliens[k].rect == Layout(settings, ship.height)[k - |old(aliens)|]
    {
      // a first alien, only to read the image's size
      var alien := new Alien(settings.alienWidth, settings.alienHeight);
      var alienWidth, alienHeight := alien.rect.width, alien.rect.height;
      var availableSpaceX := settings.screenWidth - 2 * alienWidth;
      var numberAliensX := availableSpaceX / (2 * alienWidth);

      var shipHeight := ship.height;
      var availableSpaceY := settings.screenHeight - 8 * alienHeight - shipHeight;
      var numberRows := availableSpaceY / (2 * alienHeight);

      ghost var w, h := settings.alienWidth, settings.alienHeight;
      assert numberAliensX == Columns(settings.screenWidth, w);
      assert numberRows == Rows(settings.screenHeight, h, ship.height);
      var rowNumber := 0;
      while rowNumber < numberRows
        invariant 0 <= rowNumber <= Max0(numberRows)
        invariant |aliens| == |old(aliens)| + |Grid(w, h, numberAliensX, rowNumber)| && aliens[..|old(aliens)|] == old(aliens)
        invariant forall k :: |old(aliens)| <= k < |aliens| ==>
          fresh(aliens[k]) && aliens[k].rect == Grid(w, h, numberAliensX, rowNumber)[k - |old(aliens)|]
        invariant Valid() && bullets == old(bullets) && fleetDirection == old(fleetDirection) && ship == old(ship)
      {
        CreateRow(numberAliensX, rowNumber);
        rowNumber := rowNumber + 1;
      }
    }
  }
}
