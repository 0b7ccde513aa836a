/** pygame's collision pass with both kill flags, as `_update_bullets` uses it.
    The pass reads every sprite's `rect` and moves nothing, so what it leaves
    of the two groups is a function of the groups and of the set of
    bullet-alien pairs whose rectangles overlap when it starts; the loops that
    compute it test the rectangles themselves. */
module Collisions {
  import opened Seqs
  import opened Geometry
  import opened Aliens
  import opened Bullets

  /** The bullet-alien pairs of the two groups whose rectangles overlap. */
  ghost function HitPairs(bs: seq<Bullet>, fleet: seq<Alien>): set<(Bullet, Alien)>
    reads bs, fleet
  {
    set b, a | b in bs && a in fleet && CollideRect(b.rect, a.rect) :: (b, a)
  }

  /** `hits` says, for every bullet of `bs` and alien of `fleet`, whether
      their rectangles overlap now. */
  ghost predicate Snapshot(hits: set<(Bullet, Alien)>, bs: seq<Bullet>, fleet: seq<Alien>)
    reads bs, fleet
  {
    forall i, j :: 0 <= i < |bs| && 0 <= j < |fleet| ==>
      ((bs[i], fleet[j]) in hits <==> CollideRect(bs[i].rect, fleet[j].rect))
  }

  /** `HitPairs` describes the rectangles it was taken from. */
  lemma HitPairsSnapshot(bs: seq<Bullet>, fleet: seq<Alien>)
    ensures Snapshot(HitPairs(bs, fleet), bs, fleet)
  {
    forall i, j | 0 <= i < |bs| && 0 <= j < |fleet|
      ensures (bs[i], fleet[j]) in HitPairs(bs, fleet) <==> CollideRect(bs[i].rect, fleet[j].rect)
    {
      var b, a := bs[i], fleet[j];
      if CollideRect(b.rect, a.rect) {
        assert b in bs && a in fleet;
      }
    }
  }

  /** A snapshot that holds nothing but pairs of the two groups is exactly
      their overlapping pairs. */
  lemma SnapshotHitPairs(hits: set<(Bullet, Alien)>, bs: seq<Bullet>, fleet: seq<Alien>)
    requires Snapshot(hits, bs, fleet)
    requires forall p :: p in hits ==> p.0 in bs && p.1 in fleet
    ensures hits == HitPairs(bs, fleet)
  {
    forall p | p in hits
      ensures p in HitPairs(bs, fleet)
    {
      var i :| 0 <= i < |bs| && bs[i] == p.0;
      var j :| 0 <= j < |fleet| && fleet[j] == p.1;
    }
    HitPairsSnapshot(bs, fleet);
    forall p | p in HitPairs(bs, fleet)
      ensures p in hits
    {
      var i :| 0 <= i < |bs| && bs[i] == p.0;
      var j :| 0 <= j < |fleet| && fleet[j] == p.1;
    }
  }

  /** A snapshot of two groups describes any groups drawn from them. */
  lemma SnapshotWithin(hits: set<(Bullet, Alien)>, bs: seq<Bullet>, fleet: seq<Alien>, bs': seq<Bullet>, fleet': seq<Alien>)
    requires Snapshot(hits, bs, fleet)
    requires forall i :: 0 <= i < |bs'| ==> bs'[i] in bs
    requires forall j :: 0 <= j < |fleet'| ==> fleet'[j] in fleet
    ensures Snapshot(hits, bs', fleet')
  {
    forall i, j | 0 <= i < |bs'| && 0 <= j < |fleet'|
      ensures (bs'[i], fleet'[j]) in hits <==> CollideRect(bs'[i].rect, fleet'[j].rect)
    {
      var k :| 0 <= k < |bs| && bs[k] == bs'[i];
      var l :| 0 <= l < |fleet| && fleet[l] == fleet'[j];
    }
  }

  /** `b` hits some alien of `fleet`: the list `spritecollide` returns is not
      empty. */
  predicate HitsAny(b: Bullet, fleet: seq<Alien>, hits: set<(Bullet, Alien)>) {
    fleet != [] && (HitsAny(b, fleet[..|fleet| - 1], hits) || (b, fleet[|fleet| - 1]) in hits)
  }

  /** `HitsAny` holds exactly when `b` hits some alien of the group. */
  lemma {:induction false} HitsAnyWitness(b: Bullet, fleet: seq<Alien>, hits: set<(Bullet, Alien)>)
    ensures HitsAny(b, fleet, hits) <==> exists i :: 0 <= i < |fleet| && (b, fleet[i]) in hits
  {
    if fleet != [] {
      var front := fleet[..|fleet| - 1];
      HitsAnyWitness(b, front, hits);
      assert forall i :: 0 <= i < |front| ==> front[i] == fleet[i];
    }
  }

  /** The aliens of `fleet` that `b` does not hit, in order: what
      `spritecollide(b, aliens, True)` leaves of the alien group. */
  function Spared(b: Bullet, fleet: seq<Alien>, hits: set<(Bullet, Alien)>): (left: seq<Alien>)
    ensures |left| <= |fleet|
  {
    if fleet == [] then []
    else
      var last := fleet[|fleet| - 1];
      Spared(b, fleet[..|fleet| - 1], hits) + (if (b, last) in hits then [] else [last])
  }

  /** Every spared alien comes from the group and is not hit by `b`. */
  lemma {:induction false} SparedSound(b: Bullet, fleet: seq<Alien>, hits: set<(Bullet, Alien)>)
    ensures forall i :: 0 <= i < |Spared(b, fleet, hits)| ==>
      Spared(b, fleet, hits)[i] in fleet && (b, Spared(b, fleet, hits)[i]) !in hits
  {
    if fleet != [] {
      var front := fleet[..|fleet| - 1];
      SparedSound(b, front, hits);
      assert forall i :: 0 <= i < |front| ==> front[i] == fleet[i];
    }
  }

  /** Every alien of the group that `b` does not hit is spared. */
  lemma {:induction false} SparedComplete(b: Bullet, fleet: seq<Alien>, hits: set<(Bullet, Alien)>, i: int)
    requires 0 <= i < |fleet| && (b, fleet[i]) !in hits
    ensures fleet[i] in Spared(b, fleet, hits)
  {
    var front := fleet[..|fleet| - 1];
    if i < |fleet| - 1 {
      assert front[i] == fleet[i];
      SparedComplete(b, front, hits, i);
    }
  }

  /** Sparing adds nothing new. */
  lemma SparedWithin(b: Bullet, fleet: seq<Alien>, hits: set<(Bullet, Alien)>, x: Alien)
    requires x !in fleet
    ensures x !in Spared(b, fleet, hits)
  {
    SparedSound(b, fleet, hits);
  }

  /** Sparing keeps a group free of duplicates. */
  lemma {:induction false} SparedDistinct(b: Bullet, fleet: seq<Alien>, hits: set<(Bullet, Alien)>)
    ensures Distinct(fleet) ==> Distinct(Spared(b, fleet, hits))
  {
    if fleet != [] && Distinct(fleet) {
      var front := fleet[..|fleet| - 1];
      assert forall i :: 0 <= i < |front| ==> front[i] == fleet[i];
      SparedDistinct(b, front, hits);
      SparedWithin(b, front, hits, fleet[|fleet| - 1]);
    }
  }

  /** Sweeping one more alien. */
  lemma SparedStep(b: Bullet, fleet: seq<Alien>, hits: set<(Bullet, Alien)>, j: int)
    requires 0 <= j < |fleet|
    ensures Spared(b, fleet[..j + 1], hits) == Spared(b, fleet[..j], hits) + (if (b, fleet[j]) in hits then [] else [fleet[j]])
    ensures HitsAny(b, fleet[..j + 1], hits) == (HitsAny(b, fleet[..j], hits) || (b, fleet[j]) in hits)
  {
    assert fleet[..j + 1][..j] == fleet[..j];
    assert fleet[..j + 1][j] == fleet[j];
  }

  /** One step of `spritecollide` with `dokill`: removing `fleet[j]` by
      value when `b` hits it, or keeping it, moves the boundary between the
      swept prefix and the untouched suffix one place on. */
  lemma SweepStep(b: Bullet, fleet: seq<Alien>, hits: set<(Bullet, Alien)>, j: int, left: seq<Alien>)
    requires Distinct(fleet) && 0 <= j < |fleet|
    requires left == Spared(b, fleet[..j], hits) + fleet[j..]
    ensures (if (b, fleet[j]) in hits then Without(left, fleet[j]) else left) == Spared(b, fleet[..j + 1], hits) + fleet[j + 1..]
    ensures HitsAny(b, fleet[..j + 1], hits) == (HitsAny(b, fleet[..j], hits) || (b, fleet[j]) in hits)
  {
    SparedStep(b, fleet, hits, j);
    if (b, fleet[j]) in hits {
      SweepDrop(b, fleet, hits, j, left);
    } else {
      SweepKeep(b, fleet, hits, j, left);
    }
  }

  lemma SweepDrop(b: Bullet, fleet: seq<Alien>, hits: set<(Bullet, Alien)>, j: int, left: seq<Alien>)
    requires Distinct(fleet) && 0 <= j < |fleet| && (b, fleet[j]) in hits
    requires left == Spared(b, fleet[..j], hits) + fleet[j..]
    ensures Without(left, fleet[j]) == Spared(b, fleet[..j + 1], hits) + fleet[j + 1..]
  {
    var p, x, q := Spared(b, fleet[..j], hits), fleet[j], fleet[j + 1..];
    SplitAt(fleet, j);
    assert left == p + ([x] + q);
    DistinctAt(fleet, j);
    SparedWithin(b, fleet[..j], hits, x);
    WithoutSplit(p, x, q);
    SparedStep(b, fleet, hits, j);
    assert Spared(b, fleet[..j + 1], hits) == p + [];
    assert p + [] == p;
  }

  lemma SweepKeep(b: Bullet, fleet: seq<Alien>, hits: set<(Bullet, Alien)>, j: int, left: seq<Alien>)
    requires 0 <= j < |fleet| && (b, fleet[j]) !in hits
    requires left == Spared(b, fleet[..j], hits) + fleet[j..]
    ensures left == Spared(b, fleet[..j + 1], hits) + fleet[j + 1..]
  {
    SparedStep(b, fleet, hits, j);
    SplitAt(fleet, j);
    AppendAssoc(Spared(b, fleet[..j], hits), [fleet[j]], fleet[j + 1..]);
  }

  /** pygame's `spritecollide(b, group, True)`: walk the group and kill every
      sprite whose rectangle overlaps the bullet's; report whether there was
      one. `hits` describes the rectangles as they are on entry. */
  method SpriteCollide(b: Bullet, group: seq<Alien>, ghost hits: set<(Bullet, Alien)>) returns (left: seq<Alien>, crashed: bool)
    requires Distinct(group) && Snapshot(hits, [b], group)
    ensures left == Spared(b, group, hits)
    ensures crashed == HitsAny(b, group, hits)
  {
    assert forall j :: 0 <= j < |group| ==> ((b, group[j]) in hits <==> CollideRect(b.rect, group[j].rect)) by {
      assert [b][0] == b;
    }
    left := group;
    crashed := false;
    var j := 0;
    while j < |group|
      invariant 0 <= j <= |group|
      invariant left == Spared(b, group[..j], hits) + group[j..]
      invariant crashed == HitsAny(b, group[..j], hits)
    {
      var a := group[j];
      SweepStep(b, group, hits, j, left);
      if CollideRect(b.rect, a.rect) {
        left := Without(left, a);
        crashed := true;
      }
      j := j + 1;
    }
    assert group[..j] == group;
  }

  datatype Survivors = Survivors(bullets: seq<Bullet>, aliens: seq<Alien>)

  /** `groupcollide(bullets, aliens, True, True)`: the bullets are taken in
      order; each one removes every alien still present that it hits, and is
      itself removed if it removed any. */
  function Resolve(bs: seq<Bullet>, fleet: seq<Alien>, hits: set<(Bullet, Alien)>): (r: Survivors)
    ensures |r.bullets| <= |bs| && |r.aliens| <= |fleet|
  {
    if bs == [] then Survivors([], fleet)
    else
      var b := bs[|bs| - 1];
      var prev := Resolve(bs[..|bs| - 1], fleet, hits);
      if HitsAny(b, prev.aliens, hits) then Survivors(prev.bullets, Spared(b, prev.aliens, hits))
      else Survivors(prev.bullets + [b], prev.aliens)
  }

  /** Resolving one more bullet. */
  lemma ResolveStep(bs: seq<Bullet>, fleet: seq<Alien>, hits: set<(Bullet, Alien)>, i: int)
    requires 0 <= i < |bs|
    ensures var prev := Resolve(bs[..i], fleet, hits);
      Resolve(bs[..i + 1], fleet, hits) ==
        if HitsAny(bs[i], prev.aliens, hits) then Survivors(prev.bullets, Spared(bs[i], prev.aliens, hits))
        else Survivors(prev.bullets + [bs[i]], prev.aliens)
  {
    assert bs[..i + 1][..i] == bs[..i];
  }

  /** The survivors come from the groups they started in. */
  lemma {:induction false} ResolveSound(bs: seq<Bullet>, fleet: seq<Alien>, hits: set<(Bullet, Alien)>)
    ensures forall i :: 0 <= i < |Resolve(bs, fleet, hits).bullets| ==> Resolve(bs, fleet, hits).bullets[i] in bs
    ensures forall i :: 0 <= i < |Resolve(bs, fleet, hits).aliens| ==> Resolve(bs, fleet, hits).aliens[i] in fleet
  {
    if bs != [] {
      var front := bs[..|bs| - 1];
      var prev := Resolve(front, fleet, hits);
      ResolveSound(front, fleet, hits);
      SparedSound(bs[|bs| - 1], prev.aliens, hits);
      assert forall i :: 0 <= i < |front| ==> front[i] == bs[i];
    }
  }

  /** Every survivor is still in step with its rectangle. */
  lemma ResolveSynced(bs: seq<Bullet>, fleet: seq<Alien>, hits: set<(Bullet, Alien)>)
    requires forall i :: 0 <= i < |bs| ==> bs[i].Synced()
    requires forall j :: 0 <= j < |fleet| ==> fleet[j].Synced()
    ensures forall i :: 0 <= i < |Resolve(bs, fleet, hits).bullets| ==> Resolve(bs, fleet, hits).bullets[i].Synced()
    ensures forall i :: 0 <= i < |Resolve(bs, fleet, hits).aliens| ==> Resolve(bs, fleet, hits).aliens[i].Synced()
  {
    ResolveSound(bs, fleet, hits);
  }

  /** Resolving adds no bullet. */
  lemma ResolveWithin(bs: seq<Bullet>, fleet: seq<Alien>, hits: set<(Bullet, Alien)>, x: Bullet)
    requires x !in bs
    ensures x !in Resolve(bs, fleet, hits).bullets
  {
    ResolveSound(bs, fleet, hits);
  }

  /** Resolving keeps both groups free of duplicates. */
  lemma {:induction false} ResolveDistinct(bs: seq<Bullet>, fleet: seq<Alien>, hits: set<(Bullet, Alien)>)
    requires Distinct(bs) && Distinct(fleet)
    ensures Distinct(Resolve(bs, fleet, hits).bullets) && Distinct(Resolve(bs, fleet, hits).aliens)
  {
    if bs != [] {
      var front := bs[..|bs| - 1];
      var b := bs[|bs| - 1];
      var prev := Resolve(front, fleet, hits);
      assert forall i :: 0 <= i < |front| ==> front[i] == bs[i];
      ResolveDistinct(front, fleet, hits);
      SparedDistinct(b, prev.aliens, hits);
      ResolveWithin(front, fleet, hits, b);
    }
  }

  /** One step of `groupcollide` on the bullet side: removing `bs[i]` by
      value when it hit an alien still present, or keeping it, moves the
      boundary between the resolved prefix and the untouched suffix one place
      on. */
  lemma ShotStep(bs: seq<Bullet>, fleet: seq<Alien>, hits: set<(Bullet, Alien)>, i: int, cur: seq<Bullet>)
    requires Distinct(bs) && 0 <= i < |bs|
    requires cur == Resolve(bs[..i], fleet, hits).bullets + bs[i..]
    ensures (if HitsAny(bs[i], Resolve(bs[..i], fleet, hits).aliens, hits) then Without(cur, bs[i]) else cur) ==
      Resolve(bs[..i + 1], fleet, hits).bullets + bs[i + 1..]
  {
    if HitsAny(bs[i], Resolve(bs[..i], fleet, hits).aliens, hits) {
      ShotDrop(bs, fleet, hits, i, cur);
    } else {
      ShotKeep(bs, fleet, hits, i, cur);
    }
  }

  lemma ShotDrop(bs: seq<Bullet>, fleet: seq<Alien>, hits: set<(Bullet, Alien)>, i: int, cur: seq<Bullet>)
    requires Distinct(bs) && 0 <= i < |bs| && HitsAny(bs[i], Resolve(bs[..i], fleet, hits).aliens, hits)
    requires cur == Resolve(bs[..i], fleet, hits).bullets + bs[i..]
    ensures Without(cur, bs[i]) == Resolve(bs[..i + 1], fleet, hits).bullets + bs[i + 1..]
  {
    var p, x, q := Resolve(bs[..i], fleet, hits).bullets, bs[i], bs[i + 1..];
    SplitAt(bs, i);
    assert cur == p + ([x] + q);
    DistinctAt(bs, i);
    ResolveWithin(bs[..i], fleet, hits, x);
    WithoutSplit(p, x, q);
    ResolveStep(bs, fleet, hits, i);
    assert Resolve(bs[..i + 1], fleet, hits).bullets == p;
  }

  lemma ShotKeep(bs: seq<Bullet>, fleet: seq<Alien>, hits: set<(Bullet, Alien)>, i: int, cur: seq<Bullet>)
    requires 0 <= i < |bs| && !HitsAny(bs[i], Resolve(bs[..i], fleet, hits).aliens, hits)
    requires cur == Resolve(bs[..i], fleet, hits).bullets + bs[i..]
    ensures cur == Resolve(bs[..i + 1], fleet, hits).bullets + bs[i + 1..]
  {
    ResolveStep(bs, fleet, hits, i);
    SplitAt(bs, i);
    AppendAssoc(Resolve(bs[..i], fleet, hits).bullets, [bs[i]], bs[i + 1..]);
  }

  /** One bullet of `groupcollide`: given what `spritecollide` reports for
      `bs[i]` against the aliens still present, both groups move on to the
      next prefix of the resolution. */
  lemma ShootStep(bs: seq<Bullet>, fleet: seq<Alien>, hits: set<(Bullet, Alien)>, i: int, cur: seq<Bullet>, left: seq<Alien>, crashed: bool)
    requires Distinct(bs) && 0 <= i < |bs|
    requires cur == Resolve(bs[..i], fleet, hits).bullets + bs[i..]
    requires left == Spared(bs[i], Resolve(bs[..i], fleet, hits).aliens, hits)
    requires crashed == HitsAny(bs[i], Resolve(bs[..i], fleet, hits).aliens, hits)
    ensures (if crashed then Without(cur, bs[i]) else cur) == Resolve(bs[..i + 1], fleet, hits).bullets + bs[i + 1..]
    ensures (if crashed then left else Resolve(bs[..i], fleet, hits).aliens) == Resolve(bs[..i + 1], fleet, hits).aliens
  {
    ShotStep(bs, fleet, hits, i, cur);
    ResolveStep(bs, fleet, hits, i);
  }

  /** pygame's `groupcollide(shots, targets, True, True)`: each bullet in
      turn is checked with `spritecollide` against the aliens still present,
      killing those it overlaps, and is killed itself if there were any.
      `hits` describes the rectangles as they are on entry. */
  method GroupCollide(shots: seq<Bullet>, targets: seq<Alien>, ghost hits: set<(Bullet, Alien)>) returns (r: Survivors)
    requires Distinct(shots) && Distinct(targets)
    requires Snapshot(hits, shots, targets)
    ensures r == Resolve(shots, targets, hits)
  {
    var bullets, aliens := shots, targets;
    var i := 0;
    while i < |shots|
      invariant 0 <= i <= |shots|
      invariant bullets == Resolve(shots[..i], targets, hits).bullets + shots[i..]
      invariant aliens == Resolve(shots[..i], targets, hits).aliens
      invariant Snapshot(hits, shots, targets)
    {
      var b := shots[i];
      DistinctPrefix(shots, i);
      ResolveDistinct(shots[..i], targets, hits);
      ResolveSound(shots[..i], targets, hits);
      SnapshotWithin(hits, shots, targets, [b], aliens);
      var left, crashed := SpriteCollide(b, aliens, hits);
      ShootStep(shots, targets, hits, i, bullets, left, crashed);
      if crashed {
        bullets := Without(bullets, b);
        aliens := left;
      }
      i := i + 1;
    }
    assert shots[..i] == shots;
    r := Survivors(bullets, aliens);
  }

  /** No bullet of `bs` hits an alien of `fleet`. */
  predicate Untouched(bs: seq<Bullet>, fleet: seq<Alien>, hits: set<(Bullet, Alien)>) {
    forall i, j :: 0 <= i < |bs| && 0 <= j < |fleet| ==> (bs[i], fleet[j]) !in hits
  }

  /** After the collision pass no surviving bullet hits a surviving alien. */
  lemma {:induction false} NoSurvivorsCollide(bs: seq<Bullet>, fleet: seq<Alien>, hits: set<(Bullet, Alien)>)
    ensures Untouched(Resolve(bs, fleet, hits).bullets, Resolve(bs, fleet, hits).aliens, hits)
  {
    if bs != [] {
      var b := bs[|bs| - 1];
      var prev := Resolve(bs[..|bs| - 1], fleet, hits);
      NoSurvivorsCollide(bs[..|bs| - 1], fleet, hits);
      SparedSound(b, prev.aliens, hits);
      HitsAnyWitness(b, prev.aliens, hits);
      var r := Resolve(bs, fleet, hits);
      forall i, j | 0 <= i < |r.bullets| && 0 <= j < |r.aliens|
        ensures (r.bullets[i], r.aliens[j]) !in hits
      {
        if HitsAny(b, prev.aliens, hits) {
          assert r.aliens[j] in prev.aliens;
          var k :| 0 <= k < |prev.aliens| && prev.aliens[k] == r.aliens[j];
          assert (prev.bullets[i], prev.aliens[k]) !in hits;
        } else if i == |prev.bullets| {
          assert r.bullets[i] == b && r.aliens == prev.aliens;
        } else {
          assert r.bullets[i] == prev.bullets[i] && r.aliens == prev.aliens;
        }
      }
    }
  }

  /** No bullet's rectangle overlaps an alien's. */
  predicate Apart(bs: seq<Bullet>, fleet: seq<Alien>)
    reads bs, fleet
  {
    forall i, j :: 0 <= i < |bs| && 0 <= j < |fleet| ==> !CollideRect(bs[i].rect, fleet[j].rect)
  }

  /** With `hits` taken from the rectangles, the surviving bullets and aliens
      do not overlap. */
  lemma SurvivorsApart(bs: seq<Bullet>, fleet: seq<Alien>, hits: set<(Bullet, Alien)>)
    requires Snapshot(hits, bs, fleet)
    ensures Apart(Resolve(bs, fleet, hits).bullets, Resolve(bs, fleet, hits).aliens)
  {
    var r := Resolve(bs, fleet, hits);
    NoSurvivorsCollide(bs, fleet, hits);
    ResolveSound(bs, fleet, hits);
    SnapshotWithin(hits, bs, fleet, r.bullets, r.aliens);
  }

  /** A single bullet removes every alien it overlaps, however many there
      are, and keeps every other; it is removed itself exactly when it hit
      something. */
  lemma SingleShot(b: Bullet, fleet: seq<Alien>, hits: set<(Bullet, Alien)>)
    ensures var r := Resolve([b], fleet, hits);
      (forall j :: 0 <= j < |fleet| ==> (fleet[j] in r.aliens <==> (b, fleet[j]) !in hits)) &&
      r.bullets == (if HitsAny(b, fleet, hits) then [] else [b])
  {
    assert [b][..0] == [];
    assert Resolve([], fleet, hits) == Survivors([], fleet);
    var r := Resolve([b], fleet, hits);
    assert r == if HitsAny(b, fleet, hits) then Survivors([], Spared(b, fleet, hits)) else Survivors([b], fleet);
    HitsAnyWitness(b, fleet, hits);
    SparedSound(b, fleet, hits);
    forall j | 0 <= j < |fleet| && (b, fleet[j]) !in hits
      ensures fleet[j] in r.aliens
    {
      if HitsAny(b, fleet, hits) {
        SparedComplete(b, fleet, hits, j);
      }
    }
  }

  /** Every removed bullet hit an alien that was removed: one of the original
      aliens that is gone afterwards. */
  lemma {:induction false} RemovedBulletsHit(bs: seq<Bullet>, fleet: seq<Alien>, hits: set<(Bullet, Alien)>, b: Bullet)
    requires b in bs && b !in Resolve(bs, fleet, hits).bullets
    ensures exists a :: a in fleet && a !in Resolve(bs, fleet, hits).aliens && (b, a) in hits
  {
    var last := bs[|bs| - 1];
    var front := bs[..|bs| - 1];
    var prev := Resolve(front, fleet, hits);
    var r := Resolve(bs, fleet, hits);
    ResolveSound(front, fleet, hits);
    SparedSound(last, prev.aliens, hits);
    if b == last {
      // `last` was dropped, so it removed some alien still present
      assert HitsAny(last, prev.aliens, hits);
      HitsAnyWitness(last, prev.aliens, hits);
      var k :| 0 <= k < |prev.aliens| && (last, prev.aliens[k]) in hits;
      var a := prev.aliens[k];
      assert a !in r.aliens;
      assert a in fleet;
    } else {
      assert b in front by {
        var i :| 0 <= i < |bs| && bs[i] == b;
        assert front[i] == b;
      }
      assert b !in prev.bullets;
      RemovedBulletsHit(front, fleet, hits, b);
      var a :| a in fleet && a !in prev.aliens && (b, a) in hits;
      assert a !in r.aliens;
    }
  }

  /** A bullet is removed only if, when its turn came, some alien still
      present overlapped it. */
  lemma {:induction false} DroppedOnlyIfHit(bs: seq<Bullet>, fleet: seq<Alien>, hits: set<(Bullet, Alien)>, i: int)
    requires 0 <= i < |bs| && bs[i] !in Resolve(bs, fleet, hits).bullets
    ensures HitsAny(bs[i], Resolve(bs[..i], fleet, hits).aliens, hits)
  {
    var front := bs[..|bs| - 1];
    var prev := Resolve(front, fleet, hits);
    if i == |bs| - 1 {
      var b := bs[i];
      assert front == bs[..i];
      assert Resolve(bs, fleet, hits).bullets ==
        if HitsAny(b, prev.aliens, hits) then prev.bullets else prev.bullets + [b];
    } else {
      assert front[..i] == bs[..i];
      DroppedOnlyIfHit(front, fleet, hits, i);
    }
  }

  /** Every removed bullet overlapped an alien that was still present when
      the bullet was checked, and that alien went with it. */
  lemma RemovedWhenChecked(bs: seq<Bullet>, fleet: seq<Alien>, hits: set<(Bullet, Alien)>, i: int)
    requires 0 <= i < |bs| && bs[i] !in Resolve(bs, fleet, hits).bullets
    ensures exists a ::
      a in Resolve(bs[..i], fleet, hits).aliens && (bs[i], a) in hits && a !in Resolve(bs[..i + 1], fleet, hits).aliens
  {
    var present := Resolve(bs[..i], fleet, hits).aliens;
    DroppedOnlyIfHit(bs, fleet, hits, i);
    HitsAnyWitness(bs[i], present, hits);
    var k :| 0 <= k < |present| && (bs[i], present[k]) in hits;
    ResolveStep(bs, fleet, hits, i);
    SparedSound(bs[i], present, hits);
    assert present[k] !in Resolve(bs[..i + 1], fleet, hits).aliens;
  }

  /** Every removed alien was hit by a bullet that was removed too. */
  lemma {:induction false} RemovedAliensHit(bs: seq<Bullet>, fleet: seq<Alien>, hits: set<(Bullet, Alien)>, a: Alien)
    requires Distinct(bs)
    requires a in fleet && a !in Resolve(bs, fleet, hits).aliens
    ensures exists b :: b in bs && b !in Resolve(bs, fleet, hits).bullets && (b, a) in hits
  {
    var last := bs[|bs| - 1];
    var front := bs[..|bs| - 1];
    var prev := Resolve(front, fleet, hits);
    var r := Resolve(bs, fleet, hits);
    assert forall i :: 0 <= i < |front| ==> front[i] == bs[i];
    assert Distinct(front);
    if a in prev.aliens {
      // removed by `last`, which therefore went too
      assert last !in front;
      ResolveWithin(front, fleet, hits, last);
      var k :| 0 <= k < |prev.aliens| && prev.aliens[k] == a;
      HitsAnyWitness(last, prev.aliens, hits);
      if (last, a) !in hits {
        SparedComplete(last, prev.aliens, hits, k);
      }
      assert last in bs && last !in r.bullets;
    } else {
      RemovedAliensHit(front, fleet, hits, a);
      var b :| b in front && b !in prev.bullets && (b, a) in hits;
      assert b in bs && b !in r.bullets;
    }
  }
}
