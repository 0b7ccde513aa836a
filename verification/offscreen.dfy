/** The off-screen pass of `_update_bullets`: which bullets survive it, as a
    function of the group and of the bullets' current rectangles, and the
    facts that let a loop removing bullets one by one be proved against it. */
module OffScreen {
  import opened Seqs
  import opened Bullets

  /** The bullets whose bottom is still below the top of the screen, in order. */
  function OnScreen(bs: seq<Bullet>): (kept: seq<Bullet>)
    reads bs
    ensures |kept| <= |bs|
  {
    if bs == [] then []
    else
      var last := bs[|bs| - 1];
      OnScreen(bs[..|bs| - 1]) + (if last.rect.Bottom() > 0 then [last] else [])
  }

  /** Filtering depends on nothing but the group's bullets. */
  twostate lemma OnScreenKept(bs: seq<Bullet>)
    requires unchanged(bs)
    ensures OnScreen(bs) == old(OnScreen(bs))
  {
  }

  /** Every kept bullet comes from the group and is still on screen. */
  lemma {:induction false} OnScreenSound(bs: seq<Bullet>)
    ensures forall i :: 0 <= i < |OnScreen(bs)| ==> OnScreen(bs)[i] in bs && OnScreen(bs)[i].rect.Bottom() > 0
  {
    if bs != [] {
      var front := bs[..|bs| - 1];
      OnScreenSound(front);
      assert forall i :: 0 <= i < |front| ==> front[i] == bs[i];
    }
  }

  /** Every bullet of the group that is still on screen is kept. */
  lemma {:induction false} OnScreenComplete(bs: seq<Bullet>, i: int)
    requires 0 <= i < |bs| && bs[i].rect.Bottom() > 0
    ensures bs[i] in OnScreen(bs)
  {
    var front := bs[..|bs| - 1];
    if i < |bs| - 1 {
      assert front[i] == bs[i];
      OnScreenComplete(front, i);
    }
  }

  /** Filtering adds nothing new. */
  lemma OnScreenWithin(bs: seq<Bullet>, x: Bullet)
    requires x !in bs
    ensures x !in OnScreen(bs)
  {
    OnScreenSound(bs);
  }

  /** Filtering keeps a group free of duplicates. */
  lemma {:induction false} OnScreenDistinct(bs: seq<Bullet>)
    ensures Distinct(bs) ==> Distinct(OnScreen(bs))
  {
    if bs != [] && Distinct(bs) {
      var front := bs[..|bs| - 1];
      assert forall i :: 0 <= i < |front| ==> front[i] == bs[i];
      OnScreenDistinct(front);
      OnScreenWithin(front, bs[|bs| - 1]);
    }
  }

  /** Every kept bullet is still in step with its rectangle. */
  lemma OnScreenSynced(bs: seq<Bullet>)
    requires forall i :: 0 <= i < |bs| ==> bs[i].Synced()
    ensures forall i :: 0 <= i < |OnScreen(bs)| ==> OnScreen(bs)[i].Synced()
  {
    OnScreenSound(bs);
  }

  /** Filtering one more bullet. */
  lemma OnScreenStep(bs: seq<Bullet>, i: int)
    requires 0 <= i < |bs|
    ensures OnScreen(bs[..i + 1]) == OnScreen(bs[..i]) + (if bs[i].rect.Bottom() > 0 then [bs[i]] else [])
  {
    assert bs[..i + 1][..i] == bs[..i];
  }

  /** One step of the removal loop: removing `bs[i]` by value when it is off
      the screen, or keeping it, moves the boundary between the filtered
      prefix and the untouched suffix one place on. */
  lemma FilterStep(bs: seq<Bullet>, i: int, kept: seq<Bullet>)
    requires Distinct(bs) && 0 <= i < |bs|
    requires kept == OnScreen(bs[..i]) + bs[i..]
    ensures (if bs[i].rect.Bottom() <= 0 then Without(kept, bs[i]) else kept) == OnScreen(bs[..i + 1]) + bs[i + 1..]
  {
    if bs[i].rect.Bottom() <= 0 {
      FilterDrop(bs, i, kept);
    } else {
      FilterKeep(bs, i, kept);
    }
  }

  lemma FilterDrop(bs: seq<Bullet>, i: int, kept: seq<Bullet>)
    requires Distinct(bs) && 0 <= i < |bs| && bs[i].rect.Bottom() <= 0
    requires kept == OnScreen(bs[..i]) + bs[i..]
    ensures Without(kept, bs[i]) == OnScreen(bs[..i + 1]) + bs[i + 1..]
  {
    var p, x, q := OnScreen(bs[..i]), bs[i], bs[i + 1..];
    SplitAt(bs, i);
    assert kept == p + ([x] + q);
    DistinctAt(bs, i);
    OnScreenWithin(bs[..i], x);
    WithoutSplit(p, x, q);
    assert Without(kept, x) == p + q;
    OnScreenStep(bs, i);
    assert OnScreen(bs[..i + 1]) == p + [];
    assert p + [] == p;
  }

  lemma FilterKeep(bs: seq<Bullet>, i: int, kept: seq<Bullet>)
    requires 0 <= i < |bs| && bs[i].rect.Bottom() > 0
    requires kept == OnScreen(bs[..i]) + bs[i..]
    ensures kept == OnScreen(bs[..i + 1]) + bs[i + 1..]
  {
    OnScreenStep(bs, i);
    SplitAt(bs, i);
    AppendAssoc(OnScreen(bs[..i]), [bs[i]], bs[i + 1..]);
  }

  /** The filtering loop of `_update_bullets`: walking a copy of the
      group, remove by value every bullet whose bottom has reached the top
      of the screen. */
  method FilterOffScreen(group: seq<Bullet>) returns (remaining: seq<Bullet>)
    requires Distinct(group)
    ensures remaining == OnScreen(group)
  {
    var copy := group;
    remaining := group;
    var i := 0;
    while i < |copy|
      invariant 0 <= i <= |copy|
      invariant remaining == OnScreen(copy[..i]) + copy[i..]
    {
      var b := copy[i];
      FilterStep(copy, i, remaining);
      if b.rect.Bottom() <= 0 {
        remaining := Without(remaining, b);
      }
      i := i + 1;
    }
    assert copy[..i] == copy;
  }
}
