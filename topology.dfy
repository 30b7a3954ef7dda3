/**
 * The level topology of the downsampling pyramid: which resolutions the
 * constructor's loop visits between the source and the target resolution.
 */
module Topology {
  import opened Image

  /**
   * The constructor's loop guard, as written: continue while BOTH
   * dimensions are still above the target, so the loop stops as soon as
   * either one reaches it.
   */
  predicate Continues(prev: Dims, dst: Dims)
    ensures Covers(prev, dst) ==>
      (!Continues(prev, dst) <==> prev.width == dst.width || prev.height == dst.height)
  {
    prev.width > dst.width && prev.height > dst.height
  }

  /**
   * The next size of one dimension: halve, rounding up, while the size is at
   * least twice the target; otherwise snap to the target. It is the smallest
   * size that neither undershoots the target nor shrinks by more than half.
   */
  function NextDim(prev: nat, target: nat): (next: nat)
    requires prev > target
    ensures target <= next <= prev && prev <= 2 * next
    ensures next == target || 2 * (next - 1) < prev
    ensures next < prev || (prev == 1 && target == 0)
  {
    if prev >= 2 * target then (prev + 1) / 2 else target
  }

  /**
   * NextDim's contract determines it: the only size that is at least the
   * target, at least half of `prev`, and either the target or minimal with
   * that ratio is NextDim's.
   */
  lemma NextDimUnique(prev: nat, target: nat, m: nat)
    requires prev > target
    requires target <= m && prev <= 2 * m && (m == target || 2 * (m - 1) < prev)
    ensures m == NextDim(prev, target)
  {
  }

  /** One iteration of the loop: both dimensions step at once. */
  function NextLevel(prev: Dims, dst: Dims): (next: Dims)
    requires Continues(prev, dst)
    ensures Covers(prev, next) && Covers(next, dst)
    ensures prev.width <= 2 * next.width && prev.height <= 2 * next.height
  {
    Dims(NextDim(prev.width, dst.width), NextDim(prev.height, dst.height))
  }

  /**
   * The loop terminates: unless the target has a non-zero dimension, a
   * level of at least 1 x 1 would step to itself forever (ZeroTargetNeverStops).
   */
  predicate Terminates(src: Dims, dst: Dims)
    ensures !Terminates(src, dst) <==> dst == Dims(0, 0) && src.width >= 1 && src.height >= 1
  {
    dst.width >= 1 || dst.height >= 1 || src.width == 0 || src.height == 0
  }

  /** The resolutions the loop visits from `prev` on, `prev` first. */
  function Levels(prev: Dims, dst: Dims): (ls: seq<Dims>)
    requires Covers(prev, dst) && Terminates(prev, dst)
    ensures |ls| >= 1 && ls[0] == prev
    decreases prev.width + prev.height
  {
    if Continues(prev, dst) then [prev] + Levels(NextLevel(prev, dst), dst) else [prev]
  }

  function Last<T>(s: seq<T>): T
    requires |s| >= 1
  {
    s[|s| - 1]
  }

  /** `n` iterations of the loop from `l`, or fewer if the guard fails first. */
  function Advance(l: Dims, dst: Dims, n: nat): (r: Dims)
    requires Covers(l, dst)
    ensures Covers(l, r) && Covers(r, dst)
    decreases n
  {
    if n == 0 || !Continues(l, dst) then l else Advance(NextLevel(l, dst), dst, n - 1)
  }

  /** Every level is at least the target. */
  lemma {:induction false} LevelsCover(prev: Dims, dst: Dims)
    requires Covers(prev, dst) && Terminates(prev, dst)
    ensures forall k :: 0 <= k < |Levels(prev, dst)| ==> Covers(Levels(prev, dst)[k], dst)
    decreases prev.width + prev.height
  {
    if Continues(prev, dst) {
      var next := NextLevel(prev, dst);
      LevelsCover(next, dst);
      var ls, rest := Levels(prev, dst), Levels(next, dst);
      assert ls == [prev] + rest;
      forall k | 0 < k < |ls|
        ensures Covers(ls[k], dst)
      {
        assert ls[k] == rest[k - 1];
      }
    }
  }

  /**
   * Each level after the first is the loop step of the one before it, and
   * the guard held at that one.
   */
  lemma {:induction false} LevelsChain(prev: Dims, dst: Dims)
    requires Covers(prev, dst) && Terminates(prev, dst)
    ensures forall k :: 0 <= k < |Levels(prev, dst)| - 1 ==>
      Continues(Levels(prev, dst)[k], dst) && Levels(prev, dst)[k + 1] == NextLevel(Levels(prev, dst)[k], dst)
    decreases prev.width + prev.height
  {
    if Continues(prev, dst) {
      var next := NextLevel(prev, dst);
      LevelsChain(next, dst);
      var ls, rest := Levels(prev, dst), Levels(next, dst);
      assert ls == [prev] + rest;
      forall k | 0 <= k < |ls| - 1
        ensures Continues(ls[k], dst) && ls[k + 1] == NextLevel(ls[k], dst)
      {
        assert ls[k + 1] == rest[k];
        if k > 0 {
          assert ls[k] == rest[k - 1];
        }
      }
    }
  }

  /** The levels never grow, and each step shrinks a dimension by at most half. */
  lemma LevelsStep(prev: Dims, dst: Dims)
    requires Covers(prev, dst) && Terminates(prev, dst)
    ensures forall k :: 0 <= k < |Levels(prev, dst)| - 1 ==>
      var (l, m) := (Levels(prev, dst)[k], Levels(prev, dst)[k + 1]);
      Covers(l, m) && l.width <= 2 * m.width && l.height <= 2 * m.height
  {
    LevelsChain(prev, dst);
  }

  /** Level `k` is the level reached after `k` iterations of the loop. */
  lemma {:induction false} LevelsAreIterates(prev: Dims, dst: Dims, k: nat)
    requires Covers(prev, dst) && Terminates(prev, dst)
    requires k < |Levels(prev, dst)|
    ensures Levels(prev, dst)[k] == Advance(prev, dst, k)
    decreases k
  {
    if k > 0 {
      LevelsAreIterates(NextLevel(prev, dst), dst, k - 1);
    }
  }

  /**
   * The loop stops at the last level: one of its dimensions equals the
   * target's, though not necessarily both.
   */
  lemma {:induction false} LevelsLast(prev: Dims, dst: Dims)
    requires Covers(prev, dst) && Terminates(prev, dst)
    ensures !Continues(Last(Levels(prev, dst)), dst)
    ensures Last(Levels(prev, dst)).width == dst.width || Last(Levels(prev, dst)).height == dst.height
    decreases prev.width + prev.height
  {
    if Continues(prev, dst) {
      LevelsLast(NextLevel(prev, dst), dst);
    }
  }

  /** Every step removes at least one row or column, so the pyramid has few levels. */
  lemma {:induction false} LevelsCount(prev: Dims, dst: Dims)
    requires Covers(prev, dst) && Terminates(prev, dst)
    ensures |Levels(prev, dst)| <= prev.width + prev.height - dst.width - dst.height + 1
    decreases prev.width + prev.height
  {
    if Continues(prev, dst) {
      LevelsCount(NextLevel(prev, dst), dst);
    }
  }

  /**
   * Without the termination condition the loop never stops: with a 0 x 0
   * target a level of at least 1 x 1 never fails the guard.
   */
  lemma {:induction false} ZeroTargetNeverStops(l: Dims, n: nat)
    requires l.width >= 1 && l.height >= 1
    ensures Continues(Advance(l, Dims(0, 0), n), Dims(0, 0))
    decreases n
  {
    if n > 0 {
      ZeroTargetNeverStops(NextLevel(l, Dims(0, 0)), n - 1);
    }
  }

  /** The inputs the termination condition excludes are exactly those on which the loop runs forever. */
  lemma NonTerminatingInputsDiverge(src: Dims, dst: Dims, n: nat)
    requires Covers(src, dst) && !Terminates(src, dst)
    ensures Continues(Advance(src, dst, n), dst)
  {
    ZeroTargetNeverStops(src, n);
  }

  /** The loop steps only while neither dimension is at its target. */
  lemma OneDimensionAtTarget(src: Dims, dst: Dims)
    requires Covers(src, dst) && Terminates(src, dst)
    requires src.width == dst.width || src.height == dst.height
    ensures Levels(src, dst) == [src]
  {
  }

  /**
   * With a target of at least 1 x 1, a last level of the target's area is the
   * target itself.
   */
  lemma LastAreaIsTargetArea(src: Dims, dst: Dims)
    requires Covers(src, dst) && dst.width >= 1 && dst.height >= 1
    ensures Area(Last(Levels(src, dst))) == Area(dst) <==> Last(Levels(src, dst)) == dst
  {
    var ls := Levels(src, dst);
    var l := ls[|ls| - 1];
    LevelsCover(src, dst);
    if l != dst {
      AreaGrows(l, dst);
    }
  }

  /** A resolution covering a different one of at least 1 x 1 has a larger area. */
  lemma AreaGrows(a: Dims, b: Dims)
    requires Covers(a, b) && a != b && b.width >= 1 && b.height >= 1
    ensures Area(a) > Area(b)
  {
    AreaIsProduct(a);
    AreaIsProduct(b);
    ProductGrows(a.width, a.height, b.width, b.height);
  }

  lemma ProductGrows(aw: nat, ah: nat, bw: nat, bh: nat)
    requires aw >= bw >= 1 && ah >= bh >= 1 && (aw > bw || ah > bh)
    ensures aw * ah > bw * bh
  {
    assert aw * ah - aw * bh == aw * (ah - bh) >= 0;
    assert aw * bh - bw * bh == (aw - bw) * bh >= 0;
    if aw > bw {
      assert (aw - bw) * bh > 0;
    } else {
      assert aw * (ah - bh) > 0;
    }
  }

  /** 1024 x 768 down to 100 x 100 stops at 128 x 100: the height reached the target first. */
  lemma Example1024x768()
    ensures Levels(Dims(1024, 768), Dims(100, 100))
         == [Dims(1024, 768), Dims(512, 384), Dims(256, 192), Dims(128, 100)]
  {
  }

  /**
   * The last level of 1024 x 768 down to 100 x 100 has 12800 pixels, not the
   * target's 10000, so storing into a target-sized image fails.
   */
  lemma Example1024x768AreaMismatch()
    ensures Area(Last(Levels(Dims(1024, 768), Dims(100, 100)))) == 12800 != Area(Dims(100, 100))
  {
    Example1024x768();
    AreaIsProduct(Dims(128, 100));
    AreaIsProduct(Dims(100, 100));
  }

  /** 1024 x 256 down to 100 x 100 stops at 256 x 100. */
  lemma Example1024x256()
    ensures Levels(Dims(1024, 256), Dims(100, 100)) == [Dims(1024, 256), Dims(512, 128), Dims(256, 100)]
  {
  }

  /** A square halving chain whose dimensions reach the target together ends at the target. */
  lemma Example800x800()
    ensures Levels(Dims(800, 800), Dims(100, 100))
         == [Dims(800, 800), Dims(400, 400), Dims(200, 200), Dims(100, 100)]
  {
  }

  /** A source already at the target resolution needs no resize step. */
  lemma Example16x16()
    ensures Levels(Dims(16, 16), Dims(16, 16)) == [Dims(16, 16)]
  {
  }
}
