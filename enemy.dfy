/** An enemy walking the board along the search's `next` links: it is
    spawned on a tile, advances one tile per unit of accumulated progress,
    and is handed back to the factory that made it once the tile it
    reaches has no next tile (a destination). */
module Enemies {
  import opened Grid
  import opened Paths

  datatype Option<T> = None | Some(value: T)

  /** Number of tiles the advance loop enters for an accumulated progress
      `total`: the loop runs while the progress is at least 1 and takes 1
      from it each time, so this is `total` rounded down, and 0 below 1. */
  function Steps(total: real): (k: nat)
    ensures total < 1.0 ==> k == 0
    ensures 1.0 <= total ==> 1 <= k && k as real <= total < k as real + 1.0
  {
    if total < 1.0 then 0 else total.Floor
  }

  /** Once the walk along `next` has run off the path it stays off. */
  lemma {:induction false} WalkStaysEnded(nxt: seq<int>, t: int, k: nat, k': nat)
    requires SuccessorsInRange(nxt) && -1 <= t < |nxt|
    requires k <= k' && Follow(nxt, t, k) == -1
    ensures Follow(nxt, t, k') == -1
    decreases k' - k
  {
    if k < k' {
      FollowStep(nxt, t, k);
      WalkStaysEnded(nxt, t, k + 1, k');
    }
  }

  /** On a consistent path graph a walk that starts on a tile with a path
      is still on the board after `m` steps exactly while `m` is at most the
      tile's distance, and the tile it has reached has no next tile exactly
      when that tile is a destination, which happens after `distance`
      steps: an enemy is reclaimed only on a destination. The `next` links
      of such a graph are fit for `Enemy.GameUpdate`. */
  lemma ReclaimedOnlyAtDestination(c: seq<Content>, lk: seq<Links>, dist: seq<int>, nxt: seq<int>, t: int, m: nat)
    requires SameSize(c, lk, dist, nxt) && PathGraph(c, lk, dist, nxt)
    requires 0 <= t < |c| && 0 <= dist[t]
    ensures SuccessorsInRange(nxt)
    ensures Follow(nxt, t, m) != -1 <==> m <= dist[t]
    ensures Follow(nxt, t, m) != -1 ==>
      var u := Follow(nxt, t, m);
      && 0 <= u < |c|
      && (nxt[u] == -1 <==> c[u] == Destination)
      && (nxt[u] == -1 <==> m == dist[t])
  {
    PathGraphSuccessors(c, lk, dist, nxt);
    FollowReachesDestination(c, lk, dist, nxt, t);
    if m <= dist[t] {
      var u := Follow(nxt, t, m);
      assert TileOk(c, lk, dist, nxt, u);
    }
  }

  /** An enemy of the game. `originFactory` names the factory that made it
      (`null` until it is set), `tileFrom` and `tileTo` are the tiles it is
      walking between (-1 for `null`), `progress` is how far along that
      stretch it is, and `reclaimed` records that it was handed back to its
      factory. */
  class Enemy {
    var originFactory: Option<nat>
    var tileFrom: int
    var tileTo: int
    var progress: real
    var reclaimed: bool

    /** The enemy walks between two tiles of a board of `n` tiles. */
    predicate Walking(n: int)
      reads this
    {
      !reclaimed && 0 <= tileFrom < n && 0 <= tileTo < n
    }

    /** A fresh enemy, as the factory instantiates it. */
    constructor ()
      ensures originFactory == None && tileFrom == -1 && tileTo == -1
      ensures progress == 0.0 && !reclaimed
    {
      originFactory := None;
      tileFrom, tileTo := -1, -1;
      progress := 0.0;
      reclaimed := false;
    }

    /** The `OriginFactory` setter: the factory may be set only once. */
    method SetOriginFactory(factory: nat)
      requires originFactory == None
      modifies this
      ensures originFactory == Some(factory)
      ensures tileFrom == old(tileFrom) && tileTo == old(tileTo)
      ensures progress == old(progress) && reclaimed == old(reclaimed)
    {
      originFactory := Some(factory);
    }

    /** `SpawnOn`: the enemy starts on `tile`, heading for its next tile,
        which must exist. `next` holds every tile's next tile on its path. */
    method SpawnOn(next: seq<int>, tile: int)
      requires !reclaimed
      requires SuccessorsInRange(next) && 0 <= tile < |next| && next[tile] != -1
      modifies this
      ensures Walking(|next|)
      ensures tileFrom == tile && tileTo == next[tile] && progress == 0.0
      ensures originFactory == old(originFactory) && reclaimed == old(reclaimed)
    {
      tileFrom := tile;
      tileTo := next[tile];
      progress := 0.0;
    }

    /** `GameUpdate`: `delta` is the frame time. The enemy enters one tile
        for each whole unit of accumulated progress, following `next`; it
        stays alive exactly when every tile it enters still has a next tile.
        `moves` counts the tiles it entered before stopping. */
    method GameUpdate(next: seq<int>, delta: real) returns (alive: bool, ghost moves: nat)
      requires SuccessorsInRange(next) && Walking(|next|)
      modifies this
      ensures originFactory == old(originFactory)
      ensures alive <==> Follow(next, old(tileTo), Steps(old(progress) + delta)) != -1
      ensures alive ==>
        && Walking(|next|)
        && moves == Steps(old(progress) + delta)
        && tileTo == Follow(next, old(tileTo), moves)
        && tileFrom == (if moves == 0 then old(tileFrom) else Follow(next, old(tileTo), moves - 1))
        && progress == old(progress) + delta - moves as real
        && progress < 1.0
        && (0.0 <= old(progress) + delta ==> 0.0 <= progress)
      ensures !alive ==>
        && reclaimed && tileTo == -1
        && 0 <= tileFrom < |next| && next[tileFrom] == -1
        && moves < Steps(old(progress) + delta)
        && tileFrom == Follow(next, old(tileTo), moves)
        && Follow(next, old(tileTo), moves + 1) == -1
        && progress == old(progress) + delta - moves as real
    {
      ghost var start, total := tileTo, progress + delta;
      progress := progress + delta;
      moves := 0;
      while 1.0 <= progress
        invariant !reclaimed && originFactory == old(originFactory)
        invariant 0 <= tileTo < |next| && tileTo == Follow(next, start, moves)
        invariant 0 <= tileFrom < |next|
        invariant tileFrom == (if moves == 0 then old(tileFrom) else Follow(next, start, moves - 1))
        invariant progress == total - moves as real
        invariant moves == 0 || moves as real <= total
        decreases progress.Floor
      {
        FollowStep(next, start, moves);
        tileFrom := tileTo;
        tileTo := next[tileTo];
        if tileTo == -1 {
          reclaimed := true;
          WalkStaysEnded(next, start, moves + 1, Steps(total));
          return false, moves;
        }
        progress := progress - 1.0;
        moves := moves + 1;
      }
      return true, moves;
    }
  }
}
