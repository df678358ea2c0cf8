/** The path graph `GameBoard.FindPaths` builds, stated on plain sequences:
    the content of every tile, the neighbour links, and the per-tile path
    state (`distance`, `next`) that `GameTile` keeps. */
module Paths {
  import opened Grid

  /** What a tile holds (`GameTileContentType`). A spawn point is left alone
      by `ToggleWall` and `ToggleDestination`. */
  datatype Content = Empty | Wall | Destination | SpawnPoint

  /** Whether a path may not run through a tile with this content. A blocking
      tile can still be given a distance, but the search does not expand it. */
  predicate Blocks(c: Content)
  {
    c == Wall
  }

  /** Whether tile `j` is one of the four neighbours in `l`. */
  predicate IsLink(l: Links, j: int)
  {
    0 <= j && (l.north == j || l.south == j || l.east == j || l.west == j)
  }

  predicate LinksWithin(l: Links, n: int)
  {
    -1 <= l.north < n && -1 <= l.south < n && -1 <= l.east < n && -1 <= l.west < n
  }

  predicate LinksInRange(lk: seq<Links>)
  {
    forall i :: 0 <= i < |lk| ==> LinksWithin(lk[i], |lk|)
  }

  predicate SameSize(c: seq<Content>, lk: seq<Links>, dist: seq<int>, nxt: seq<int>)
  {
    |lk| == |c| && |dist| == |c| && |nxt| == |c|
  }

  predicate HasDestination(c: seq<Content>)
  {
    exists j :: 0 <= j < |c| && c[j] == Destination
  }

  /** `p` is a route the search can grow: it starts on a destination, every
      step goes from a tile to one of its neighbours, every tile it leaves is
      passable, and it ends on tile `i` (which may itself block). */
  predicate IsRoute(c: seq<Content>, lk: seq<Links>, p: seq<int>, i: int)
    requires |lk| == |c|
  {
    && 0 < |p| && p[|p| - 1] == i
    && (forall k :: 0 <= k < |p| ==> 0 <= p[k] < |c|)
    && c[p[0]] == Destination
    && (forall k :: 0 <= k < |p| - 1 ==> !Blocks(c[p[k]]) && IsLink(lk[p[k]], p[k + 1]))
  }

  /** Tile `i` can be reached from some destination. */
  ghost predicate Connected(c: seq<Content>, lk: seq<Links>, i: int)
    requires |lk| == |c|
  {
    exists p :: IsRoute(c, lk, p, i)
  }

  ghost predicate AllConnected(c: seq<Content>, lk: seq<Links>)
    requires |lk| == |c|
  {
    forall i :: 0 <= i < |c| ==> Connected(c, lk, i)
  }

  /** The path state of tile `i` is consistent: a destination is a root
      (distance 0, no next tile); a tile without a path (distance -1) has no
      next tile; any other tile points at a passable neighbour that has a
      path and is one step closer to a destination. */
  predicate TileOk(c: seq<Content>, lk: seq<Links>, dist: seq<int>, nxt: seq<int>, i: int)
    requires SameSize(c, lk, dist, nxt) && 0 <= i < |c|
  {
    if c[i] == Destination then
      dist[i] == 0 && nxt[i] == -1
    else if dist[i] < 0 then
      dist[i] == -1 && nxt[i] == -1
    else
      && 0 <= nxt[i] < |c| && 0 <= dist[nxt[i]] && dist[i] == dist[nxt[i]] + 1
      && !Blocks(c[nxt[i]]) && IsLink(lk[nxt[i]], i)
  }

  ghost predicate PathGraph(c: seq<Content>, lk: seq<Links>, dist: seq<int>, nxt: seq<int>)
    requires SameSize(c, lk, dist, nxt)
  {
    forall i :: 0 <= i < |c| ==> TileOk(c, lk, dist, nxt, i)
  }

  /** Every neighbour in `l` that exists has a path. */
  predicate NeighboursReached(l: Links, dist: seq<int>)
  {
    && (l.north == -1 || (0 <= l.north < |dist| && 0 <= dist[l.north]))
    && (l.south == -1 || (0 <= l.south < |dist| && 0 <= dist[l.south]))
    && (l.east == -1 || (0 <= l.east < |dist| && 0 <= dist[l.east]))
    && (l.west == -1 || (0 <= l.west < |dist| && 0 <= dist[l.west]))
  }

  /** The search invariant: every passable tile with a path, apart from
      `except`, is still waiting in the frontier `q` or has had all its
      neighbours reached. */
  ghost predicate Closed(c: seq<Content>, lk: seq<Links>, dist: seq<int>, q: seq<int>, except: int)
    requires |lk| == |c| && |dist| == |c|
  {
    forall i :: 0 <= i < |c| && 0 <= dist[i] && !Blocks(c[i]) && i != except ==>
      i in q || NeighboursReached(lk[i], dist)
  }

  /** Soundness of the path graph: the `next` links of a tile with a path,
      read backwards, form a route from a destination one tile longer than
      the tile's distance. */
  lemma {:induction false} PathedIsConnected(c: seq<Content>, lk: seq<Links>, dist: seq<int>, nxt: seq<int>, i: int)
    returns (p: seq<int>)
    requires SameSize(c, lk, dist, nxt) && PathGraph(c, lk, dist, nxt)
    requires 0 <= i < |c| && 0 <= dist[i]
    ensures IsRoute(c, lk, p, i) && |p| == dist[i] + 1
    decreases dist[i]
  {
    assert TileOk(c, lk, dist, nxt, i);
    if c[i] == Destination {
      p := [i];
    } else {
      var t := nxt[i];
      var q := PathedIsConnected(c, lk, dist, nxt, t);
      p := q + [i];
      forall k | 0 <= k < |p| - 1
        ensures !Blocks(c[p[k]]) && IsLink(lk[p[k]], p[k + 1])
      {
        if k < |q| - 1 {
          assert p[k] == q[k] && p[k + 1] == q[k + 1];
        } else {
          assert p[k] == t && p[k + 1] == i;
        }
      }
    }
  }

  /** Completeness of a closed search: when every destination has a path and
      no passable tile with a path has a neighbour without one, every tile
      at the end of a route has a path. */
  lemma {:induction false} RouteIsPathed(c: seq<Content>, lk: seq<Links>, dist: seq<int>, p: seq<int>, i: int)
    requires |lk| == |c| && |dist| == |c|
    requires forall j :: 0 <= j < |c| && c[j] == Destination ==> 0 <= dist[j]
    requires Closed(c, lk, dist, [], -1)
    requires IsRoute(c, lk, p, i)
    ensures 0 <= dist[i]
    decreases |p|
  {
    if 1 < |p| {
      var q := p[..|p| - 1];
      var t := q[|q| - 1];
      assert IsRoute(c, lk, q, t) by {
        forall k | 0 <= k < |q| - 1
          ensures !Blocks(c[q[k]]) && IsLink(lk[q[k]], q[k + 1])
        {
          assert q[k] == p[k] && q[k + 1] == p[k + 1];
        }
      }
      RouteIsPathed(c, lk, dist, q, t);
      assert t == p[|p| - 2] && !Blocks(c[t]) && IsLink(lk[t], i);
      assert NeighboursReached(lk[t], dist);
    }
  }

  /** Without a destination no route exists, so no tile is connected. */
  lemma NoDestinationNoRoute(c: seq<Content>, lk: seq<Links>)
    requires |lk| == |c| && !HasDestination(c)
    ensures forall i :: !Connected(c, lk, i)
    ensures 0 < |c| ==> !AllConnected(c, lk)
  {
    if 0 < |c| {
      assert !Connected(c, lk, 0);
    }
  }

  /** The outcome of a finished search: once the path graph is consistent and
      closed, a tile has a path exactly when it is connected to a destination. */
  lemma PathedIffConnected(c: seq<Content>, lk: seq<Links>, dist: seq<int>, nxt: seq<int>)
    requires SameSize(c, lk, dist, nxt) && PathGraph(c, lk, dist, nxt)
    requires Closed(c, lk, dist, [], -1)
    ensures forall i :: 0 <= i < |c| ==> (0 <= dist[i] <==> Connected(c, lk, i))
    ensures (forall i :: 0 <= i < |c| ==> 0 <= dist[i]) <==> AllConnected(c, lk)
  {
    forall j | 0 <= j < |c| && c[j] == Destination
      ensures 0 <= dist[j]
    {
      assert TileOk(c, lk, dist, nxt, j);
    }
    forall i | 0 <= i < |c|
      ensures 0 <= dist[i] <==> Connected(c, lk, i)
    {
      if 0 <= dist[i] {
        var p := PathedIsConnected(c, lk, dist, nxt, i);
      }
      if Connected(c, lk, i) {
        var p :| IsRoute(c, lk, p, i);
        RouteIsPathed(c, lk, dist, p, i);
      }
    }
  }

  /** A route survives any edit that keeps every destination a destination
      and blocks no tile that was passable (removing a wall, adding a
      destination). */
  lemma RoutesSurviveRelaxing(c: seq<Content>, c': seq<Content>, lk: seq<Links>)
    requires |lk| == |c| && |c'| == |c|
    requires forall j :: 0 <= j < |c| && c[j] == Destination ==> c'[j] == Destination
    requires forall j :: 0 <= j < |c| && Blocks(c'[j]) ==> Blocks(c[j])
    ensures forall i :: 0 <= i < |c| && Connected(c, lk, i) ==> Connected(c', lk, i)
  {
    forall i | 0 <= i < |c| && Connected(c, lk, i)
      ensures Connected(c', lk, i)
    {
      var p :| IsRoute(c, lk, p, i);
      assert IsRoute(c', lk, p, i);
    }
  }

  /** A route to a passable tile goes on to any neighbour of that tile. */
  lemma RouteExtends(c: seq<Content>, lk: seq<Links>, i: int, j: int)
    requires |lk| == |c| && 0 <= i < |c| && 0 <= j < |c|
    requires Connected(c, lk, i) && !Blocks(c[i]) && IsLink(lk[i], j)
    ensures Connected(c, lk, j)
  {
    var p :| IsRoute(c, lk, p, i);
    assert IsRoute(c, lk, p + [j], j);
  }

  /** The board is wired as a `width` by `height` grid, has no walls and
      has a destination at tile `d`. */
  predicate OpenGrid(width: int, height: int, c: seq<Content>, lk: seq<Links>, d: int)
  {
    && 0 < width && 0 < height && |c| == width * height && |lk| == |c|
    && (forall j :: 0 <= j < |lk| ==> lk[j] == GridLinks(width, height, j % width, j / width))
    && (forall j :: 0 <= j < |c| ==> !Blocks(c[j]))
    && 0 <= d < |c| && c[d] == Destination
  }

  /** On an open grid every tile of the destination's row can be reached,
      walking along that row. */
  lemma {:induction false} RowConnected(width: int, height: int, c: seq<Content>, lk: seq<Links>, d: int, x: int)
    requires OpenGrid(width, height, c, lk, d) && 0 <= x < width
    ensures Connected(c, lk, Index(width, x, d / width))
    decreases if x < d % width then d % width - x else x - d % width
  {
    Decompose(width, height, d);
    var dx, dy := d % width, d / width;
    var i := Index(width, x, dy);
    Coordinates(width, height, x, dy);
    if x == dx {
      assert IsRoute(c, lk, [d], d);
    } else {
      var x' := if x < dx then x + 1 else x - 1;
      RowConnected(width, height, c, lk, d, x');
      Coordinates(width, height, x', dy);
      RouteExtends(c, lk, Index(width, x', dy), i);
    }
  }

  /** On an open grid every tile can be reached: along the destination's
      row to the tile's column, then along that column. */
  lemma {:induction false} ColumnConnected(width: int, height: int, c: seq<Content>, lk: seq<Links>, d: int, x: int, y: int)
    requires OpenGrid(width, height, c, lk, d) && 0 <= x < width && 0 <= y < height
    ensures Connected(c, lk, Index(width, x, y))
    decreases if y < d / width then d / width - y else y - d / width
  {
    Decompose(width, height, d);
    var dy := d / width;
    var i := Index(width, x, y);
    Coordinates(width, height, x, y);
    if y == dy {
      RowConnected(width, height, c, lk, d, x);
    } else {
      var y' := if y < dy then y + 1 else y - 1;
      ColumnConnected(width, height, c, lk, d, x, y');
      Coordinates(width, height, x, y');
      RouteExtends(c, lk, Index(width, x, y'), i);
    }
  }

  /** Every tile of an open grid can be reached from its destination. */
  lemma OpenGridAllConnected(width: int, height: int, c: seq<Content>, lk: seq<Links>, d: int)
    requires OpenGrid(width, height, c, lk, d)
    ensures AllConnected(c, lk)
  {
    forall i | 0 <= i < |c|
      ensures Connected(c, lk, i)
    {
      Decompose(width, height, i);
      ColumnConnected(width, height, c, lk, d, i % width, i / width);
    }
  }

  /** The tile reached from `i` after following `next` `k` times, or -1 once
      the path has ended. */
  function Follow(nxt: seq<int>, i: int, k: nat): (r: int)
    requires SuccessorsInRange(nxt) && -1 <= i < |nxt|
    ensures -1 <= r < |nxt|
    ensures i == -1 ==> r == -1
    decreases k
  {
    if k == 0 || i == -1 then i else Follow(nxt, nxt[i], k - 1)
  }

  predicate SuccessorsInRange(nxt: seq<int>)
  {
    forall j :: 0 <= j < |nxt| ==> -1 <= nxt[j] < |nxt|
  }

  /** Following one more step from where `k` steps lead. */
  lemma {:induction false} FollowStep(nxt: seq<int>, i: int, k: nat)
    requires SuccessorsInRange(nxt) && -1 <= i < |nxt|
    ensures Follow(nxt, i, k + 1) == (var t := Follow(nxt, i, k); if t == -1 then -1 else nxt[t])
    decreases k
  {
    if k > 0 && i != -1 {
      FollowStep(nxt, nxt[i], k - 1);
    }
  }

  /** In a consistent path graph the `next` links of a tile with a path lead,
      one distance step at a time, to a destination after exactly `distance`
      steps, and the path ends there. */
  lemma {:induction false} FollowReachesDestination(c: seq<Content>, lk: seq<Links>, dist: seq<int>, nxt: seq<int>, i: int)
    requires SameSize(c, lk, dist, nxt) && PathGraph(c, lk, dist, nxt) && SuccessorsInRange(nxt)
    requires 0 <= i < |c| && 0 <= dist[i]
    ensures forall k: nat :: k <= dist[i] ==> 0 <= Follow(nxt, i, k) < |c| && dist[Follow(nxt, i, k)] == dist[i] - k
    ensures c[Follow(nxt, i, dist[i])] == Destination
    ensures forall k: nat :: dist[i] < k ==> Follow(nxt, i, k) == -1
    decreases dist[i]
  {
    assert TileOk(c, lk, dist, nxt, i);
    if c[i] == Destination {
      forall k: nat | 0 < k
        ensures Follow(nxt, i, k) == -1
      {
        assert Follow(nxt, i, k) == Follow(nxt, -1, k - 1);
      }
    } else {
      var t := nxt[i];
      FollowReachesDestination(c, lk, dist, nxt, t);
      forall k: nat | 0 < k
        ensures Follow(nxt, i, k) == Follow(nxt, t, k - 1)
      {
      }
    }
  }

  /** The same path graph read on every tile: a consistent graph in which
      every `next` link stays on the board. */
  lemma PathGraphSuccessors(c: seq<Content>, lk: seq<Links>, dist: seq<int>, nxt: seq<int>)
    requires SameSize(c, lk, dist, nxt) && PathGraph(c, lk, dist, nxt)
    ensures SuccessorsInRange(nxt)
  {
    forall j | 0 <= j < |nxt|
      ensures -1 <= nxt[j] < |nxt|
    {
      assert TileOk(c, lk, dist, nxt, j);
    }
  }
}
