/** The tile board (`GameBoard`): the grid laid out by `Initialize`, the
    multi-source breadth-first search `FindPaths` that recomputes the path
    graph, and the edits `ToggleWall` and `ToggleDestination` that roll back
    when the search fails. Tiles are indices into the board's arrays. */
module Board {
  import opened Grid
  import opened Paths

  /** Number of frontier entries that are tiles rather than `null`. */
  function NonNull(q: seq<int>): nat
  {
    if q == [] then 0 else (if q[0] != -1 then 1 else 0) + NonNull(q[1..])
  }

  lemma {:induction false} NonNullAppend(q: seq<int>, r: int)
    ensures NonNull(q + [r]) == NonNull(q) + (if r != -1 then 1 else 0)
  {
    if q != [] {
      assert (q + [r])[1..] == q[1..] + [r];
      NonNullAppend(q[1..], r);
    }
  }

  /** The links of tile `j` once `Initialize` has laid out tiles 0 .. k-1:
      every placed tile is joined to the placed tiles west and south of it. */
  ghost function LinksBuilt(width: int, k: int, j: int): Links
    requires 0 < width
  {
    if k <= j then NoLinks
    else Links(north := if j + width < k then j + width else -1,
               south := if width <= j then j - width else -1,
               east := if j % width != width - 1 && j + 1 < k then j + 1 else -1,
               west := if j % width != 0 then j - 1 else -1)
  }

  /** Placing the tile at (x, y) joins it to its west and south neighbours
      and changes no other links. */
  lemma LinksBuiltStep(width: int, x: int, y: int, j: int)
    requires 2 <= width && 0 <= x < width && 0 <= y && 0 <= j
    ensures var i := Index(width, x, y);
      LinksBuilt(width, i + 1, j) ==
        if j == i then
          Links(-1, if 0 < y then i - width else -1, -1, if 0 < x then i - 1 else -1)
        else if 0 < x && j == i - 1 then LinksBuilt(width, i, j).(east := i)
        else if 0 < y && j == i - width then LinksBuilt(width, i, j).(north := i)
        else LinksBuilt(width, i, j)
  {
    var i := Index(width, x, y);
    Coordinates(width, y + 1, x, y);
    if 0 < x {
      Coordinates(width, y + 1, x - 1, y);
    }
    if 0 < y {
      MulAtLeast(y, width);
      assert (y - 1) * width == y * width - width;
      Coordinates(width, y, x, y - 1);
      Coordinates(width, y, width - 1, y - 1);
    } else {
      assert i == x;
    }
  }

  /** Once every tile is placed the links are the grid's. */
  lemma LinksBuiltComplete(width: int, height: int, x: int, y: int)
    requires 2 <= width && 2 <= height && 0 <= x < width && 0 <= y < height
    ensures LinksBuilt(width, width * height, Index(width, x, y)) == GridLinks(width, height, x, y)
  {
    var i := Index(width, x, y);
    Coordinates(width, height, x, y);
    GridLinksByIndex(width, height, i);
  }

  /** A freshly laid out board, empty but for the destination at its
      centre, has a path from every tile. */
  lemma CentredBoardConnected(w: int, h: int, c: seq<Content>, lk: seq<Links>)
    requires 2 <= w && 2 <= h && |c| == w * h && |lk| == |c|
    requires forall j :: 0 <= j < |lk| ==> lk[j] == GridLinks(w, h, j % w, j / w)
    requires forall j :: 0 <= j < |c| ==> c[j] == if j == |c| / 2 then Destination else Empty
    ensures AllConnected(c, lk)
  {
    OpenGridAllConnected(w, h, c, lk, |c| / 2);
  }

  /** `GameTile.MakeEastWestNeighbors`. */
  method MakeEastWestNeighbors(links: array<Links>, east: int, west: int)
    requires 0 <= east < links.Length && 0 <= west < links.Length && east != west
    modifies links
    ensures links[..] == old(links[..])[west := old(links[west]).(east := east)][east := old(links[east]).(west := west)]
  {
    links[west] := links[west].(east := east);
    links[east] := links[east].(west := west);
  }

  /** `GameTile.MakeNorthSouthNeighbors`. */
  method MakeNorthSouthNeighbors(links: array<Links>, north: int, south: int)
    requires 0 <= north < links.Length && 0 <= south < links.Length && north != south
    modifies links
    ensures links[..] == old(links[..])[south := old(links[south]).(north := north)][north := old(links[north]).(south := south)]
  {
    links[south] := links[south].(north := north);
    links[north] := links[north].(south := south);
  }

  /** The parity flag of tile `j`, from its column and row. */
  ghost function ParityAt(width: int, j: int): bool
    requires 0 < width
  {
    (j % width % 2 == 0) != (j / width % 2 == 0)
  }

  /** The nested loops of `Initialize`: tiles are placed row by row, each
      joined to the tile west of it and the tile south of it, given its
      parity flag and empty content. */
  method LayOutTiles(w: int, h: int) returns (cont: array<Content>, lk: array<Links>, alt: array<bool>)
    requires 2 <= w && 2 <= h
    ensures fresh(cont) && fresh(lk) && fresh(alt)
    ensures cont.Length == w * h && lk.Length == w * h && alt.Length == w * h
    ensures forall j :: 0 <= j < w * h ==> lk[j] == LinksBuilt(w, w * h, j)
    ensures forall j :: 0 <= j < w * h ==> alt[j] == ParityAt(w, j)
    ensures forall j :: 0 <= j < w * h ==> cont[j] == Empty
  {
    var n := w * h;
    cont := new Content[n];
    lk := new Links[n](_ => NoLinks);
    alt := new bool[n];
    var i, y := 0, 0;
    while y < h
      invariant 0 <= y <= h && i == Index(w, 0, y) && i <= n
      invariant forall j :: 0 <= j < n ==> lk[j] == LinksBuilt(w, i, j)
      invariant forall j :: 0 <= j < i ==> alt[j] == ParityAt(w, j)
      invariant forall j :: 0 <= j < i ==> cont[j] == Empty
    {
      RowStarts(w, h, y);
      PlaceRow(cont, lk, alt, w, h, y, i);
      i, y := i + w, y + 1;
    }
    assert i == n;
  }

  /** The inner loop of `Initialize`: places the tiles of row `y`, west to
      east. */
  method PlaceRow(cont: array<Content>, lk: array<Links>, alt: array<bool>, w: int, h: int, y: int, start: int)
    requires 2 <= w && 0 <= y < h && start == Index(w, 0, y) && start + w <= w * h
    requires cont.Length == w * h && lk.Length == w * h && alt.Length == w * h
    requires forall j :: 0 <= j < w * h ==> lk[j] == LinksBuilt(w, start, j)
    requires forall j :: 0 <= j < start ==> alt[j] == ParityAt(w, j)
    requires forall j :: 0 <= j < start ==> cont[j] == Empty
    modifies cont, lk, alt
    ensures forall j :: 0 <= j < w * h ==> lk[j] == LinksBuilt(w, start + w, j)
    ensures forall j :: 0 <= j < start + w ==> alt[j] == ParityAt(w, j)
    ensures forall j :: 0 <= j < start + w ==> cont[j] == Empty
  {
    var x, i := 0, start;
    while x < w
      invariant 0 <= x <= w && i == start + x
      invariant forall j :: 0 <= j < w * h ==> lk[j] == LinksBuilt(w, i, j)
      invariant forall j :: 0 <= j < i ==> alt[j] == ParityAt(w, j)
      invariant forall j :: 0 <= j < i ==> cont[j] == Empty
    {
      PlaceTile(cont, lk, alt, w, h, x, y, i);
      x, i := x + 1, i + 1;
    }
  }

  /** One pass of the inner loop of `Initialize`, for tile `i` at (x, y). */
  method PlaceTile(cont: array<Content>, lk: array<Links>, alt: array<bool>, w: int, h: int, x: int, y: int, i: int)
    requires 2 <= w && 0 <= x < w && 0 <= y < h && i == Index(w, x, y)
    requires cont.Length == w * h && lk.Length == w * h && alt.Length == w * h
    requires forall j :: 0 <= j < w * h ==> lk[j] == LinksBuilt(w, i, j)
    modifies cont, lk, alt
    ensures forall j :: 0 <= j < w * h ==> lk[j] == LinksBuilt(w, i + 1, j)
    ensures 0 <= i < w * h
    ensures alt[i] == ParityAt(w, i) && cont[i] == Empty
    ensures forall j :: 0 <= j < w * h && j != i ==> alt[j] == old(alt[j]) && cont[j] == old(cont[j])
  {
    Coordinates(w, h, x, y);
    LinkTile(lk, w, h, x, y);
    alt[i] := x % 2 == 0;
    if y % 2 == 0 {
      alt[i] := !alt[i];
    }
    cont[i] := Empty;
  }

  /** The neighbour wiring of one pass: the tile at (x, y) is joined to the
      tile west of it and to the tile south of it. */
  method LinkTile(lk: array<Links>, w: int, h: int, x: int, y: int)
    requires 2 <= w && 0 <= x < w && 0 <= y < h && lk.Length == w * h
    requires forall j :: 0 <= j < w * h ==> lk[j] == LinksBuilt(w, Index(w, x, y), j)
    modifies lk
    ensures forall j :: 0 <= j < w * h ==> lk[j] == LinksBuilt(w, Index(w, x, y) + 1, j)
  {
    var i := Index(w, x, y);
    IndexOnBoard(w, h, x, y);
    if 0 < x {
      MakeEastWestNeighbors(lk, i, i - 1);
    }
    if 0 < y {
      MakeNorthSouthNeighbors(lk, i, i - w);
    }
    forall j | 0 <= j < w * h
      ensures lk[j] == LinksBuilt(w, i + 1, j)
    {
      LinksBuiltStep(w, x, y, j);
    }
  }

  class GameBoard {
    const width: int
    const height: int
    /** Per-tile state, indexed row-major: the content tag, the path state
        (`distance`, -1 for none, and `next`, -1 for none), the
        neighbour-order parity flag and the neighbour links. */
    const content: array<Content>
    const distance: array<int>
    const next: array<int>
    const alternative: array<bool>
    const links: array<Links>
    /** The reusable search queue; -1 entries are the `null` results of
        growing into a missing, already reached or blocking neighbour. */
    var frontier: seq<int>

    ghost predicate Valid()
      reads links
    {
      && 2 <= width && 2 <= height
      && content.Length == width * height
      && distance.Length == content.Length && next.Length == content.Length
      && alternative.Length == content.Length && links.Length == content.Length
      && distance != next
      && LinksInRange(links[..])
    }

    /** The path state is the one the search yields for the current content:
        a consistent path graph in which exactly the tiles connected to a
        destination have a path. */
    ghost predicate PathsCurrent()
      reads links, content, distance, next
      requires Valid()
    {
      && PathGraph(content[..], links[..], distance[..], next[..])
      && forall j :: 0 <= j < content.Length ==>
           (0 <= distance[j] <==> Connected(content[..], links[..], j))
    }

    ghost predicate FrontierOk()
      reads this, links, content, distance
      requires Valid()
    {
      QueueOk(content[..], distance[..], frontier)
    }

    ghost function Unreached(): set<int>
      reads distance
    {
      UnreachedOf(distance[..])
    }

    /** Lays out a `w` by `h` board: tiles in row-major order, each joined to
        its west and south neighbours as it is placed, with the checkerboard
        parity flag and empty content; then the centre tile is made a
        destination, from which every tile has a path.
        `Game.OnValidate` keeps both dimensions at least 2. */
    constructor Initialize(w: int, h: int)
      requires 2 <= w && 2 <= h
      ensures Valid() && frontier == []
      ensures fresh(content) && fresh(distance) && fresh(next)
      ensures fresh(alternative) && fresh(links)
      ensures width == w && height == h && content.Length == w * h
      ensures forall j :: 0 <= j < content.Length ==>
        links[j] == GridLinks(w, h, j % w, j / w)
      ensures forall j :: 0 <= j < content.Length ==>
        alternative[j] == ((j % w % 2 == 0) != (j / w % 2 == 0))
      ensures forall j :: 0 <= j < content.Length ==>
        content[j] == if j == content.Length / 2 then Destination else Empty
      ensures PathsCurrent()
      ensures AllConnected(content[..], links[..])
      ensures forall j :: 0 <= j < distance.Length ==> 0 <= distance[j]
    {
      var n := w * h;
      var cont, lk, alt := LayOutTiles(w, h);
      forall j | 0 <= j < n
        ensures LinksWithin(lk[j], n)
      {
      }
      width, height := w, h;
      content, links, alternative := cont, lk, alt;
      distance := new int[n](_ => -1);
      next := new int[n](_ => -1);
      frontier := [];
      new;
      forall j | 0 <= j < n
        ensures links[j] == GridLinks(w, h, j % w, j / w)
      {
        Decompose(w, h, j);
        LinksBuiltComplete(w, h, j % w, j / w);
      }
      ToggleDestination(n / 2);
      CentredBoardConnected(w, h, content[..], links[..]);
    }

    /** `GameTile.BecomeDestination`: a root of the search. */
    method BecomeDestination(i: int)
      requires Valid() && 0 <= i < content.Length
      modifies distance, next
      ensures distance[..] == old(distance[..])[i := 0] && next[..] == old(next[..])[i := -1]
    {
      distance[i] := 0;
      next[i] := -1;
    }

    /** `GameTile.clearPath`: no path yet. */
    method ClearPath(i: int)
      requires Valid() && 0 <= i < content.Length
      modifies distance, next
      ensures distance[..] == old(distance[..])[i := -1] && next[..] == old(next[..])[i := -1]
    {
      distance[i] := -1;
      next[i] := -1;
    }

    /** `GameTile.GrowPathTo`, behind `GrowPathNorth` and its siblings: a
        neighbour that exists and has no path yet is given the distance one
        more than tile `t`'s and `t` as its next tile; the neighbour is
        returned for expansion only when it does not block, and -1 (`null`)
        is returned otherwise. */
    method GrowPathTo(t: int, nb: int) returns (r: int)
      requires Valid() && 0 <= t < content.Length && 0 <= distance[t]
      requires -1 <= nb < content.Length
      modifies distance, next
      ensures nb == -1 || 0 <= old(distance[nb]) ==>
        r == -1 && distance[..] == old(distance[..]) && next[..] == old(next[..])
      ensures nb != -1 && old(distance[nb]) < 0 ==>
        && distance[..] == old(distance[..])[nb := old(distance[t]) + 1]
        && next[..] == old(next[..])[nb := t]
        && r == if Blocks(content[nb]) then -1 else nb
    {
      if nb == -1 || 0 <= distance[nb] {
        return -1;
      }
      distance[nb] := distance[t] + 1;
      next[nb] := t;
      r := if Blocks(content[nb]) then -1 else nb;
    }

    /** `searchFrontier.Enqueue(tile.GrowPath…())` for neighbour `nb` of the
        tile `t` being expanded: the search invariants hold again afterwards,
        with `t` still excepted from closure. */
    method EnqueueGrowth(t: int, nb: int)
      requires Valid() && 0 <= t < content.Length && 0 <= distance[t] && !Blocks(content[t])
      requires nb == -1 || IsLink(links[t], nb)
      requires PathGraph(content[..], links[..], distance[..], next[..]) && FrontierOk()
      requires Closed(content[..], links[..], distance[..], frontier, t)
      modifies this, distance, next
      ensures Valid() && FrontierOk()
      ensures PathGraph(content[..], links[..], distance[..], next[..])
      ensures Closed(content[..], links[..], distance[..], frontier, t)
      ensures nb != -1 ==> 0 <= distance[nb]
      ensures forall j :: 0 <= j < distance.Length && 0 <= old(distance[j]) ==> distance[j] == old(distance[j])
      ensures |frontier| == |old(frontier)| + 1 && frontier[..|old(frontier)|] == old(frontier)
      ensures Unreached() < old(Unreached()) ||
        (Unreached() == old(Unreached()) && NonNull(frontier) == NonNull(old(frontier)))
    {
      ghost var c, lk, d0, n0, q0 := content[..], links[..], distance[..], next[..], frontier;
      assert LinksWithin(lk[t], |lk|);
      var r := GrowPathTo(t, nb);
      frontier := frontier + [r];
      NonNullAppend(q0, r);
      assert frontier[..|q0|] == q0;
      GrowKeepsSearch(c, lk, d0, distance[..], q0, t, nb, r);
      if nb != -1 && d0[nb] < 0 {
        GrowKeepsPathGraph(c, lk, d0, n0, t, nb);
      }
    }

    /** The multi-source breadth-first search. Every destination becomes a
        root and every other tile loses its path; if there is no root the
        search fails. Otherwise tiles are taken from the frontier, `null`
        entries skipped, and each tile grows a path into its four neighbours
        in the order its parity flag selects (north, south, east, west or
        west, east, south, north). The search succeeds when every tile ends
        with a path. */
    method FindPaths() returns (ok: bool)
      requires Valid() && frontier == []
      modifies this, distance, next
      ensures Valid() && frontier == []
      ensures PathsCurrent()
      ensures ok <==> AllConnected(content[..], links[..])
      ensures ok <==> HasDestination(content[..]) && forall j :: 0 <= j < distance.Length ==> 0 <= distance[j]
    {
      ResetPaths();
      if |frontier| == 0 {
        NoDestinationNoRoute(content[..], links[..]);
        return false;
      }
      ok := SearchFromRoots();
    }

    /** The search once the roots are queued: drain the frontier, then check
        that every tile has a path. */
    method SearchFromRoots() returns (ok: bool)
      requires Valid() && FrontierOk() && HasDestination(content[..])
      requires PathGraph(content[..], links[..], distance[..], next[..])
      requires Closed(content[..], links[..], distance[..], frontier, -1)
      modifies this, distance, next
      ensures Valid() && frontier == []
      ensures PathsCurrent()
      ensures ok <==> AllConnected(content[..], links[..])
      ensures ok <==> forall j :: 0 <= j < distance.Length ==> 0 <= distance[j]
    {
      DrainFrontier();
      ghost var c, lk, d := content[..], links[..], distance[..];
      PathedIffConnected(c, lk, d, next[..]);
      ok := EveryTileHasPath();
      assert ok <==> forall j :: 0 <= j < |d| ==> 0 <= d[j];
    }

    /** The search loop: tiles are taken from the frontier, `null` entries
        skipped, and each tile is expanded, until the frontier is empty. The
        search is then closed: every passable tile with a path has all its
        neighbours reached. */
    method DrainFrontier()
      requires Valid() && FrontierOk()
      requires PathGraph(content[..], links[..], distance[..], next[..])
      requires Closed(content[..], links[..], distance[..], frontier, -1)
      modifies this, distance, next
      ensures Valid() && frontier == []
      ensures PathGraph(content[..], links[..], distance[..], next[..])
      ensures Closed(content[..], links[..], distance[..], [], -1)
    {
      while |frontier| > 0
        invariant Valid() && FrontierOk()
        invariant PathGraph(content[..], links[..], distance[..], next[..])
        invariant Closed(content[..], links[..], distance[..], frontier, -1)
        decreases Unreached(), NonNull(frontier), |frontier|
      {
        DequeueKeepsSearch(content[..], links[..], distance[..], frontier);
        var t := frontier[0];
        frontier := frontier[1..];
        if t != -1 {
          Expand(t);
        }
      }
    }

    /** Expands tile `t`, just taken from the frontier: it grows a path into
        each of its four neighbours and queues what comes back, in the order
        its parity flag selects (north, south, east, west, or west, east,
        south, north). Afterwards every neighbour of `t` has a path. */
    method Expand(t: int)
      requires Valid() && 0 <= t < content.Length && 0 <= distance[t] && !Blocks(content[t])
      requires PathGraph(content[..], links[..], distance[..], next[..]) && FrontierOk()
      requires Closed(content[..], links[..], distance[..], frontier, t)
      modifies this, distance, next
      ensures Valid() && FrontierOk()
      ensures PathGraph(content[..], links[..], distance[..], next[..])
      ensures Closed(content[..], links[..], distance[..], frontier, -1)
      ensures NeighboursReached(links[t], distance[..])
      ensures Unreached() < old(Unreached()) ||
        (Unreached() == old(Unreached()) && NonNull(frontier) == NonNull(old(frontier)))
    {
      assert LinksWithin(links[t], content.Length);
      var l := links[t];
      if alternative[t] {
        GrowFour(t, l.north, l.south, l.east, l.west);
      } else {
        GrowFour(t, l.west, l.east, l.south, l.north);
      }
    }

    /** Grows tile `t`'s path into four of its neighbours, in the order
        given, queuing each result. */
    method GrowFour(t: int, a: int, b: int, c: int, d: int)
      requires Valid() && 0 <= t < content.Length && 0 <= distance[t] && !Blocks(content[t])
      requires a == -1 || IsLink(links[t], a)
      requires b == -1 || IsLink(links[t], b)
      requires c == -1 || IsLink(links[t], c)
      requires d == -1 || IsLink(links[t], d)
      requires PathGraph(content[..], links[..], distance[..], next[..]) && FrontierOk()
      requires Closed(content[..], links[..], distance[..], frontier, t)
      modifies this, distance, next
      ensures Valid() && FrontierOk()
      ensures PathGraph(content[..], links[..], distance[..], next[..])
      ensures Closed(content[..], links[..], distance[..], frontier, t)
      ensures a != -1 ==> 0 <= distance[a]
      ensures b != -1 ==> 0 <= distance[b]
      ensures c != -1 ==> 0 <= distance[c]
      ensures d != -1 ==> 0 <= distance[d]
      ensures Unreached() < old(Unreached()) ||
        (Unreached() == old(Unreached()) && NonNull(frontier) == NonNull(old(frontier)))
    {
      EnqueueGrowth(t, a);
      EnqueueGrowth(t, b);
      EnqueueGrowth(t, c);
      EnqueueGrowth(t, d);
    }

    /** The reset phase of the search: every destination becomes a root and
        is queued, in board order; every other tile loses its path. */
    method ResetPaths()
      requires Valid() && frontier == []
      modifies this, distance, next
      ensures Valid()
      ensures forall j :: 0 <= j < content.Length ==>
        next[j] == -1 && distance[j] == if content[j] == Destination then 0 else -1
      ensures forall k :: 0 <= k < |frontier| ==> 0 <= frontier[k] < content.Length && content[frontier[k]] == Destination
      ensures forall j :: 0 <= j < content.Length && content[j] == Destination ==> j in frontier
      ensures PathGraph(content[..], links[..], distance[..], next[..])
      ensures FrontierOk() && Closed(content[..], links[..], distance[..], frontier, -1)
      ensures HasDestination(content[..]) <==> frontier != []
    {
      var i := 0;
      while i < content.Length
        invariant 0 <= i <= content.Length && Valid()
        invariant forall j :: 0 <= j < i ==>
          next[j] == -1 && distance[j] == if content[j] == Destination then 0 else -1
        invariant forall k :: 0 <= k < |frontier| ==> 0 <= frontier[k] < i && content[frontier[k]] == Destination
        invariant forall j :: 0 <= j < i && content[j] == Destination ==> j in frontier
      {
        if content[i] == Destination {
          BecomeDestination(i);
          frontier := frontier + [i];
        } else {
          ClearPath(i);
        }
        i := i + 1;
      }
      forall j | 0 <= j < content.Length
        ensures TileOk(content[..], links[..], distance[..], next[..], j)
      {
      }
      if frontier != [] {
        assert content[frontier[0]] == Destination;
      }
    }

    /** The final phase of the search: whether every tile has a path. */
    method EveryTileHasPath() returns (ok: bool)
      requires Valid()
      ensures ok <==> forall j :: 0 <= j < distance.Length ==> 0 <= distance[j]
    {
      var i := 0;
      while i < distance.Length
        invariant 0 <= i <= distance.Length
        invariant forall j :: 0 <= j < i ==> 0 <= distance[j]
      {
        if distance[i] < 0 {
          return false;
        }
        i := i + 1;
      }
      return true;
    }

    /** Flips a wall to empty, or an empty tile to a wall that is kept only
        when every tile still has a path; other content is left alone. The
        search runs after every change. */
    method ToggleWall(tile: int)
      requires Valid() && frontier == [] && 0 <= tile < content.Length
      modifies this, content, distance, next
      ensures Valid() && frontier == []
      ensures old(content[tile]) == Wall ==> content[tile] == Empty
      ensures old(content[tile]) == Empty ==>
        content[tile] == if AllConnected(old(content[..])[tile := Wall], links[..]) then Wall else Empty
      ensures old(content[tile]) == Destination || old(content[tile]) == SpawnPoint ==>
        content[tile] == old(content[tile]) && unchanged(distance, next)
      ensures forall j :: 0 <= j < content.Length && j != tile ==> content[j] == old(content[j])
      ensures old(content[tile]) == Wall || old(content[tile]) == Empty ==> PathsCurrent()
      ensures old(PathsCurrent()) ==> PathsCurrent()
      ensures AllConnected(old(content[..]), links[..]) ==> AllConnected(content[..], links[..])
    {
      if content[tile] == Wall {
        content[tile] := Empty;
        var found := FindPaths();
        RoutesSurviveRelaxing(old(content[..]), content[..], links[..]);
      } else if content[tile] == Empty {
        content[tile] := Wall;
        var found := FindPaths();
        if !found {
          content[tile] := Empty;
          assert content[..] == old(content[..]);
          found := FindPaths();
        }
      }
    }

    /** Flips an empty tile to a destination, or a destination to empty only
        when every tile still has a path; other content is left alone. The
        search runs after every change. */
    method ToggleDestination(tile: int)
      requires Valid() && frontier == [] && 0 <= tile < content.Length
      modifies this, content, distance, next
      ensures Valid() && frontier == []
      ensures old(content[tile]) == Empty ==> content[tile] == Destination
      ensures old(content[tile]) == Destination ==>
        content[tile] == if AllConnected(old(content[..])[tile := Empty], links[..]) then Empty else Destination
      ensures old(content[tile]) == Wall || old(content[tile]) == SpawnPoint ==>
        content[tile] == old(content[tile]) && unchanged(distance, next)
      ensures forall j :: 0 <= j < content.Length && j != tile ==> content[j] == old(content[j])
      ensures old(content[tile]) == Destination || old(content[tile]) == Empty ==> PathsCurrent()
      ensures old(PathsCurrent()) ==> PathsCurrent()
      ensures AllConnected(old(content[..]), links[..]) ==> AllConnected(content[..], links[..])
      ensures (old(content[tile]) == Destination &&
               forall j :: 0 <= j < content.Length && j != tile ==> old(content[j]) != Destination) ==>
        content[tile] == Destination
    {
      if content[tile] == Destination {
        content[tile] := Empty;
        var found := FindPaths();
        if !found {
          content[tile] := Destination;
          assert content[..] == old(content[..]);
          found := FindPaths();
        }
      } else if content[tile] == Empty {
        content[tile] := Destination;
        var found := FindPaths();
        RoutesSurviveRelaxing(old(content[..]), content[..], links[..]);
      }
    }
  }

  /** One growth step keeps the path graph consistent: the newly reached
      neighbour points back at the expanded tile, one step further away. */
  lemma GrowKeepsPathGraph(c: seq<Content>, lk: seq<Links>, dist: seq<int>, nxt: seq<int>, t: int, nb: int)
    requires SameSize(c, lk, dist, nxt) && PathGraph(c, lk, dist, nxt)
    requires 0 <= t < |c| && 0 <= dist[t] && !Blocks(c[t])
    requires 0 <= nb < |c| && dist[nb] < 0 && IsLink(lk[t], nb)
    ensures PathGraph(c, lk, dist[nb := dist[t] + 1], nxt[nb := t])
  {
    var dist', nxt' := dist[nb := dist[t] + 1], nxt[nb := t];
    forall j | 0 <= j < |c|
      ensures TileOk(c, lk, dist', nxt', j)
    {
      assert TileOk(c, lk, dist, nxt, j);
      assert TileOk(c, lk, dist, nxt, nb);
    }
  }

  /** Every queue entry is `null` or a passable tile with a path. */
  ghost predicate QueueOk(c: seq<Content>, dist: seq<int>, q: seq<int>)
    requires |dist| == |c|
  {
    forall k :: 0 <= k < |q| ==>
      q[k] == -1 || (0 <= q[k] < |c| && 0 <= dist[q[k]] && !Blocks(c[q[k]]))
  }

  /** The tiles the search has not reached yet. */
  ghost function UnreachedOf(dist: seq<int>): set<int>
  {
    set j | 0 <= j < |dist| && dist[j] < 0
  }

  /** One growth step keeps the search closed apart from the tile being
      expanded and keeps the queue valid: a newly reached tile that does not
      block is queued, and reached tiles stay reached. It reaches the
      neighbour and either reaches a new tile or queues `null`. */
  lemma GrowKeepsSearch(c: seq<Content>, lk: seq<Links>, d0: seq<int>, d1: seq<int>, q: seq<int>, t: int, nb: int, r: int)
    requires |lk| == |c| && |d0| == |c| && |d1| == |c|
    requires 0 <= t < |c| && 0 <= d0[t]
    requires -1 <= nb < |c|
    requires Closed(c, lk, d0, q, t) && QueueOk(c, d0, q)
    requires nb == -1 || 0 <= d0[nb] ==> d1 == d0 && r == -1
    requires nb != -1 && d0[nb] < 0 ==>
      d1 == d0[nb := d0[t] + 1] && r == if Blocks(c[nb]) then -1 else nb
    ensures Closed(c, lk, d1, q + [r], t) && QueueOk(c, d1, q + [r])
    ensures nb != -1 ==> 0 <= d1[nb]
    ensures UnreachedOf(d1) < UnreachedOf(d0) || (UnreachedOf(d1) == UnreachedOf(d0) && r == -1)
  {
    forall i | 0 <= i < |c| && 0 <= d1[i] && !Blocks(c[i]) && i != t
      ensures i in q + [r] || NeighboursReached(lk[i], d1)
    {
      if i != nb || 0 <= d0[i] {
        assert 0 <= d0[i];
        assert i in q || NeighboursReached(lk[i], d0);
      }
    }
    forall k | 0 <= k < |q + [r]|
      ensures (q + [r])[k] == -1 || (0 <= (q + [r])[k] < |c| && 0 <= d1[(q + [r])[k]] && !Blocks(c[(q + [r])[k]]))
    {
      if k < |q| {
        assert (q + [r])[k] == q[k];
      }
    }
    if nb != -1 && d0[nb] < 0 {
      assert nb in UnreachedOf(d0) && nb !in UnreachedOf(d1);
      assert UnreachedOf(d1) == UnreachedOf(d0) - {nb};
    }
  }

  /** Taking the head off the queue: the rest of the queue is valid, the
      search is closed apart from the head, and one tile fewer is queued
      when the head is a tile. */
  lemma DequeueKeepsSearch(c: seq<Content>, lk: seq<Links>, dist: seq<int>, q: seq<int>)
    requires |lk| == |c| && |dist| == |c| && q != []
    requires Closed(c, lk, dist, q, -1) && QueueOk(c, dist, q)
    ensures Closed(c, lk, dist, q[1..], q[0]) && QueueOk(c, dist, q[1..])
    ensures q[0] != -1 ==> 0 <= q[0] < |c| && 0 <= dist[q[0]] && !Blocks(c[q[0]])
    ensures NonNull(q[1..]) + (if q[0] != -1 then 1 else 0) == NonNull(q)
  {
    forall i | 0 <= i < |c| && 0 <= dist[i] && !Blocks(c[i]) && i != q[0]
      ensures i in q[1..] || NeighboursReached(lk[i], dist)
    {
      if i in q {
        var k :| 0 <= k < |q| && q[k] == i;
        assert q[1..][k - 1] == i;
      }
    }
    forall k | 0 <= k < |q[1..]|
      ensures q[1..][k] == -1 || (0 <= q[1..][k] < |c| && 0 <= dist[q[1..][k]] && !Blocks(c[q[1..][k]]))
    {
      assert q[1..][k] == q[k + 1];
    }
  }
}
