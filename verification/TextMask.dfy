/** From link and text scores to a label image: joins linked text pixels, then
    numbers the clusters in raster order. */
module TextMask {
  import opened Connectivity
  import opened LinkClustering
  import Arithmetic

  /** The thresholded scores of an image. Pixel i has `links` link flags from i * links on;
      the first eight belong to its neighbours in raster order. */
  datatype Grid = Grid(width: nat, height: nat, links: nat, text: seq<bool>, conn: seq<bool>)

  ghost predicate ValidGrid(g: Grid) {
    |g.text| == g.height * g.width && g.links >= 8 && |g.conn| >= |g.text| * g.links
  }

  /** The link flag of the t-th cell of the 3 by 3 neighbourhood, the centre having none. */
  function FlagIndex(t: nat): nat {
    if t <= 4 then t else t - 1
  }

  lemma CellInside(x: int, y: int, width: nat, height: nat)
    requires 0 <= x < width && 0 <= y < height
    ensures 0 <= x + y * width < height * width
    ensures (x + y * width) % width == x && (x + y * width) / width == y
  {
    Arithmetic.NonNegative(y, width);
    Arithmetic.NonNegative(height - 1 - y, width);
    assert (height - 1 - y) * width == height * width - width - y * width;
    Arithmetic.DivModUnique(x + y * width, y, x, width);
  }

  lemma FlagInside(p: nat, n: nat, links: nat, k: nat)
    requires p < n && k < links
    ensures 0 <= p * links + k < n * links
  {
    Arithmetic.NonNegative(p, links);
    Arithmetic.NonNegative(n - 1 - p, links);
    assert (n - 1 - p) * links == n * links - links - p * links;
  }

  /** The t-th neighbour of `p`, counted in raster order through the 3 by 3 cells around it. */
  ghost predicate NeighbourAt(g: Grid, p: nat, t: nat, q: int)
    requires g.width > 0
  {
    var x, y := p % g.width + t % 3 - 1, p / g.width + t / 3 - 1;
    t < 9 && t != 4 && 0 <= x < g.width && 0 <= y < g.height && q == x + y * g.width
  }

  /** Text pixel `p` holds a link to text pixel `q`, its t-th neighbour. */
  ghost predicate LinkedAt(g: Grid, p: nat, t: nat, q: int)
    requires ValidGrid(g) && p < |g.text|
  {
    && g.width > 0 && NeighbourAt(g, p, t, q)
    && 0 <= q < |g.text| && p * g.links + FlagIndex(t) < |g.conn|
    && g.text[p] && g.text[q] && g.conn[p * g.links + FlagIndex(t)]
  }

  ghost predicate LinkedBefore(g: Grid, p: nat, t: nat, q: int)
    requires ValidGrid(g) && p < |g.text|
  {
    exists s: nat :: s < t && LinkedAt(g, p, s, q)
  }

  /** All links of the image. */
  ghost predicate AllLinks(g: Grid, e: Edges)
    requires ValidGrid(g)
  {
    forall a, b :: (a, b) in e <==> 0 <= a < |g.text| && LinkedBefore(g, a, 9, b)
  }

  /** The links of the pixels listed, in full, and those of `p` to its first `t` cells. */
  ghost predicate LinksSoFar(g: Grid, done: seq<int>, p: int, t: nat, e: Edges)
    requires ValidGrid(g)
  {
    forall a, b :: (a, b) in e <==>
      0 <= a < |g.text| && ((a in done && LinkedBefore(g, a, 9, b)) || (a == p && LinkedBefore(g, a, t, b)))
  }

  lemma NextCell(g: Grid, done: seq<int>, p: nat, t: nat, e: Edges, e': Edges)
    requires ValidGrid(g) && p < |g.text| && LinksSoFar(g, done, p, t, e) && p !in done
    requires forall a, b :: (a, b) in e' <==> (a, b) in e || (a == p && LinkedAt(g, p, t, b))
    ensures LinksSoFar(g, done, p, t + 1, e')
  {
    forall b ensures LinkedBefore(g, p, t + 1, b) <==> LinkedBefore(g, p, t, b) || LinkedAt(g, p, t, b) {
    }
  }

  /** Joins one text pixel with every neighbour it is linked to. */
  method JoinNeighbours(forest: PixelForest, g: Grid, px: nat, py: nat, ghost done: seq<int>, ghost e: Edges)
    returns (ghost e': Edges)
    requires ValidGrid(g) && px < g.width && py < g.height
    requires forest.Valid() && Partitions(forest.roots, e)
    requires forall k :: k in forest.roots <==> 0 <= k < |g.text| && g.text[k]
    requires 0 <= px + py * g.width < |g.text| && g.text[px + py * g.width] && px + py * g.width !in done
    requires LinksSoFar(g, done, px + py * g.width, 0, e)
    modifies forest
    ensures forest.Valid() && Partitions(forest.roots, e') && forest.roots.Keys == old(forest.roots).Keys
    ensures LinksSoFar(g, done, px + py * g.width, 9, e') && PixelLinks(g, px, py, e')
  {
    var p := px + py * g.width;
    e' := e;
    CellInside(px, py, g.width, g.height);
    var np := 0;
    for dy := 0 to 3
      invariant forest.Valid() && Partitions(forest.roots, e') && forest.roots.Keys == old(forest.roots).Keys
      invariant LinksSoFar(g, done, p, dy * 3, e')
      invariant np == FlagIndex(dy * 3)
    {
      for dx := 0 to 3
        invariant forest.Valid() && Partitions(forest.roots, e') && forest.roots.Keys == old(forest.roots).Keys
        invariant LinksSoFar(g, done, p, dy * 3 + dx, e')
        invariant np == FlagIndex(dy * 3 + dx)
      {
        var y, x := py - 1 + dy, px - 1 + dx;
        e' := VisitCell(forest, g, px, py, x, y, np, done, e', dy * 3 + dx);
        if !(x == px && y == py) { np := np + 1; }
      }
    }
    LinksOfPixel(g, px, py, done, e');
  }

  /** One cell of the neighbourhood: skipped when it is the pixel itself or outside
      the image, joined when both pixels are text and the link flag is set. */
  method VisitCell(forest: PixelForest, g: Grid, px: nat, py: nat, x: int, y: int, np: nat, ghost done: seq<int>,
                   ghost e: Edges, ghost t: nat)
    returns (ghost e': Edges)
    requires ValidGrid(g) && px < g.width && py < g.height
    requires forest.Valid() && Partitions(forest.roots, e)
    requires forall k :: k in forest.roots <==> 0 <= k < |g.text| && g.text[k]
    requires 0 <= px + py * g.width < |g.text| && g.text[px + py * g.width] && px + py * g.width !in done
    requires t < 9 && x == px + t % 3 - 1 && y == py + t / 3 - 1 && np == FlagIndex(t)
    requires LinksSoFar(g, done, px + py * g.width, t, e)
    modifies forest
    ensures forest.Valid() && Partitions(forest.roots, e') && forest.roots.Keys == old(forest.roots).Keys
    ensures LinksSoFar(g, done, px + py * g.width, t + 1, e')
  {
    var p := px + py * g.width;
    CellInside(px, py, g.width, g.height);
    e' := e;
    if !(x == px && y == py) && 0 <= x < g.width && 0 <= y < g.height {
      CellInside(x, y, g.width, g.height);
      FlagInside(p, |g.text|, g.links, np);
      var q := x + y * g.width;
      if g.text[q] && g.conn[p * g.links + np] {
        ghost var before := forest.roots;
        forest.Join(p, q);
        MergePartitions(before, forest.roots, e, p, q);
        e' := e + {(p, q)};
      }
    }
    CellIsLinked(g, px, py, t);
    NextCell(g, done, p, t, e, e');
  }

  /** The link of a pixel to the cell at an offset, in terms of its column and row. */
  lemma CellIsLinked(g: Grid, px: nat, py: nat, t: nat)
    requires ValidGrid(g) && px < g.width && py < g.height && t < 9
    requires px + py * g.width < |g.text| && g.text[px + py * g.width]
    ensures var p, x, y := px + py * g.width, px + t % 3 - 1, py + t / 3 - 1;
            && 0 <= p * g.links + FlagIndex(t) < |g.conn|
            && forall b :: LinkedAt(g, p, t, b) <==> LinkedCell(g, p, t, x, y, b)
  {
    var p, x, y := px + py * g.width, px + t % 3 - 1, py + t / 3 - 1;
    CellInside(px, py, g.width, g.height);
    FlagInside(p, |g.text|, g.links, FlagIndex(t));
    forall b ensures LinkedAt(g, p, t, b) <==> LinkedCell(g, p, t, x, y, b) {
      LinkedAtCell(g, p, t, x, y, b);
    }
  }

  /** The t-th cell around `p` is the one in column `x` and row `y`. */
  ghost predicate LinkedCell(g: Grid, p: nat, t: nat, x: int, y: int, b: int)
    requires ValidGrid(g) && p < |g.text|
  {
    && t < 9 && t != 4 && 0 <= x < g.width && 0 <= y < g.height && b == x + y * g.width
    && 0 <= b < |g.text| && p * g.links + FlagIndex(t) < |g.conn|
    && g.text[p] && g.text[b] && g.conn[p * g.links + FlagIndex(t)]
  }

  lemma LinkedAtCell(g: Grid, p: nat, t: nat, x: int, y: int, b: int)
    requires ValidGrid(g) && p < |g.text| && g.width > 0
    requires x == p % g.width + t % 3 - 1 && y == p / g.width + t / 3 - 1
    ensures LinkedAt(g, p, t, b) <==> LinkedCell(g, p, t, x, y, b)
  {
  }

  // ---------------------------------------------------------------------------
  // Whose flag is whose
  // ---------------------------------------------------------------------------

  /** The neighbours met before the one at this offset, row by row from the top left. */
  ghost function MetBefore(dx: int, dy: int): set<(int, int)> {
    set ex, ey | -1 <= ex <= 1 && -1 <= ey <= 1 && (ex, ey) != (0, 0) && (ey < dy || (ey == dy && ex < dx)) :: (ex, ey)
  }

  ghost predicate IsOffset(dx: int, dy: int) {
    -1 <= dx <= 1 && -1 <= dy <= 1 && (dx, dy) != (0, 0)
  }

  /** The cell at this offset from (x, y) is inside the image. */
  ghost predicate HasNeighbour(g: Grid, x: int, y: int, dx: int, dy: int) {
    0 <= x < g.width && 0 <= y < g.height && IsOffset(dx, dy) && 0 <= x + dx < g.width && 0 <= y + dy < g.height
  }

  /** Text pixel (x, y) holds a link to the text pixel at this offset: the flag that says so is the one
      after as many flags as there are neighbours met before. */
  ghost predicate HoldsLink(g: Grid, x: int, y: int, dx: int, dy: int) {
    var p, q := x + y * g.width, x + dx + (y + dy) * g.width;
    var flag := p * g.links + |MetBefore(dx, dy)|;
    && 0 <= p < |g.text| && 0 <= q < |g.text| && 0 <= flag < |g.conn|
    && g.text[p] && g.text[q] && g.conn[flag]
  }

  /** The links of one pixel are those it holds to its neighbours. */
  ghost predicate PixelLinks(g: Grid, x: int, y: int, e: Edges) {
    forall dx, dy :: HasNeighbour(g, x, y, dx, dy) ==>
      ((x + y * g.width, x + dx + (y + dy) * g.width) in e <==> HoldsLink(g, x, y, dx, dy))
  }

  ghost predicate JoinsNeighbours(g: Grid, a: int, b: int) {
    exists x, y, dx, dy :: HasNeighbour(g, x, y, dx, dy) && a == x + y * g.width && b == x + dx + (y + dy) * g.width
  }

  /** The links of the image: of neighbours only, and all that are held. */
  ghost predicate NeighbourLinks(g: Grid, e: Edges) {
    && (forall x, y :: 0 <= x < g.width && 0 <= y < g.height ==> PixelLinks(g, x, y, e))
    && (forall a, b :: (a, b) in e ==> JoinsNeighbours(g, a, b))
  }

  lemma MetBeforeCounts(dx: int, dy: int)
    requires IsOffset(dx, dy)
    ensures |MetBefore(dx, dy)| == FlagIndex(3 * (dy + 1) + dx + 1)
  {
    FirstCellsCount(dy + 1, dx + 1);
    assert MetBefore(dx, dy) == FirstCells(3 * (dy + 1) + dx + 1);
  }

  /** The neighbours among the first `t` cells of the square. */
  ghost function FirstCells(t: nat): set<(int, int)> {
    set ex, ey | -1 <= ex <= 1 && -1 <= ey <= 1 && (ex, ey) != (0, 0) && 3 * (ey + 1) + ex + 1 < t :: (ex, ey)
  }

  /** The t-th cell is the one in row `t / 3` and column `t % 3`. */
  lemma {:induction false} FirstCellsCount(row: nat, column: nat)
    requires row < 3 && column < 3
    ensures |FirstCells(3 * row + column)| == FlagIndex(3 * row + column)
  {
    if column > 0 {
      FirstCellsCount(row, column - 1);
      NextCellAdded(row, column - 1);
    } else if row > 0 {
      FirstCellsCount(row - 1, 2);
      NextCellAdded(row - 1, 2);
    } else {
      assert FirstCells(0) == {};
    }
  }

  lemma NextCellAdded(row: nat, column: nat)
    requires row < 3 && column < 3
    ensures |FirstCells(3 * row + column + 1)|
         == |FirstCells(3 * row + column)| + if row == 1 && column == 1 then 0 else 1
  {
    var t := 3 * row + column;
    var before, after, cell := FirstCells(t), FirstCells(t + 1), (column - 1, row - 1);
    forall ex, ey ensures (ex, ey) in after <==> (ex, ey) in before || ((ex, ey) == cell && cell != (0, 0)) {
      CellNumbered(ex, ey, row, column);
    }
    assert after == before + if cell == (0, 0) then {} else {cell};
  }

  lemma CellNumbered(ex: int, ey: int, row: nat, column: nat)
    requires row < 3 && column < 3
    ensures -1 <= ex <= 1 && 3 * (ey + 1) + ex + 1 == 3 * row + column <==> ex == column - 1 && ey == row - 1
  {
  }

  /** The number of the cell at an offset, and back. */
  lemma LinkOfCell(g: Grid, x: nat, y: nat, dx: int, dy: int)
    requires ValidGrid(g) && HasNeighbour(g, x, y, dx, dy)
    ensures 0 <= x + y * g.width < |g.text|
    ensures LinkedBefore(g, x + y * g.width, 9, x + dx + (y + dy) * g.width) <==> HoldsLink(g, x, y, dx, dy)
  {
    var p, q, t := x + y * g.width, x + dx + (y + dy) * g.width, 3 * (dy + 1) + dx + 1;
    CellInside(x, y, g.width, g.height);
    CellInside(x + dx, y + dy, g.width, g.height);
    FlagInside(p, |g.text|, g.links, FlagIndex(t));
    MetBeforeCounts(dx, dy);
    assert t % 3 == dx + 1 && t / 3 == dy + 1;
    assert NeighbourAt(g, p, t, q);
    assert LinkedAt(g, p, t, q) <==> HoldsLink(g, x, y, dx, dy);
    forall s: nat | s < 9 && LinkedAt(g, p, s, q) ensures s == t {
      CellInside(x + s % 3 - 1, y + s / 3 - 1, g.width, g.height);
    }
  }

  lemma LinksOfPixel(g: Grid, x: nat, y: nat, done: seq<int>, e: Edges)
    requires ValidGrid(g) && x < g.width && y < g.height
    requires x + y * g.width !in done && LinksSoFar(g, done, x + y * g.width, 9, e)
    ensures PixelLinks(g, x, y, e)
  {
    forall dx, dy | HasNeighbour(g, x, y, dx, dy)
      ensures (x + y * g.width, x + dx + (y + dy) * g.width) in e <==> HoldsLink(g, x, y, dx, dy)
    {
      LinkOfCell(g, x, y, dx, dy);
    }
  }

  lemma LinksOfImage(g: Grid, e: Edges)
    requires ValidGrid(g) && AllLinks(g, e)
    ensures NeighbourLinks(g, e)
  {
    forall x, y | 0 <= x < g.width && 0 <= y < g.height ensures PixelLinks(g, x, y, e) {
      forall dx, dy | HasNeighbour(g, x, y, dx, dy)
        ensures (x + y * g.width, x + dx + (y + dy) * g.width) in e <==> HoldsLink(g, x, y, dx, dy)
      {
        LinkOfCell(g, x, y, dx, dy);
      }
    }
    forall a, b | (a, b) in e ensures JoinsNeighbours(g, a, b) {
      var t: nat :| t < 9 && LinkedAt(g, a, t, b);
      var x, y, dx, dy := a % g.width, a / g.width, t % 3 - 1, t / 3 - 1;
      QuotientInside(a, g.height, g.width);
      assert HasNeighbour(g, x, y, dx, dy) && a == x + y * g.width && b == x + dx + (y + dy) * g.width;
    }
  }

  lemma QuotientInside(n: nat, height: nat, width: nat)
    requires width > 0 && n < height * width
    ensures n / width < height && n == n % width + n / width * width
  {
    assert n == n / width * width + n % width;
    RowInside(n % width, n / width, width, height, n);
  }

  // ---------------------------------------------------------------------------
  // Labelling
  // ---------------------------------------------------------------------------

  datatype Point = Point(x: nat, y: nat)

  /** `ps` lists the text pixels in raster order; `index` holds their indices. */
  ghost predicate TextPixels(width: nat, text: seq<bool>, ps: seq<Point>, index: seq<int>) {
    && |ps| == |index|
    && (forall i :: 0 <= i < |ps| ==>
        ps[i].x < width && 0 <= index[i] < |text| && text[index[i]] && index[i] == ps[i].x + ps[i].y * width)
    && (forall i, j :: 0 <= i < j < |index| ==> index[i] < index[j])
    && (forall k :: 0 <= k < |text| && text[k] ==> k in index)
  }

  /** Some text pixel before `i` has label `l`. */
  ghost predicate LabelBefore(text: seq<bool>, mask: seq<int>, i: int, l: int)
    requires |mask| == |text| && i <= |text|
  {
    exists j :: 0 <= j < i && text[j] && mask[j] == l
  }

  /** Labels agree exactly on joined text pixels, are numbered from 1 without gaps in
      the raster order of their first pixel, and background is 0. */
  ghost predicate Labelling(text: seq<bool>, e: Edges, mask: seq<int>, count: nat) {
    && |mask| == |text|
    && (forall i :: 0 <= i < |text| && !text[i] ==> mask[i] == 0)
    && (forall i :: 0 <= i < |text| && text[i] ==> 1 <= mask[i] <= count)
    && (forall i, j :: 0 <= i < |text| && 0 <= j < |text| && text[i] && text[j] ==>
        (mask[i] == mask[j] <==> Connected(e, i, j)))
    && (forall i, l :: 0 <= i < |text| && text[i] && 1 <= l < mask[i] ==> LabelBefore(text, mask, i, l))
    && (forall l :: 1 <= l <= count ==> LabelBefore(text, mask, |text|, l))
  }

  /** The conditions leave no freedom: a link relation has exactly one labelling. */
  lemma LabellingIsUnique(text: seq<bool>, e: Edges, mask: seq<int>, count: nat, mask': seq<int>, count': nat)
    requires Labelling(text, e, mask, count) && Labelling(text, e, mask', count')
    ensures mask == mask' && count == count'
  {
    LabellingAgreesUpTo(text, e, mask, count, mask', count', |text|);
    assert count < count' ==> LabelBefore(text, mask', |text|, count + 1);
    assert count' < count ==> LabelBefore(text, mask, |text|, count' + 1);
  }

  lemma {:induction false} LabellingAgreesUpTo(text: seq<bool>, e: Edges, mask: seq<int>, count: nat, mask': seq<int>,
                                               count': nat, n: nat)
    requires Labelling(text, e, mask, count) && Labelling(text, e, mask', count') && n <= |text|
    ensures forall i :: 0 <= i < n ==> mask[i] == mask'[i]
  {
    if n > 0 {
      LabellingAgreesUpTo(text, e, mask, count, mask', count', n - 1);
      if text[n - 1] {
        NotSmaller(text, e, mask, count, mask', count', n - 1);
        NotSmaller(text, e, mask', count', mask, count, n - 1);
      }
    }
  }

  /** If two labellings agree before pixel `i`, the first is not smaller there. */
  lemma NotSmaller(text: seq<bool>, e: Edges, mask: seq<int>, count: nat, mask': seq<int>, count': nat, i: nat)
    requires Labelling(text, e, mask, count) && Labelling(text, e, mask', count')
    requires i < |text| && text[i] && forall j :: 0 <= j < i ==> mask[j] == mask'[j]
    ensures mask[i] >= mask'[i]
  {
    assert mask[i] < mask'[i] ==> LabelBefore(text, mask', i, mask[i]);
  }

  ghost predicate Seen(labels: seq<int>, i: int, l: int)
    requires i <= |labels|
  {
    exists j :: 0 <= j < i && labels[j] == l
  }

  /** Roots have distinct labels from 1 to their number. */
  ghost predicate Numbered(rootLabels: map<int, int>) {
    && (forall r :: r in rootLabels ==> 1 <= rootLabels[r] <= |rootLabels|)
    && (forall r, s :: r in rootLabels && s in rootLabels && rootLabels[r] == rootLabels[s] ==> r == s)
  }

  /** Labels appear in order, each no later than any greater one. */
  ghost predicate Ordered(labels: seq<int>, count: nat) {
    && (forall i, l :: 0 <= i < |labels| && 1 <= l < labels[i] ==> Seen(labels, i, l))
    && (forall l :: 1 <= l <= count ==> Seen(labels, |labels|, l))
  }

  lemma NumberNext(rootLabels: map<int, int>, r: int)
    requires Numbered(rootLabels) && r !in rootLabels
    ensures Numbered(rootLabels[r := |rootLabels| + 1]) && |rootLabels[r := |rootLabels| + 1]| == |rootLabels| + 1
  {
    var more := rootLabels[r := |rootLabels| + 1];
    assert more.Keys == rootLabels.Keys + {r};
    assert |more| == |more.Keys| == |rootLabels| + 1;
  }

  lemma OrderNext(labels: seq<int>, count: nat, number: int)
    requires Ordered(labels, count) && 1 <= number <= count + 1
    ensures Ordered(labels + [number], if number == count + 1 then count + 1 else count)
  {
    var more := labels + [number];
    forall i, l | 0 <= i < |more| && 1 <= l < more[i] ensures Seen(more, i, l) {
      if i < |labels| {
        assert Seen(labels, i, l);
        var j :| 0 <= j < i && labels[j] == l;
        assert more[j] == l;
      } else {
        assert Seen(labels, |labels|, l);
        var j :| 0 <= j < |labels| && labels[j] == l;
        assert more[j] == l;
      }
    }
    forall l | 1 <= l <= (if number == count + 1 then count + 1 else count) ensures Seen(more, |more|, l) {
      if l <= count {
        assert Seen(labels, |labels|, l);
        var j :| 0 <= j < |labels| && labels[j] == l;
        assert more[j] == l;
      } else {
        assert more[|labels|] == l;
      }
    }
  }

  /** The label of a root: the one it has, or the next free one. */
  method LabelOf(rootLabels: map<int, int>, r: int) returns (rootLabels': map<int, int>, number: int)
    requires Numbered(rootLabels)
    ensures Numbered(rootLabels') && r in rootLabels' && number == rootLabels'[r]
    ensures rootLabels' == if r in rootLabels then rootLabels else rootLabels[r := |rootLabels| + 1]
    ensures 1 <= number <= |rootLabels| + 1
    ensures |rootLabels'| == if number == |rootLabels| + 1 then |rootLabels| + 1 else |rootLabels|
  {
    rootLabels' := rootLabels;
    if r !in rootLabels {
      NumberNext(rootLabels, r);
      rootLabels' := rootLabels[r := |rootLabels| + 1];
    }
    number := rootLabels'[r];
  }

  /** Labels every listed text pixel by its root. */
  method LabelPixels(forest: PixelForest, width: nat, ps: seq<Point>, mask: array<int>, ghost index: seq<int>)
    returns (rootLabels: map<int, int>, ghost labels: seq<int>)
    requires forest.Valid() && |ps| == |index|
    requires forall i :: 0 <= i < |ps| ==>
               index[i] == ps[i].x + ps[i].y * width && index[i] in forest.roots && 0 <= index[i] < mask.Length
    requires forall i, j :: 0 <= i < j < |index| ==> index[i] < index[j]
    modifies forest, mask
    ensures forest.Valid() && forest.roots == old(forest.roots)
    ensures |labels| == |index| && Numbered(rootLabels) && Ordered(labels, |rootLabels|)
    ensures forall i :: 0 <= i < |index| ==>
              forest.roots[index[i]] in rootLabels && labels[i] == rootLabels[forest.roots[index[i]]]
    ensures forall i :: 0 <= i < |index| ==> mask[index[i]] == labels[i]
    ensures forall p :: 0 <= p < mask.Length && p !in index ==> mask[p] == old(mask[p])
  {
    rootLabels, labels := map[], [];
    ghost var roots := forest.roots;
    for i := 0 to |ps|
      invariant forest.Valid() && forest.roots == roots
      invariant |labels| == i && Numbered(rootLabels) && Ordered(labels, |rootLabels|)
      invariant forall k :: 0 <= k < i ==> roots[index[k]] in rootLabels && labels[k] == rootLabels[roots[index[k]]]
      invariant forall k :: 0 <= k < i ==> mask[index[k]] == labels[k]
      invariant forall p :: 0 <= p < mask.Length && p !in index ==> mask[p] == old(mask[p])
    {
      var p := ps[i].x + ps[i].y * width;
      assert p == index[i];
      var r := forest.FindRoot(p);
      ghost var before := rootLabels;
      var number;
      rootLabels, number := LabelOf(rootLabels, r);
      mask[p] := number;
      OrderNext(labels, |before|, number);
      labels := labels + [number];
    }
  }

  /** The label image of a joined forest. */
  method Masks(forest: PixelForest, width: nat, ps: seq<Point>, size: nat, ghost text: seq<bool>, ghost index: seq<int>,
               ghost e: Edges)
    returns (mask: array<int>, ghost count: nat)
    requires size == |text| && TextPixels(width, text, ps, index)
    requires forest.Valid() && Partitions(forest.roots, e)
    requires forall k :: k in forest.roots <==> 0 <= k < |text| && text[k]
    modifies forest
    ensures fresh(mask) && Labelling(text, e, mask[..], count)
  {
    mask := new int[size](_ => 0);
    var rootLabels;
    ghost var labels;
    rootLabels, labels := LabelPixels(forest, width, ps, mask, index);
    count := |rootLabels|;
    LabelsAreLabelling(text, width, ps, index, forest.roots, rootLabels, labels, e, mask[..]);
  }

  lemma LabelsAreLabelling(text: seq<bool>, width: nat, ps: seq<Point>, index: seq<int>, roots: map<int, int>,
                           rootLabels: map<int, int>, labels: seq<int>, e: Edges, mask: seq<int>)
    requires TextPixels(width, text, ps, index) && Partitions(roots, e)
    requires forall k :: k in roots <==> 0 <= k < |text| && text[k]
    requires |labels| == |index| && Numbered(rootLabels) && Ordered(labels, |rootLabels|)
    requires forall i :: 0 <= i < |index| ==> roots[index[i]] in rootLabels && labels[i] == rootLabels[roots[index[i]]]
    requires |mask| == |text| && forall k :: 0 <= k < |index| ==> mask[index[k]] == labels[k]
    requires forall p :: 0 <= p < |text| && p !in index ==> mask[p] == 0
    ensures Labelling(text, e, mask, |rootLabels|)
  {
    forall i | 0 <= i < |text| && text[i]
      ensures roots[i] in rootLabels && mask[i] == rootLabels[roots[i]] && 1 <= mask[i] <= |rootLabels|
    {
      var a :| 0 <= a < |index| && index[a] == i;
      assert roots[index[a]] in rootLabels && mask[index[a]] == labels[a] == rootLabels[roots[index[a]]];
      assert forall r :: r in rootLabels ==> 1 <= rootLabels[r] <= |rootLabels|;
    }
    forall i, l | 0 <= i < |text| && text[i] && 1 <= l < mask[i] ensures LabelBefore(text, mask, i, l) {
      var a :| 0 <= a < |index| && index[a] == i;
      assert Seen(labels, a, l);
      var b :| 0 <= b < a && labels[b] == l;
      assert text[index[b]] && mask[index[b]] == l;
    }
    forall l | 1 <= l <= |rootLabels| ensures LabelBefore(text, mask, |text|, l) {
      assert Seen(labels, |labels|, l);
      var b :| 0 <= b < |labels| && labels[b] == l;
      assert text[index[b]] && mask[index[b]] == l;
    }
  }

  // ---------------------------------------------------------------------------
  // The whole mask
  // ---------------------------------------------------------------------------

  /** The grid two score images stand for at given thresholds. */
  ghost function Thresholded(conn: seq<real>, clss: seq<real>, width: nat, height: nat, links: nat, connThreshold: real,
                             clssThreshold: real): (g: Grid)
    requires |clss| >= height * width
  {
    Grid(width, height, links, seq(height * width, i requires 0 <= i < height * width => clss[i] >= clssThreshold),
         seq(|conn|, i requires 0 <= i < |conn| => conn[i] >= connThreshold))
  }

  method Threshold(v: seq<real>, size: nat, threshold: real) returns (flags: seq<bool>)
    requires size <= |v|
    ensures flags == seq(size, i requires 0 <= i < size => v[i] >= threshold)
  {
    flags := [];
    for i := 0 to size
      invariant |flags| == i && forall k :: 0 <= k < i ==> flags[k] == (v[k] >= threshold)
    {
      flags := flags + [v[i] >= threshold];
    }
  }

  /** The column and row of a pixel. */
  function PointAt(i: nat, width: nat): (p: Point)
    requires width > 0
    ensures p.x < width && p.x + p.y * width == i
  {
    Point(i % width, i / width)
  }

  method ListTextPixels(width: nat, height: nat, text: seq<bool>) returns (ps: seq<Point>, ghost index: seq<int>)
    requires |text| == height * width
    ensures TextPixels(width, text, ps, index)
  {
    ps, index := [], [];
    for i := 0 to |text|
      invariant |ps| == |index|
      invariant forall k :: 0 <= k < |ps| ==>
                  ps[k].x < width && 0 <= index[k] < i && text[index[k]] && index[k] == ps[k].x + ps[k].y * width
      invariant forall j, k :: 0 <= j < k < |index| ==> index[j] < index[k]
      invariant forall k :: 0 <= k < i && text[k] ==> k in index
    {
      if text[i] {
        PositiveWidth(height, width, |text|);
        ps, index := ps + [PointAt(i, width)], index + [i];
      }
    }
  }

  lemma PositiveWidth(height: nat, width: nat, n: nat)
    requires n == height * width && n > 0
    ensures width > 0 && height > 0
  {
  }

  /** The label image of the text clusters. */
  method GetMask(conn: seq<real>, clss: seq<real>, width: nat, height: nat, links: nat, connThreshold: real,
                 clssThreshold: real)
    returns (mask: array<int>, ghost e: Edges, ghost count: nat)
    requires |clss| >= height * width && links >= 8 && |conn| >= height * width * links
    ensures fresh(mask)
    ensures ValidGrid(Thresholded(conn, clss, width, height, links, connThreshold, clssThreshold))
    ensures NeighbourLinks(Thresholded(conn, clss, width, height, links, connThreshold, clssThreshold), e)
    ensures Labelling(Thresholded(conn, clss, width, height, links, connThreshold, clssThreshold).text,
            e, mask[..], count)
  {
    Arithmetic.NonNegative(height, width);
    var text := Threshold(clss, height * width, clssThreshold);
    var ps;
    ghost var index;
    ps, index := ListTextPixels(width, height, text);
    var flags := Threshold(conn, |conn|, connThreshold);
    var g := Grid(width, height, links, text, flags);
    assert g == Thresholded(conn, clss, width, height, links, connThreshold, clssThreshold);
    var forest;
    forest, e := JoinAll(g, ps, index);
    mask, count := Masks(forest, width, ps, |text|, text, index, e);
  }

  /** Joins the i-th text pixel with the neighbours it is linked to. */
  method JoinPixel(forest: PixelForest, g: Grid, p: Point, ghost index: seq<int>, ghost i: nat, ghost e: Edges)
      returns (ghost e': Edges)
    requires ValidGrid(g) && i < |index| && p.x < g.width && index[i] == p.x + p.y * g.width
    requires 0 <= index[i] < |g.text| && g.text[index[i]] && index[i] !in index[..i]
    requires forest.Valid() && Partitions(forest.roots, e)
    requires forall k :: k in forest.roots <==> 0 <= k < |g.text| && g.text[k]
    requires LinksSoFar(g, index[..i], -1, 0, e)
    modifies forest
    ensures forest.Valid() && Partitions(forest.roots, e') && forest.roots.Keys == old(forest.roots).Keys
    ensures LinksSoFar(g, index[..i + 1], -1, 0, e')
  {
    RowInside(p.x, p.y, g.width, g.height, index[i]);
    StartPixel(g, index[..i], index[i], e);
    e' := JoinNeighbours(forest, g, p.x, p.y, index[..i], e);
    EndPixel(g, index, i, e');
  }

  /** Joins every text pixel with the neighbours it is linked to. */
  method JoinAll(g: Grid, ps: seq<Point>, ghost index: seq<int>) returns (forest: PixelForest, ghost e: Edges)
    requires ValidGrid(g) && TextPixels(g.width, g.text, ps, index)
    ensures fresh(forest) && forest.Valid() && Partitions(forest.roots, e)
    ensures forall k :: k in forest.roots <==> 0 <= k < |g.text| && g.text[k]
    ensures AllLinks(g, e) && NeighbourLinks(g, e)
  {
    var pixels := seq(|ps|, i requires 0 <= i < |ps| => ps[i].x + ps[i].y * g.width);
    assert pixels == index;
    forest := new PixelForest(pixels);
    e := {};
    SeparatePixels(forest.roots);
    for i := 0 to |ps|
      invariant forest.Valid() && Partitions(forest.roots, e)
      invariant forall k :: k in forest.roots <==> 0 <= k < |g.text| && g.text[k]
      invariant LinksSoFar(g, index[..i], -1, 0, e)
    {
      e := JoinPixel(forest, g, ps[i], index, i, e);
    }
    assert index[..|ps|] == index;
    EveryPixelDone(g, index, e);
    LinksOfImage(g, e);
  }

  lemma StartPixel(g: Grid, done: seq<int>, p: nat, e: Edges)
    requires ValidGrid(g) && LinksSoFar(g, done, -1, 0, e)
    ensures LinksSoFar(g, done, p, 0, e)
  {
  }

  lemma EndPixel(g: Grid, index: seq<int>, i: nat, e: Edges)
    requires ValidGrid(g) && i < |index| && LinksSoFar(g, index[..i], index[i], 9, e)
    ensures LinksSoFar(g, index[..i + 1], -1, 0, e)
  {
    assert index[..i + 1] == index[..i] + [index[i]];
  }

  /** Pixels that are not text have no links, so the text pixels are all there is to do. */
  lemma EveryPixelDone(g: Grid, index: seq<int>, e: Edges)
    requires ValidGrid(g) && LinksSoFar(g, index, -1, 0, e)
    requires forall k :: 0 <= k < |g.text| && g.text[k] ==> k in index
    ensures AllLinks(g, e)
  {
  }

  lemma RowInside(x: nat, y: nat, width: nat, height: nat, p: int)
    requires x < width && p == x + y * width && p < height * width
    ensures y < height
  {
    assert (y - height) * width == y * width - height * width;
    if y >= height {
      Arithmetic.NonNegative(y - height, width);
    }
  }
}
