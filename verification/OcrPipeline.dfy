/** From the detector's raw channel planes to the labelled text clusters. */
module OcrPipeline {
  import opened Connectivity
  import opened TextMask
  import opened Transpose

  const LINK_CHANNELS := 16
  const TEXT_CHANNELS := 2
  const NEIGHBOURS := 8

  /** The links of the image as the raw planes state them: pixel p points to its k-th
      neighbour when the second half of the normalised planes 2k and 2k + 1 at p
      reaches the threshold. */
  ghost predicate LinkFlagsFromPlanes(conn: seq<real>, height: nat, width: nat, pair: (real, real) -> (real, real),
                                      connThreshold: real, g: Grid)
  {
    forall k: nat, y: nat, x: nat :: k < NEIGHBOURS && y < height && x < width ==>
      FlagFromPlanes(conn, height, width, pair, connThreshold, g, k, y, x)
  }

  ghost predicate FlagFromPlanes(conn: seq<real>, height: nat, width: nat, pair: (real, real) -> (real, real),
                                 connThreshold: real, g: Grid, k: nat, y: nat, x: nat)
  {
    var p := y * width + x;
    && 0 <= p * NEIGHBOURS + k < |g.conn|
    && 0 <= 2 * k * (height * width) + p < |conn| && 0 <= (2 * k + 1) * (height * width) + p < |conn|
    && (g.conn[p * NEIGHBOURS + k] <==>
          pair(conn[2 * k * (height * width) + p], conn[(2 * k + 1) * (height * width) + p]).1 >= connThreshold)
  }

  /** Pixel `p` of an image of `size` pixels is text: the second half of its normalised text planes
      reaches the threshold. */
  ghost predicate IsText(clss: seq<real>, size: nat, pair: (real, real) -> (real, real), clssThreshold: real, p: int) {
    0 <= p < size && size + p < |clss| && pair(clss[p], clss[size + p]).1 >= clssThreshold
  }

  /** So does the second half of the link planes of `p` that belong to the neighbour at an offset: the
      pair after as many pairs as there are neighbours met before. */
  ghost predicate PlanesReach(conn: seq<real>, size: nat, pair: (real, real) -> (real, real), connThreshold: real,
                              p: int, dx: int, dy: int)
  {
    var k := |MetBefore(dx, dy)|;
    && 0 <= 2 * k * size + p < |conn| && 0 <= (2 * k + 1) * size + p < |conn|
    && pair(conn[2 * k * size + p], conn[(2 * k + 1) * size + p]).1 >= connThreshold
  }

  /** The links of the image as the raw planes state them. */
  ghost predicate LinksFromPlanes(conn: seq<real>, clss: seq<real>, pair: (real, real) -> (real, real),
                                  clssThreshold: real, connThreshold: real, g: Grid, e: Edges)
  {
    && (forall x, y :: 0 <= x < g.width && 0 <= y < g.height ==>
          PixelFromPlanes(conn, clss, pair, clssThreshold, connThreshold, g, x, y, e))
    && (forall a, b :: (a, b) in e ==> JoinsNeighbours(g, a, b))
  }

  ghost predicate PixelFromPlanes(conn: seq<real>, clss: seq<real>, pair: (real, real) -> (real, real),
                                  clssThreshold: real, connThreshold: real, g: Grid, x: int, y: int, e: Edges)
    requires 0 <= x < g.width && 0 <= y < g.height
  {
    var size := g.height * g.width;
    forall dx, dy :: HasNeighbour(g, x, y, dx, dy) ==>
      var p, q := x + y * g.width, x + dx + (y + dy) * g.width;
      size >= 0 && ((p, q) in e <==>
        && IsText(clss, size, pair, clssThreshold, p) && IsText(clss, size, pair, clssThreshold, q)
        && PlanesReach(conn, size, pair, connThreshold, p, dx, dy))
  }

  /** Transposes, normalises, slices, thresholds, joins and labels. */
  method ClusterText(conn: seq<real>, clss: seq<real>, height: nat, width: nat, pair: (real, real) -> (real, real),
                     clssThreshold: real, connThreshold: real)
    returns (mask: array<int>, ghost g: Grid, ghost e: Edges, ghost count: nat)
    requires |conn| == LINK_CHANNELS * (height * width) && |clss| == TEXT_CHANNELS * (height * width)
    ensures fresh(mask) && ValidGrid(g) && g.width == width && g.height == height && g.links == NEIGHBOURS
    ensures forall p :: 0 <= p < height * width ==>
              (g.text[p] <==> pair(clss[p], clss[height * width + p]).1 >= clssThreshold)
    ensures LinksFromPlanes(conn, clss, pair, clssThreshold, connThreshold, g, e)
    ensures Labelling(g.text, e, mask[..], count)
  {
    var connScores := ScorePixels(conn, LINK_CHANNELS, height, width, 0.0, pair);
    var clssScores := ScorePixels(clss, TEXT_CHANNELS, height, width, 0.0, pair);
    mask, e, count := GetMask(connScores, clssScores, width, height, NEIGHBOURS, connThreshold, clssThreshold);
    g := Thresholded(connScores, clssScores, width, height, NEIGHBOURS, connThreshold, clssThreshold);
    FlagsFromScores(conn, connScores, height, width, pair, connThreshold, g);
    TextFromScores(clss, clssScores, height, width, pair, clssThreshold, g);
    forall x, y | 0 <= x < width && 0 <= y < height
      ensures PixelFromPlanes(conn, clss, pair, clssThreshold, connThreshold, g, x, y, e)
    {
      LinksOfPlanes(conn, clss, pair, clssThreshold, connThreshold, g, x, y, e);
    }
  }

  lemma LinksOfPlanes(conn: seq<real>, clss: seq<real>, pair: (real, real) -> (real, real), clssThreshold: real,
                      connThreshold: real, g: Grid, x: nat, y: nat, e: Edges)
    requires ValidGrid(g) && g.links == NEIGHBOURS && x < g.width && y < g.height && PixelLinks(g, x, y, e)
    requires |clss| == TEXT_CHANNELS * |g.text|
    requires forall p :: 0 <= p < |g.text| ==> (g.text[p] <==> pair(clss[p], clss[|g.text| + p]).1 >= clssThreshold)
    requires LinkFlagsFromPlanes(conn, g.height, g.width, pair, connThreshold, g)
    ensures PixelFromPlanes(conn, clss, pair, clssThreshold, connThreshold, g, x, y, e)
  {
    forall dx, dy | HasNeighbour(g, x, y, dx, dy)
      ensures HoldsLink(g, x, y, dx, dy) <==>
              && IsText(clss, |g.text|, pair, clssThreshold, x + y * g.width)
              && IsText(clss, |g.text|, pair, clssThreshold, x + dx + (y + dy) * g.width)
              && PlanesReach(conn, |g.text|, pair, connThreshold, x + y * g.width, dx, dy)
    {
      CellInside(x, y, g.width, g.height);
      CellInside(x + dx, y + dy, g.width, g.height);
      MetBeforeCounts(dx, dy);
      assert FlagFromPlanes(conn, g.height, g.width, pair, connThreshold, g, |MetBefore(dx, dy)|, y, x);
    }
  }

  lemma FlagsFromScores(conn: seq<real>, scores: seq<real>, height: nat, width: nat,
                        pair: (real, real) -> (real, real), connThreshold: real, g: Grid)
    requires PixelScores(conn, LINK_CHANNELS, height, width, pair, scores)
    requires |g.conn| == |scores| && forall i :: 0 <= i < |scores| ==> g.conn[i] == (scores[i] >= connThreshold)
    ensures LinkFlagsFromPlanes(conn, height, width, pair, connThreshold, g)
  {
    forall k: nat, y: nat, x: nat | k < NEIGHBOURS && y < height && x < width
      ensures FlagFromPlanes(conn, height, width, pair, connThreshold, g, k, y, x)
    {
      assert ScoreAt(conn, LINK_CHANNELS, height, width, pair, scores, k, y, x);
    }
  }

  lemma TextFromScores(clss: seq<real>, scores: seq<real>, height: nat, width: nat,
                       pair: (real, real) -> (real, real), clssThreshold: real, g: Grid)
    requires PixelScores(clss, TEXT_CHANNELS, height, width, pair, scores)
    requires |g.text| == |scores| == height * width
    requires forall i :: 0 <= i < |scores| ==> g.text[i] == (scores[i] >= clssThreshold)
    ensures forall p :: 0 <= p < height * width ==>
              (g.text[p] <==> pair(clss[p], clss[height * width + p]).1 >= clssThreshold)
  {
    forall p | 0 <= p < height * width
      ensures g.text[p] <==> pair(clss[p], clss[height * width + p]).1 >= clssThreshold
    {
      PixelOf(p, height, width);
      assert ScoreAt(clss, TEXT_CHANNELS, height, width, pair, scores, 0, p / width, p % width);
    }
  }

  lemma PixelOf(p: nat, height: nat, width: nat)
    requires p < height * width
    ensures width > 0 && p / width < height && p / width * width + p % width == p
  {
    QuotientBelow(p, height, width);
  }
}
