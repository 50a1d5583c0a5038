/** The assignment solver: a working matrix, marks, covers and a path buffer,
    all overwritten in place, proved to end with an optimal assignment. */
module KuhnMunkresSolver {
  import opened Assignment
  import opened HungarianPhase

  datatype Mark = Blank | Star | Prime

  datatype Point = Point(x: int, y: int)

  /** The contents of a two-dimensional array as rows. */
  ghost function Rows(a: array2<real>): (m: Matrix)
    reads a
    ensures Rectangular(m, a.Length0, a.Length1)
    ensures forall i, j :: 0 <= i < a.Length0 && 0 <= j < a.Length1 ==> m[i][j] == a[i, j]
  {
    seq(a.Length0, i requires 0 <= i < a.Length0 reads a =>
      seq(a.Length1, j requires 0 <= j < a.Length1 reads a => a[i, j]))
  }

  /** The marks are exactly the starred and primed columns of the rows. */
  ghost predicate Marks(marked: array2<Mark>, n: nat, star: seq<int>, prime: seq<int>)
    reads marked
  {
    && marked.Length0 == marked.Length1 == n && |star| == n && |prime| == n
    && InRange(star, n) && InRange(prime, n)
    && forall i, j :: 0 <= i < n && 0 <= j < n ==>
         marked[i, j] == MarkOf(star, prime, i, j)
  }

  ghost function MarkOf(star: seq<int>, prime: seq<int>, i: int, j: int): Mark
    requires 0 <= i < |star| == |prime|
  {
    if star[i] == j then Star else if prime[i] == j then Prime else Blank
  }

  /** The working matrix is the padded input minus the potentials. */
  ghost predicate Works(dm: array2<real>, n: nat, base: Matrix, u: seq<real>, v: seq<real>)
    reads dm
  {
    && dm.Length0 == dm.Length1 == n && SquareWithPotentials(base, u, v, n)
    && forall i, j :: 0 <= i < n && 0 <= j < n ==> dm[i, j] == Reduced(base, u, v, i, j)
  }

  ghost predicate IsLeast(row: seq<real>, least: real) {
    && (exists j :: 0 <= j < |row| && least == row[j])
    && forall j :: 0 <= j < |row| ==> least <= row[j]
  }

  /** `col` is the first column where the row attains `least`, among those not
      taken; -1 if there is none. */
  ghost predicate GreedyRow(row: seq<real>, least: real, taken: seq<int>, col: int)
    requires -1 <= col < |row|
  {
    && (col >= 0 ==> row[col] == least && col !in taken)
    && forall j :: 0 <= j < (if col >= 0 then col else |row|) && row[j] == least ==> j in taken
  }

  /** The stars a row-by-row greedy pass leaves: each row takes the first column,
      among those no earlier row has taken, where it attains its least value. */
  ghost predicate GreedyStars(m: Matrix, u: seq<real>, star: seq<int>, n: nat)
    requires Rectangular(m, n, n) && |u| == |star| <= n
  {
    && InRange(star, n) && Injective(star)
    && forall i :: 0 <= i < |star| ==> IsLeast(m[i], u[i]) && GreedyRow(m[i], u[i], star[..i], star[i])
  }

  /** What the greedy mode returns: the stars of that pass over the padded matrix. */
  ghost predicate Greedy(m: Matrix, results: seq<int>, rows: nat, cols: nat)
    requires Rectangular(m, rows, cols)
  {
    exists p: Matrix, u: seq<real>, star: seq<int> ::
      GreedyWith(m, results, rows, cols, p, u, star)
  }

  ghost predicate GreedyWith(m: Matrix, results: seq<int>, rows: nat, cols: nat, p: Matrix, u: seq<real>,
                             star: seq<int>)
    requires Rectangular(m, rows, cols)
  {
    var n := if rows < cols then cols else rows;
    && Pads(p, m, rows, cols, n) && |u| == |star| == n
    && GreedyStars(p, u, star, n) && results == Cropped(star, rows, cols)
  }

  lemma GreedyStarsGrow(m: Matrix, u: seq<real>, star: seq<int>, n: nat, least: real, col: int)
    requires Rectangular(m, n, n) && |u| == |star| < n && -1 <= col < n
    requires GreedyStars(m, u, star, n)
    requires IsLeast(m[|star|], least) && GreedyRow(m[|star|], least, star, col)
    ensures GreedyStars(m, u + [least], star + [col], n)
  {
    var u', star' := u + [least], star + [col];
    forall i | 0 <= i < |star'| ensures IsLeast(m[i], u'[i]) && GreedyRow(m[i], u'[i], star'[..i], star'[i]) {
      assert star'[..i] == star[..i];
      assert i == |star| ==> star'[..i] == star;
    }
  }

  /** The vectors say which rows and columns the stars have taken. */
  ghost predicate Taken(n: nat, star: seq<int>, rowTaken: seq<bool>, colTaken: seq<bool>) {
    && |rowTaken| == |colTaken| == n
    && (forall i :: |star| <= i < n ==> !rowTaken[i])
    && (forall j :: 0 <= j < n ==> (colTaken[j] <==> j in star))
  }

  lemma TakenGrows(n: nat, star: seq<int>, rowTaken: seq<bool>, colTaken: seq<bool>, mine: int)
    requires Taken(n, star, rowTaken, colTaken) && |star| < n && -1 <= mine < n
    ensures Taken(n, star + [mine], rowTaken[|star| := mine >= 0],
                  if mine >= 0 then colTaken[mine := true] else colTaken)
  {
    assert forall j :: j in star + [mine] <==> j in star || j == mine;
  }

  lemma GreedyIsTight(m: Matrix, u: seq<real>, v: seq<real>, star: seq<int>, n: nat)
    requires SquareWithPotentials(m, u, v, n) && |star| == n
    requires forall j :: 0 <= j < n ==> v[j] == 0.0
    requires GreedyStars(m, u, star, n)
    ensures Feasible(m, u, v, n) && Tight(m, u, v, n, star)
  {
  }

  ghost function Toggled(m: Mark): Mark {
    if m == Star then Blank else Star
  }

  /** The cells visited along the rows of an alternating path: each row's prime,
      then the star that shares its column. */
  ghost predicate PathPoints(l: Ledger, path: seq<int>, pts: seq<Point>)
    requires |l.star| == |l.prime| && forall a :: 0 <= a < |path| ==> 0 <= path[a] < |l.star|
  {
    && |pts| == 2 * |path| - 1
    && forall a :: 0 <= a < |path| ==> CellsAt(l, path, pts, a)
  }

  /** The prime of a row of the path, and the star in its column in the next. */
  ghost predicate CellsAt(l: Ledger, path: seq<int>, pts: seq<Point>, a: nat)
    requires |l.star| == |l.prime| && forall a :: 0 <= a < |path| ==> 0 <= path[a] < |l.star|
    requires |pts| == 2 * |path| - 1 && a < |path|
  {
    && pts[2 * a] == Point(l.prime[path[a]], path[a])
    && (a + 1 < |path| ==> pts[2 * a + 1] == Point(l.prime[path[a]], path[a + 1]))
  }

  ghost predicate Distinct(pts: seq<Point>) {
    forall c, d :: 0 <= c < d < |pts| ==> pts[c] != pts[d]
  }

  /** The c-th point of a path in terms of the row it lies in. */
  lemma PathPointAt(l: Ledger, n: nat, path: seq<int>, at: seq<nat>, pts: seq<Point>, c: nat)
    requires ReadyToAugment(l, n) && AlternatingRows(l, n, path, at) && PathPoints(l, path, pts) && c < |pts|
    ensures var a := (c + 1) / 2;
            a < |path| && pts[c] == Point(if c == 2 * a then l.prime[path[a]] else l.star[path[a]], path[a])
    ensures c != 2 * ((c + 1) / 2) ==> (c + 1) / 2 > 0 && c == 2 * ((c + 1) / 2) - 1
  {
    var a := (c + 1) / 2;
    assert c == 2 * a || c == 2 * (a - 1) + 1;
    if c == 2 * a {
      assert CellsAt(l, path, pts, a);
    } else {
      assert CellsAt(l, path, pts, a - 1) && LeadsOn(l, path, a - 1);
    }
  }

  lemma PathPointsGrow(l: Ledger, path: seq<int>, pts: seq<Point>, k: nat)
    requires |path| > 0 && |l.star| == |l.prime| && k < |l.star|
    requires forall a :: 0 <= a < |path| ==> 0 <= path[a] < |l.star|
    requires PathPoints(l, path, pts)
    ensures PathPoints(l, path + [k], pts + [Point(l.prime[path[|path| - 1]], k), Point(l.prime[k], k)])
  {
    var pts' := pts + [Point(l.prime[path[|path| - 1]], k), Point(l.prime[k], k)];
    forall a | 0 <= a <= |path| ensures CellsAt(l, path + [k], pts', a) {
      assert a < |path| ==> CellsAt(l, path, pts, a);
    }
  }

  lemma PathEnds(l: Ledger, path: seq<int>, pts: seq<Point>)
    requires |l.star| == |l.prime| && forall a :: 0 <= a < |path| ==> 0 <= path[a] < |l.star|
    requires path != [] && PathPoints(l, path, pts)
    ensures pts[|pts| - 1] == Point(l.prime[path[|path| - 1]], path[|path| - 1])
  {
    assert CellsAt(l, path, pts, |path| - 1);
  }

  /** A star in the last column takes the path one row further, within the buffer. */
  lemma PathGoesOn(l: Ledger, n: nat, path: seq<int>, at: seq<nat>, k: nat) returns (s: nat)
    requires ReadyToAugment(l, n) && AlternatingRows(l, n, path, at)
    requires k < n && l.star[k] == l.prime[path[|path| - 1]]
    ensures l.prime[k] >= 0 && l.prime[k] != l.star[k] && s < at[|at| - 1]
    ensures AlternatingRows(l, n, path + [k], at + [s]) && |path| + 1 <= n
  {
    s := PathExtends(l, n, path, at, k);
    PathIsShort(l, n, path + [k], at + [s]);
  }

  lemma PathPointsDistinct(l: Ledger, n: nat, path: seq<int>, at: seq<nat>, pts: seq<Point>)
    requires ReadyToAugment(l, n) && AlternatingRows(l, n, path, at) && PathPoints(l, path, pts)
    ensures Distinct(pts) && |pts| <= 2 * n - 1
  {
    PathIsShort(l, n, path, at);
    PathMarksDiffer(l, n, path, at);
    forall c, d | 0 <= c < d < |pts| ensures pts[c] != pts[d] {
      PathPointAt(l, n, path, at, pts, c);
      PathPointAt(l, n, path, at, pts, d);
    }
  }

  /** The cells of a path are exactly the marked cells of its rows. */
  lemma PathPointsAreMarks(l: Ledger, n: nat, path: seq<int>, at: seq<nat>, pts: seq<Point>, i: nat, j: nat)
    requires ReadyToAugment(l, n) && AlternatingRows(l, n, path, at) && PathPoints(l, path, pts)
    requires i < n && j < n
    ensures Point(j, i) in pts <==> i in path && (l.prime[i] == j || l.star[i] == j)
  {
    if Point(j, i) in pts {
      var c :| 0 <= c < |pts| && pts[c] == Point(j, i);
      PathPointAt(l, n, path, at, pts, c);
    }
    if i in path {
      var a :| 0 <= a < |path| && path[a] == i;
      assert CellsAt(l, path, pts, a);
      if l.star[i] == j {
        assert CellsAt(l, path, pts, a - 1) && LeadsOn(l, path, a - 1);
        assert pts[2 * (a - 1) + 1] == Point(j, i);
      }
    }
  }

  ghost function Erased(m: Mark): Mark {
    if m == Prime then Blank else m
  }

  /** Toggling the path and erasing the other primes leaves the flipped stars. */
  lemma FlippedMark(l: Ledger, n: nat, path: seq<int>, at: seq<nat>, pts: seq<Point>, i: nat, j: nat)
    requires ReadyToAugment(l, n) && AlternatingRows(l, n, path, at) && PathPoints(l, path, pts)
    requires i < n && j < n
    ensures var m := MarkOf(l.star, l.prime, i, j);
            Erased(if Point(j, i) in pts then Toggled(m) else m)
            == if (if i in path then l.prime[i] else l.star[i]) == j then Star else Blank
  {
    PathMarksDiffer(l, n, path, at);
    PathPointsAreMarks(l, n, path, at, pts, i, j);
  }

  lemma PathPointsInside(l: Ledger, n: nat, path: seq<int>, at: seq<nat>, pts: seq<Point>)
    requires ReadyToAugment(l, n) && AlternatingRows(l, n, path, at) && PathPoints(l, path, pts)
    ensures forall c :: 0 <= c < |pts| ==> 0 <= pts[c].x < n && 0 <= pts[c].y < n
  {
    forall c | 0 <= c < |pts| ensures 0 <= pts[c].x < n && 0 <= pts[c].y < n {
      PathPointAt(l, n, path, at, pts, c);
      var a := (c + 1) / 2;
      if c != 2 * a { assert LeadsOn(l, path, a - 1); }
      PathMarksDiffer(l, n, path, at);
    }
  }

  method MinElement(dm: array2<real>, row: nat, ghost base: seq<real>) returns (m: real)
    requires row < dm.Length0 && dm.Length1 > 0
    requires |base| == dm.Length1 && forall j :: 0 <= j < |base| ==> dm[row, j] == base[j]
    ensures IsLeast(base, m)
  {
    m := dm[row, 0];
    for j := 1 to dm.Length1
      invariant exists k :: 0 <= k < |base| && m == base[k]
      invariant forall k :: 0 <= k < j ==> m <= base[k]
    {
      if dm[row, j] < m { m := dm[row, j]; }
    }
  }

  class KuhnMunkres {
    const greedy: bool
    var n: nat
    var dm: array2<real>
    var marked: array2<Mark>
    var points: array<Point>
    var rowVisited: seq<bool>
    var colVisited: seq<bool>
    /** The proof's account of the run; nothing executable reads it. */
    ghost var ledger: Ledger

    constructor (greedy: bool)
      ensures this.greedy == greedy
    {
      this.greedy := greedy;
      n := 0;
      dm := new real[0, 0];
      marked := new Mark[0, 0];
      points := new Point[0];
      rowVisited, colVisited := [], [];
      ledger := Ledger([], [], [], [], [], []);
    }

    ghost predicate Shaped()
      reads this
    {
      && dm.Length0 == dm.Length1 == n
      && marked.Length0 == marked.Length1 == n
      && points.Length == 2 * n
      && |rowVisited| == n && |colVisited| == n
    }

    /** Between phases: nothing primed, nothing covered. */
    ghost predicate AtRest()
      reads this, dm, marked
    {
      && Shaped()
      && Balanced(ledger, n) && NoPrimes(ledger, n)
      && Works(dm, n, ledger.base, ledger.u, ledger.v)
      && Marks(marked, n, ledger.star, ledger.prime)
      && (forall i :: 0 <= i < n ==> !rowVisited[i])
      && (forall j :: 0 <= j < n ==> !colVisited[j])
    }

    ghost predicate Searching()
      reads this, dm, marked
    {
      && Shaped()
      && InPhase(ledger, n, rowVisited, colVisited)
      && Works(dm, n, ledger.base, ledger.u, ledger.v)
      && Marks(marked, n, ledger.star, ledger.prime)
    }

    /** Subtracts `minVal` from one row and stars its first zero in a free column. */
    method SubtractAndStar(row: nat, minVal: real, rowTaken: seq<bool>, colTaken: seq<bool>)
      returns (rowTaken': seq<bool>, colTaken': seq<bool>, ghost mine: int)
      requires Shaped() && row < n && |rowTaken| == |colTaken| == n && !rowTaken[row]
      requires forall j :: 0 <= j < n ==> marked[row, j] == Blank
      modifies dm, marked
      ensures -1 <= mine < n
      ensures |rowTaken'| == n && rowTaken' == rowTaken[row := mine >= 0]
      ensures |colTaken'| == n && colTaken' == if mine >= 0 then colTaken[mine := true] else colTaken
      ensures mine >= 0 ==> old(dm[row, mine]) == minVal && !colTaken[mine]
      ensures forall j :: 0 <= j < (if mine >= 0 then mine else n) && old(dm[row, j]) == minVal ==> colTaken[j]
      ensures forall j :: 0 <= j < n ==> dm[row, j] == old(dm[row, j]) - minVal
      ensures forall j :: 0 <= j < n ==> marked[row, j] == if j == mine then Star else Blank
      ensures forall i, j :: 0 <= i < n && 0 <= j < n && i != row ==>
                dm[i, j] == old(dm[i, j]) && marked[i, j] == old(marked[i, j])
    {
      rowTaken', colTaken', mine := rowTaken, colTaken, -1;
      for col := 0 to n
        invariant -1 <= mine < col
        invariant rowTaken' == rowTaken[row := mine >= 0]
        invariant colTaken' == if mine >= 0 then colTaken[mine := true] else colTaken
        invariant mine >= 0 ==> old(dm[row, mine]) == minVal && !colTaken[mine]
        invariant forall j :: 0 <= j < (if mine >= 0 then mine else col) && old(dm[row, j]) == minVal ==> colTaken[j]
        invariant forall j :: 0 <= j < n ==> dm[row, j] == old(dm[row, j]) - if j < col then minVal else 0.0
        invariant forall j :: 0 <= j < n ==> marked[row, j] == if j == mine then Star else Blank
        invariant forall i, j :: 0 <= i < n && 0 <= j < n && i != row ==>
                    dm[i, j] == old(dm[i, j]) && marked[i, j] == old(marked[i, j])
      {
        dm[row, col] := dm[row, col] - minVal;
        if dm[row, col] == 0.0 && !colTaken'[col] && !rowTaken'[row] {
          marked[row, col] := Star;
          colTaken' := colTaken'[col := true];
          rowTaken' := rowTaken'[row := true];
          mine := col;
        }
      }
    }

    /** The state of the simple case once the rows of `u` and `star` are done. */
    ghost predicate RowsDone(base: Matrix, u: seq<real>, star: seq<int>)
      reads this, dm, marked
    {
      && Shaped() && Rectangular(base, n, n) && |u| == |star| <= n
      && (forall i, j :: 0 <= i < |u| && 0 <= j < n ==> dm[i, j] == base[i][j] - u[i])
      && (forall i, j :: |u| <= i < n && 0 <= j < n ==> dm[i, j] == base[i][j] && marked[i, j] == Blank)
      && (forall i, j :: 0 <= i < |u| && 0 <= j < n ==> marked[i, j] == if star[i] == j then Star else Blank)
    }

    lemma RowDone(base: Matrix, u: seq<real>, star: seq<int>, minVal: real, mine: int)
      requires Shaped() && Rectangular(base, n, n) && |u| == |star| < n
      requires forall i, j :: 0 <= i < |u| && 0 <= j < n ==>
                 dm[i, j] == base[i][j] - u[i] && marked[i, j] == if star[i] == j then Star else Blank
      requires forall i, j :: |u| < i < n && 0 <= j < n ==> dm[i, j] == base[i][j] && marked[i, j] == Blank
      requires forall j :: 0 <= j < n ==>
                 dm[|u|, j] == base[|u|][j] - minVal && marked[|u|, j] == if j == mine then Star else Blank
      ensures RowsDone(base, u + [minVal], star + [mine])
    {
    }

    /** Reduces one row by its least value and stars its first free zero. */
    method ReduceRow(row: nat, rowTaken: seq<bool>, colTaken: seq<bool>, ghost base: Matrix, ghost u: seq<real>,
                     ghost star: seq<int>)
      returns (rowTaken': seq<bool>, colTaken': seq<bool>, ghost u': seq<real>, ghost star': seq<int>)
      requires |u| == row && RowsDone(base, u, star) && GreedyStars(base, u, star, n)
      requires row < n && Taken(n, star, rowTaken, colTaken)
      modifies dm, marked
      ensures |u'| == row + 1 && RowsDone(base, u', star') && GreedyStars(base, u', star', n)
      ensures Taken(n, star', rowTaken', colTaken')
    {
      var minVal := MinElement(dm, row, base[row]);
      ghost var mine;
      rowTaken', colTaken', mine := SubtractAndStar(row, minVal, rowTaken, colTaken);
      u', star' := u + [minVal], star + [mine];
      RowDone(base, u, star, minVal, mine);
      TakenGrows(n, star, rowTaken, colTaken, mine);
      GreedyStarsGrow(base, u, star, n, minVal, mine);
    }

    /** Reduces the rows one by one, starring as it goes. */
    method ReduceRows() returns (ghost u: seq<real>, ghost star: seq<int>)
      requires Shaped()
      requires forall i, j :: 0 <= i < n && 0 <= j < n ==> marked[i, j] == Blank
      modifies dm, marked
      ensures |u| == n && RowsDone(old(Rows(dm)), u, star) && GreedyStars(old(Rows(dm)), u, star, n)
    {
      var rowTaken := seq(n, _ => false);
      var colTaken := seq(n, _ => false);
      ghost var base := Rows(dm);
      u, star := [], [];
      for row := 0 to n
        invariant |u| == row && RowsDone(base, u, star) && GreedyStars(base, u, star, n)
        invariant Taken(n, star, rowTaken, colTaken)
      {
        rowTaken, colTaken, u, star := ReduceRow(row, rowTaken, colTaken, base, u, star);
      }
    }

    method TrySimpleCase()
      requires Shaped()
      requires forall i, j :: 0 <= i < n && 0 <= j < n ==> marked[i, j] == Blank
      requires forall i :: 0 <= i < n ==> !rowVisited[i] && !colVisited[i]
      modifies dm, marked, `ledger
      ensures AtRest()
      ensures ledger.base == old(Rows(dm))
      ensures forall i :: 0 <= i < n ==> ledger.v[i] == 0.0
      ensures GreedyStars(ledger.base, ledger.u, ledger.star, n)
    {
      ghost var base := Rows(dm);
      ghost var u, star := ReduceRows();
      ledger := Ledger(base, u, seq(n, _ => 0.0), star, seq(n, _ => -1), []);
      GreedyIsTight(base, u, ledger.v, star, n);
    }

    /** Covers every starred column and reports whether every row has a star. */
    method CheckIfOptimumIsFound() returns (found: bool)
      requires AtRest()
      modifies `colVisited
      ensures Searching()
      ensures found <==> Total(ledger.star)
    {
      var count := 0;
      ghost var star := ledger.star;
      for i := 0 to n
        invariant Shaped() && Marks(marked, n, star, ledger.prime)
        invariant count == Assigned(star[..i])
        invariant forall j :: 0 <= j < n ==> (colVisited[j] <==> j in star[..i])
      {
        for j := 0 to n
          invariant Shaped() && Marks(marked, n, star, ledger.prime)
          invariant count == Assigned(star[..i]) + if 0 <= star[i] < j then 1 else 0
          invariant forall k :: 0 <= k < n ==> (colVisited[k] <==> k in star[..i] || (k == star[i] && k < j))
        {
          if marked[i, j] == Star {
            colVisited := colVisited[j := true];
            count := count + 1;
          }
        }
        assert star[..i + 1] == star[..i] + [star[i]];
      }
      assert star[..n] == star;
      AssignedAll(star);
      return count >= n;
    }

    /** The first cell, in row order, of least value among the uncovered ones. */
    method FindUncoveredMinValPos() returns (pos: Point)
      requires Shaped()
      requires exists i, j :: 0 <= i < n && 0 <= j < n && !rowVisited[i] && !colVisited[j]
      ensures 0 <= pos.y < n && 0 <= pos.x < n && !rowVisited[pos.y] && !colVisited[pos.x]
      ensures forall i, j :: 0 <= i < n && 0 <= j < n && !rowVisited[i] && !colVisited[j] ==>
                dm[pos.y, pos.x] <= dm[i, j]
                && (i < pos.y || (i == pos.y && j < pos.x) ==> dm[pos.y, pos.x] < dm[i, j])
    {
      pos := Point(-1, -1);
      var minVal := 0.0;
      for i := 0 to n
        invariant pos == Point(-1, -1) ||
                  (0 <= pos.y < i && 0 <= pos.x < n &&
                   !rowVisited[pos.y] && !colVisited[pos.x] && minVal == dm[pos.y, pos.x])
        invariant forall k, j :: 0 <= k < i && 0 <= j < n && !rowVisited[k] && !colVisited[j] ==>
                    pos.y >= 0 && minVal <= dm[k, j] && (k < pos.y || (k == pos.y && j < pos.x) ==> minVal < dm[k, j])
      {
        if !rowVisited[i] {
          for j := 0 to n
            invariant pos == Point(-1, -1) ||
                      (0 <= pos.y <= i && 0 <= pos.x < n && (pos.y == i ==> pos.x < j) &&
                       !rowVisited[pos.y] && !colVisited[pos.x] && minVal == dm[pos.y, pos.x])
            invariant forall k, m ::
                        ((0 <= k < i && 0 <= m < n) || (k == i && 0 <= m < j)) && !rowVisited[k] && !colVisited[m] ==>
                        pos.y >= 0 && minVal <= dm[k, m] &&
                        (k < pos.y || (k == pos.y && m < pos.x) ==> minVal < dm[k, m])
          {
            if !colVisited[j] && (pos.y < 0 || dm[i, j] < minVal) {
              minVal := dm[i, j];
              pos := Point(j, i);
            }
          }
        }
      }
    }

    method UpdateDissimilarityMatrix(val: real)
      requires Shaped()
      modifies dm
      ensures forall i, j :: 0 <= i < n && 0 <= j < n ==>
                dm[i, j] == old(dm[i, j]) + (if rowVisited[i] then val else 0.0) - (if colVisited[j] then 0.0 else val)
    {
      for i := 0 to n
        invariant forall k, j :: 0 <= k < i && 0 <= j < n ==>
                    dm[k, j] == old(dm[k, j])
                      + (if rowVisited[k] then val else 0.0) - (if colVisited[j] then 0.0 else val)
        invariant forall k, j :: i <= k < n && 0 <= j < n ==> dm[k, j] == old(dm[k, j])
      {
        for j := 0 to n
          invariant forall k, m :: 0 <= k < i && 0 <= m < n ==>
                      dm[k, m] == old(dm[k, m])
                        + (if rowVisited[k] then val else 0.0) - (if colVisited[m] then 0.0 else val)
          invariant forall m :: 0 <= m < j ==>
                      dm[i, m] == old(dm[i, m])
                        + (if rowVisited[i] then val else 0.0) - (if colVisited[m] then 0.0 else val)
          invariant forall m :: j <= m < n ==> dm[i, m] == old(dm[i, m])
          invariant forall k, m :: i < k < n && 0 <= m < n ==> dm[k, m] == old(dm[k, m])
        {
          if rowVisited[i] { dm[i, j] := dm[i, j] + val; }
          if !colVisited[j] { dm[i, j] := dm[i, j] - val; }
        }
      }
    }

    method FindInRow(row: nat, what: Mark) returns (col: int)
      requires Shaped() && row < n
      ensures -1 <= col < n
      ensures col >= 0 ==> marked[row, col] == what
      ensures forall j :: 0 <= j < (if col >= 0 then col else n) ==> marked[row, j] != what
    {
      for j := 0 to n
        invariant forall k :: 0 <= k < j ==> marked[row, k] != what
      {
        if marked[row, j] == what { return j; }
      }
      return -1;
    }

    method FindInCol(col: nat, what: Mark) returns (row: int)
      requires Shaped() && col < n
      ensures -1 <= row < n
      ensures row >= 0 ==> marked[row, col] == what
      ensures forall i :: 0 <= i < (if row >= 0 then row else n) ==> marked[i, col] != what
    {
      for i := 0 to n
        invariant forall k :: 0 <= k < i ==> marked[k, col] != what
      {
        if marked[i, col] == what { return i; }
      }
      return -1;
    }

    /** Toggles the mark of every listed point: a star vanishes, anything else becomes a star. */
    method TogglePath(count: nat)
      requires Shaped() && count < points.Length
      requires Distinct(points[..count + 1])
      requires forall c :: 0 <= c <= count ==> 0 <= points[c].x < n && 0 <= points[c].y < n
      modifies marked
      ensures forall i, j :: 0 <= i < n && 0 <= j < n ==>
                marked[i, j]
                  == if Point(j, i) in points[..count + 1] then Toggled(old(marked[i, j])) else old(marked[i, j])
    {
      ghost var pts := points[..count + 1];
      for c := 0 to count + 1
        invariant forall i, j :: 0 <= i < n && 0 <= j < n ==>
                    marked[i, j] == if Point(j, i) in pts[..c] then Toggled(old(marked[i, j])) else old(marked[i, j])
      {
        var p := points[c];
        assert p == pts[c] && pts[..c + 1] == pts[..c] + [p];
        assert p !in pts[..c];
        marked[p.y, p.x] := if marked[p.y, p.x] == Star then Blank else Star;
      }
      assert pts[..count + 1] == pts;
    }

    /** Erases every prime. */
    method ErasePrimes()
      requires Shaped()
      modifies marked
      ensures forall i, j :: 0 <= i < n && 0 <= j < n ==> marked[i, j] == Erased(old(marked[i, j]))
    {
      forall i, j | 0 <= i < n && 0 <= j < n && marked[i, j] == Prime {
        marked[i, j] := Blank;
      }
    }

    /** Turns the complete path held in `points` into stars and clears the primes. */
    method FlipPath(count: nat, ghost path: seq<int>, ghost at: seq<nat>)
      requires Shaped() && ReadyToAugment(ledger, n)
      requires Marks(marked, n, ledger.star, ledger.prime)
      requires AlternatingRows(ledger, n, path, at)
      requires count < points.Length && PathPoints(ledger, path, points[..count + 1])
      modifies marked
      ensures Marks(marked, n, Settled(ledger, n, path).star, Settled(ledger, n, path).prime)
    {
      ghost var pts := points[..count + 1];
      PathPointsDistinct(ledger, n, path, at, pts);
      PathPointsInside(ledger, n, path, at, pts);
      assert forall c :: 0 <= c <= count ==> points[c] == pts[c];
      TogglePath(count);
      ErasePrimes();
      forall i, j | 0 <= i < n && 0 <= j < n
        ensures marked[i, j] == if (if i in path then ledger.prime[i] else ledger.star[i]) == j then Star else Blank
      {
        FlippedMark(ledger, n, path, at, pts, i, j);
      }
    }

    lemma ColumnWithoutStar(col: int)
      requires Shaped() && Marks(marked, n, ledger.star, ledger.prime)
      requires 0 <= col < n && forall i :: 0 <= i < n ==> marked[i, col] != Star
      ensures NoStarIn(ledger, col)
    {
      forall k | 0 <= k < n ensures ledger.star[k] != col {
        assert marked[k, col] != Star;
      }
    }

    /** Goes to the star in this column, then to the prime in its row. */
    method StepPath(count: nat, row: nat, ghost path: seq<int>)
      requires Shaped() && Marks(marked, n, ledger.star, ledger.prime)
      requires row < n && ledger.prime[row] >= 0 && ledger.prime[row] != ledger.star[row]
      requires count + 2 < points.Length && path != [] && forall a :: 0 <= a < |path| ==> 0 <= path[a] < n
      requires PathPoints(ledger, path, points[..count + 1])
      modifies points
      ensures PathPoints(ledger, path + [row], points[..count + 3])
    {
      ghost var pts := points[..count + 1];
      PathEnds(ledger, path, pts);
      PathPointsGrow(ledger, path, pts, row);
      points[count + 1] := Point(points[count].x, row);
      var col := FindInRow(points[count + 1].y, Prime);
      assert marked[row, ledger.prime[row]] == Prime;
      points[count + 2] := Point(col, points[count + 1].y);
      assert points[..count + 3] == pts + [Point(pts[count].x, row), Point(col, row)];
    }

    /** The star in row `row` lies in the column of the last prime of the path. */
    method StepOn(count: nat, row: nat, ghost path: seq<int>, ghost at: seq<nat>) returns (ghost at': seq<nat>)
      requires Shaped() && ReadyToAugment(ledger, n)
      requires Marks(marked, n, ledger.star, ledger.prime)
      requires AlternatingRows(ledger, n, path, at)
      requires count < points.Length && PathPoints(ledger, path, points[..count + 1])
      requires row < n && ledger.star[row] == ledger.prime[path[|path| - 1]]
      modifies points
      ensures AlternatingRows(ledger, n, path + [row], at') && at'[|at'| - 1] < at[|at| - 1]
      ensures count + 2 < points.Length && PathPoints(ledger, path + [row], points[..count + 3])
    {
      ghost var s := PathGoesOn(ledger, n, path, at, row);
      StepPath(count, row, path);
      at' := at + [s];
    }

    /** The star in the column of the last prime of the path, if there is one. */
    method FindStar(count: nat, ghost path: seq<int>, ghost at: seq<nat>) returns (row: int)
      requires Shaped() && ReadyToAugment(ledger, n)
      requires Marks(marked, n, ledger.star, ledger.prime)
      requires AlternatingRows(ledger, n, path, at)
      requires count < points.Length && PathPoints(ledger, path, points[..count + 1])
      ensures -1 <= row < n
      ensures row >= 0 ==> ledger.star[row] == ledger.prime[path[|path| - 1]]
      ensures row < 0 ==> NoStarIn(ledger, ledger.prime[path[|path| - 1]])
    {
      PathEnds(ledger, path, points[..count + 1]);
      row := FindInCol(points[count].x, Star);
      if row < 0 { ColumnWithoutStar(points[count].x); }
    }

    method StartPath(point: Point)
      requires Shaped() && ReadyToAugment(ledger, n)
      requires 0 <= point.y < n && ledger.prime[point.y] == point.x
      modifies points
      ensures PathPoints(ledger, [point.y], points[..1])
    {
      points[0] := point;
      assert points[..1] == [point];
    }

    /** Follows the alternating path from a prime in a row without a star to a column
        without a star. */
    method TracePath(point: Point) returns (count: nat, ghost path: seq<int>, ghost at: seq<nat>)
      requires Shaped() && ReadyToAugment(ledger, n)
      requires Marks(marked, n, ledger.star, ledger.prime)
      requires 0 <= point.y < n && 0 <= point.x < n
      requires |ledger.order| > 0 && ledger.prime[point.y] == point.x
      requires AlternatingRows(ledger, n, [point.y], [|ledger.order| - 1])
      modifies points
      ensures AlternatingRows(ledger, n, path, at)
      ensures NoStarIn(ledger, ledger.prime[path[|path| - 1]])
      ensures count < points.Length && PathPoints(ledger, path, points[..count + 1])
    {
      count := 0;
      StartPath(point);
      path, at := [point.y], [|ledger.order| - 1];
      var row := FindStar(count, path, at);
      while row >= 0
        invariant AlternatingRows(ledger, n, path, at)
        invariant count < points.Length && PathPoints(ledger, path, points[..count + 1])
        invariant -1 <= row < n
        invariant row >= 0 ==> ledger.star[row] == ledger.prime[path[|path| - 1]]
        invariant row < 0 ==> NoStarIn(ledger, ledger.prime[path[|path| - 1]])
        decreases row >= 0, at[|at| - 1]
      {
        at := StepOn(count, row, path, at);
        count, path := count + 2, path + [row];
        row := FindStar(count, path, at);
      }
    }

    /** Gives one more row a star and puts the solver at rest again. */
    method Augment(point: Point)
      requires Shaped() && ReadyToAugment(ledger, n)
      requires Works(dm, n, ledger.base, ledger.u, ledger.v)
      requires Marks(marked, n, ledger.star, ledger.prime)
      requires 0 <= point.y < n && 0 <= point.x < n
      requires |ledger.order| > 0 && ledger.prime[point.y] == point.x
      requires AlternatingRows(ledger, n, [point.y], [|ledger.order| - 1])
      modifies marked, points, `rowVisited, `colVisited, `ledger
      ensures AtRest()
      ensures ledger.base == old(ledger.base)
      ensures Assigned(ledger.star) == Assigned(old(ledger.star)) + 1
    {
      var count;
      ghost var path, at;
      count, path, at := TracePath(point);
      FlipPath(count, path, at);
      rowVisited := seq(n, _ => false);
      colVisited := seq(n, _ => false);
      FlipAddsOneStar(ledger, n, path, at);
      ledger := Settled(ledger, n, path);
    }

    method Run()
      requires Shaped()
      requires forall i, j :: 0 <= i < n && 0 <= j < n ==> marked[i, j] == Blank
      requires forall i :: 0 <= i < n ==> !rowVisited[i] && !colVisited[i]
      modifies dm, marked, points, `rowVisited, `colVisited, `ledger
      ensures Shaped() && Balanced(ledger, n)
      ensures ledger.base == old(Rows(dm)) && Works(dm, n, ledger.base, ledger.u, ledger.v)
      ensures |ledger.prime| == n && NoPrimes(ledger, n) && Marks(marked, n, ledger.star, ledger.prime)
      ensures if greedy then GreedyStars(ledger.base, ledger.u, ledger.star, n) else Total(ledger.star)
    {
      TrySimpleCase();
      if greedy { return; }
      var found := CheckIfOptimumIsFound();
      while !found
        invariant Searching()
        invariant ledger.base == old(Rows(dm))
        invariant NoPrimes(ledger, n)
        invariant found <==> Total(ledger.star)
        decreases n - Assigned(ledger.star)
      {
        AssignedAll(ledger.star);
        RunPhase();
        found := CheckIfOptimumIsFound();
      }
    }

    /** Whether some uncovered entry is zero. */
    ghost predicate ZeroUncovered()
      requires Shaped()
      reads this, dm
    {
      exists i, j :: 0 <= i < n && 0 <= j < n && !rowVisited[i] && !colVisited[j] && dm[i, j] == 0.0
    }

    /** Moves the potentials by the least uncovered entry, found at `point`. */
    method ShiftBy(point: Point, minVal: real)
      requires Searching() && minVal > 0.0
      requires 0 <= point.y < n && 0 <= point.x < n && !rowVisited[point.y] && !colVisited[point.x]
      requires minVal == dm[point.y, point.x]
      requires forall i, j :: 0 <= i < n && 0 <= j < n && !rowVisited[i] && !colVisited[j] ==> minVal <= dm[i, j]
      modifies dm, `ledger
      ensures Searching() && ZeroUncovered()
      ensures ledger.base == old(ledger.base) && ledger.star == old(ledger.star)
      ensures ledger.prime == old(ledger.prime) && ledger.order == old(ledger.order)
    {
      UpdateDissimilarityMatrix(minVal);
      ShiftKeepsPhase(ledger, n, rowVisited, colVisited, minVal);
      ledger := Shifted(ledger, n, rowVisited, colVisited, minVal);
      assert dm[point.y, point.x] == 0.0;
    }

    /** Writes a prime on an unmarked cell. */
    method MarkPrime(point: Point)
      requires Shaped() && |ledger.prime| == n && Marks(marked, n, ledger.star, ledger.prime)
      requires 0 <= point.y < n && 0 <= point.x < n
      requires ledger.star[point.y] != point.x && ledger.prime[point.y] == -1
      modifies marked, `ledger
      ensures ledger == WithPrime(old(ledger), point.y, point.x)
      ensures Marks(marked, n, ledger.star, ledger.prime)
    {
      marked[point.y, point.x] := Prime;
      ledger := WithPrime(ledger, point.y, point.x);
    }

    /** Primes an uncovered zero. If its row has a star, covers the row and uncovers
        the star's column; if not, flips the path that starts here. */
    method PrimeAt(point: Point) returns (flipped: bool)
      requires Searching()
      requires 0 <= point.y < n && 0 <= point.x < n && !rowVisited[point.y] && !colVisited[point.x]
      requires dm[point.y, point.x] == 0.0
      modifies marked, points, `rowVisited, `colVisited, `ledger
      ensures ledger.base == old(ledger.base)
      ensures !flipped ==> Searching() && ledger.star == old(ledger.star) && |ledger.order| == |old(ledger.order)| + 1
      ensures flipped ==> AtRest() && Assigned(ledger.star) == Assigned(old(ledger.star)) + 1
    {
      ghost var l := ledger;
      StarIsNotPrime(l, n, rowVisited, colVisited, point.y, point.x);
      MarkPrime(point);
      var col := FindInRow(point.y, Star);
      assert col == l.star[point.y] by {
        if l.star[point.y] >= 0 { assert marked[point.y, l.star[point.y]] == Star; }
      }
      if col >= 0 {
        PrimeKeepsPhase(l, n, rowVisited, colVisited, point.y, point.x);
        rowVisited := rowVisited[point.y := true];
        colVisited := colVisited[col := false];
        flipped := false;
      } else {
        LastPrimeIsReady(l, n, rowVisited, colVisited, point.y, point.x);
        Augment(point);
        flipped := true;
      }
    }

    /** One phase: shifts potentials and primes zeros until a path is flipped. Each
        round either primes one more row or makes an uncovered zero appear. */
    method RunPhase()
      requires Searching() && NoPrimes(ledger, n) && !Total(ledger.star)
      modifies dm, marked, points, `rowVisited, `colVisited, `ledger
      ensures AtRest()
      ensures ledger.base == old(ledger.base)
      ensures Assigned(ledger.star) == Assigned(old(ledger.star)) + 1
    {
      var flipped := false;
      while !flipped
        invariant ledger.base == old(ledger.base) && Shaped()
        invariant if flipped then AtRest() && Assigned(ledger.star) == Assigned(old(ledger.star)) + 1
                  else Searching() && ledger.star == old(ledger.star)
        decreases !flipped, n - |ledger.order|, !ZeroUncovered()
      {
        flipped := PhaseRound();
      }
    }

    /** One round: shifts when the least uncovered entry is not zero, else primes it. */
    method PhaseRound() returns (flipped: bool)
      requires Searching() && !Total(ledger.star)
      modifies dm, marked, points, `rowVisited, `colVisited, `ledger
      ensures ledger.base == old(ledger.base) && Shaped()
      ensures flipped ==> AtRest() && Assigned(ledger.star) == Assigned(old(ledger.star)) + 1
      ensures !flipped ==> Searching() && ledger.star == old(ledger.star)
      ensures |old(ledger.order)| < n
      ensures !flipped ==>
                || |ledger.order| == |old(ledger.order)| + 1
                || (ledger.order == old(ledger.order) && !old(ZeroUncovered()) && ZeroUncovered())
    {
      OrderIsShort(ledger, n);
      ghost var r, c := UncoveredCellExists(ledger, n, rowVisited, colVisited);
      var point := FindUncoveredMinValPos();
      var minVal := dm[point.y, point.x];
      if minVal > 0.0 {
        assert !ZeroUncovered();
        ShiftBy(point, minVal);
        flipped := false;
      } else {
        assert Reduced(ledger.base, ledger.u, ledger.v, point.y, point.x) >= 0.0;
        flipped := PrimeAt(point);
      }
    }

    /** Allocates the working state for a matrix, padded with zeros to a square. */
    method Prepare(dissimilarity: array2<real>)
      modifies this
      ensures n ==
                if dissimilarity.Length0 < dissimilarity.Length1 then dissimilarity.Length1 else dissimilarity.Length0
      ensures Shaped() && fresh(dm) && fresh(marked) && fresh(points)
      ensures Pads(Rows(dm), Rows(dissimilarity), dissimilarity.Length0, dissimilarity.Length1, n)
      ensures forall i, j :: 0 <= i < n && 0 <= j < n ==> marked[i, j] == Blank
      ensures forall i :: 0 <= i < n ==> !rowVisited[i] && !colVisited[i]
    {
      n := if dissimilarity.Length0 < dissimilarity.Length1 then dissimilarity.Length1 else dissimilarity.Length0;
      dm := new real[n, n]((i, j) => 0.0);
      marked := new Mark[n, n]((i, j) => Blank);
      points := new Point[2 * n];
      CopyIn(dissimilarity);
      rowVisited := seq(n, _ => false);
      colVisited := seq(n, _ => false);
    }

    /** Copies the input into the top left corner of the zeroed working matrix. */
    method CopyIn(dissimilarity: array2<real>)
      requires dm != dissimilarity && dm.Length0 == dm.Length1 == n
      requires dissimilarity.Length0 <= n && dissimilarity.Length1 <= n
      requires forall i, j :: 0 <= i < n && 0 <= j < n ==> dm[i, j] == 0.0
      modifies dm
      ensures Pads(Rows(dm), Rows(dissimilarity), dissimilarity.Length0, dissimilarity.Length1, n)
    {
      forall i, j | 0 <= i < dissimilarity.Length0 && 0 <= j < dissimilarity.Length1 {
        dm[i, j] := dissimilarity[i, j];
      }
    }

    /** Solves the assignment problem for a matrix of any shape: every row gets its
        column, or -1 when there is none for it. */
    method Solve(dissimilarity: array2<real>) returns (results: seq<int>)
      modifies this
      ensures IsAssignment(results, dissimilarity.Length0, dissimilarity.Length1)
      ensures !greedy ==> Optimal(Rows(dissimilarity), results, dissimilarity.Length0, dissimilarity.Length1)
      ensures greedy ==> Greedy(Rows(dissimilarity), results, dissimilarity.Length0, dissimilarity.Length1)
    {
      ghost var m := Rows(dissimilarity);
      Prepare(dissimilarity);
      Run();
      results := ReadStars(dissimilarity.Length0, dissimilarity.Length1);
      CropIsAssignment(ledger.star, dissimilarity.Length0, dissimilarity.Length1, n);
      if !greedy {
        CertifiedOptimal(ledger.base, m, dissimilarity.Length0, dissimilarity.Length1, n,
          ledger.u, ledger.v, ledger.star);
      } else {
        assert GreedyWith(m, results, dissimilarity.Length0, dissimilarity.Length1, ledger.base, ledger.u, ledger.star);
      }
    }

    /** Reads the starred column of each real row; stars in padding columns are dropped. */
    method ReadStars(rows: nat, cols: nat) returns (results: seq<int>)
      requires Shaped() && rows <= n && cols <= n
      requires |ledger.star| == n && Marks(marked, n, ledger.star, ledger.prime)
      ensures results == Cropped(ledger.star, rows, cols)
    {
      results := seq(rows, _ => -1);
      for i := 0 to rows
        invariant |results| == rows
        invariant forall k :: 0 <= k < i ==> results[k] == Cropped(ledger.star, rows, cols)[k]
        invariant forall k :: i <= k < rows ==> results[k] == -1
      {
        for j := 0 to cols
          invariant |results| == rows
          invariant forall k :: 0 <= k < rows && k != i ==>
                      results[k] == if k < i then Cropped(ledger.star, rows, cols)[k] else -1
          invariant results[i] == if 0 <= ledger.star[i] < j then ledger.star[i] else -1
        {
          if marked[i, j] == Star { results := results[i := j]; }
        }
      }
    }
  }
}
