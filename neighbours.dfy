/** Positions on the board, the clipped Moore neighbourhood of a cell as
    `iter_neighbours` enumerates it, and the mine count `neighbouring_mines`
    derives from it. */
module Neighbours {

  /** A cell address (column, row); Rust's `(usize, usize)`. */
  type Position = (nat, nat)

  /** Rust's `u8`, the type of an adjacent-mine count. */
  newtype u8 = x: int | 0 <= x < 256

  predicate InGrid(width: nat, height: nat, p: Position)
  {
    p.0 < width && p.1 < height
  }

  /** Every position of a `width` x `height` grid. */
  function Grid(width: nat, height: nat): (g: set<Position>)
    ensures forall p :: p in g <==> InGrid(width, height, p)
  {
    set x: nat, y: nat | x < width && y < height :: (x, y)
  }

  /** The positions of column `x` above row `height`. */
  function Column(x: nat, height: nat): (c: set<Position>)
    ensures forall p :: p in c <==> p.0 == x && p.1 < height
  {
    set y: nat | y < height :: (x, y)
  }

  lemma {:induction false} ColumnSize(x: nat, height: nat)
    ensures |Column(x, height)| == height
  {
    if height > 0 {
      ColumnSize(x, height - 1);
      assert Column(x, height) == Column(x, height - 1) + {(x, height - 1)};
    }
  }

  /** A grid is the grid one column narrower plus its last column. */
  lemma GridSplit(width: nat, height: nat)
    requires width > 0
    ensures Grid(width, height) == Grid(width - 1, height) + Column(width - 1, height)
    ensures Grid(width - 1, height) * Column(width - 1, height) == {}
  {
    var left, right := Grid(width - 1, height), Column(width - 1, height);
    assert forall p :: p in Grid(width, height) <==> p in left || p in right;
    assert forall p :: p in left ==> p !in right;
  }

  /** A grid holds exactly `width * height` positions, so that many mines fit. */
  lemma {:induction false} GridSize(width: nat, height: nat)
    ensures |Grid(width, height)| == width * height
  {
    if width > 0 {
      GridSize(width - 1, height);
      ColumnSize(width - 1, height);
      GridSplit(width, height);
      var left, right := Grid(width - 1, height), Column(width - 1, height);
      assert |left + right| == |left| + |right|;
      assert (width - 1) * height + height == width * height;
    }
  }

  /** Taking away a subset leaves the difference of the sizes. */
  lemma SubsetDifference(a: set<Position>, b: set<Position>)
    requires b <= a
    ensures |a - b| == |a| - |b|
  {
    assert a == (a - b) + b;
    assert (a - b) * b == {};
  }

  // ---------------------------------------------------------------------------
  // The clipped ranges of `iter_neighbours`
  // ---------------------------------------------------------------------------

  function Max(a: nat, b: nat): nat { if a < b then b else a }

  function Min(a: nat, b: nat): nat { if a < b then a else b }

  /** The first index of the range around `c`: `c.max(1) - 1`. */
  function Below(c: nat): nat
  {
    Max(c, 1) - 1
  }

  /** The last index of the range around `c`: `(c + 1).min(extent - 1)`. */
  function Above(c: nat, extent: nat): nat
    requires extent >= 1
  {
    Min(c + 1, extent - 1)
  }

  /** The inclusive range `lo..=hi`, in increasing order. */
  function Span(lo: nat, hi: nat): (r: seq<nat>)
    ensures |r| == if lo <= hi then hi - lo + 1 else 0
    ensures forall k :: 0 <= k < |r| ==> r[k] == lo + k
    decreases hi - lo
  {
    if lo > hi then [] else [lo] + Span(lo + 1, hi)
  }

  lemma SpanMembership(lo: nat, hi: nat, k: nat)
    ensures k in Span(lo, hi) <==> lo <= k <= hi
  {
    var r := Span(lo, hi);
    if lo <= k <= hi {
      assert r[k - lo] == k;
    }
  }

  /** How many columns (or rows) the clipped range around an in-grid `c`
      covers: `c` itself, plus one on each side that is inside the grid. */
  function Extent(c: nat, extent: nat): (n: nat)
    ensures 1 <= n <= 3
  {
    (if 0 < c then 1 else 0) + 1 + (if c + 1 < extent then 1 else 0)
  }

  // ---------------------------------------------------------------------------
  // Sequences of positions
  // ---------------------------------------------------------------------------

  /** Lexicographic order on positions: column first, then row. */
  predicate Before(p: Position, q: Position)
  {
    p.0 < q.0 || (p.0 == q.0 && p.1 < q.1)
  }

  /** Strictly increasing in `Before`, hence free of repetitions. */
  predicate Sorted(s: seq<Position>)
  {
    forall a, b :: 0 <= a < b < |s| ==> Before(s[a], s[b])
  }

  predicate Distinct(s: seq<Position>)
  {
    forall a, b :: 0 <= a < b < |s| ==> s[a] != s[b]
  }

  function Elements(s: seq<Position>): set<Position>
  {
    set p | p in s
  }

  lemma SortedHead(s: seq<Position>, q: Position)
    requires Sorted(s) && |s| > 0 && q in s[1..]
    ensures Before(s[0], q)
  {
    var k :| 0 <= k < |s[1..]| && s[1..][k] == q;
    assert s[k + 1] == q;
  }

  lemma SortedConcat(s: seq<Position>, t: seq<Position>)
    requires Sorted(s) && Sorted(t)
    requires forall u, v :: u in s && v in t ==> Before(u, v)
    ensures Sorted(s + t)
  {
    var st := s + t;
    forall a, b | 0 <= a < b < |st| ensures Before(st[a], st[b]) {
      if b < |s| {
        assert st[a] == s[a] && st[b] == s[b];
      } else if a >= |s| {
        assert st[a] == t[a - |s|] && st[b] == t[b - |s|];
      } else {
        assert st[a] == s[a] && st[b] == t[b - |s|];
        assert st[a] in s && st[b] in t;
      }
    }
  }

  /** A repetition-free sequence has as many elements as its set. */
  lemma {:induction false} DistinctLength(s: seq<Position>)
    requires Distinct(s)
    ensures |Elements(s)| == |s|
  {
    if s != [] {
      DistinctLength(s[1..]);
      assert Elements(s) == {s[0]} + Elements(s[1..]);
      assert s[0] !in Elements(s[1..]) by {
        forall k | 0 <= k < |s[1..]| ensures s[1..][k] != s[0] {
          assert s[1..][k] == s[k + 1];
        }
      }
    }
  }

  /** `(i, j)` for every `j` of `js`: the inner `map(move |j| (i, j))`. */
  function Pairs(i: nat, js: seq<nat>): (r: seq<Position>)
    ensures |r| == |js|
    ensures forall k :: 0 <= k < |r| ==> r[k] == (i, js[k])
  {
    seq(|js|, k requires 0 <= k < |js| => (i, js[k]))
  }

  /** `xs.flat_map(|i| js.map(|j| (i, j)))`: every pair, column-major. */
  function Pairings(xs: seq<nat>, js: seq<nat>): (r: seq<Position>)
    ensures |r| == |xs| * |js|
    ensures forall p :: p in r <==> p.0 in xs && p.1 in js
    ensures Increasing(xs) && Increasing(js) ==> Sorted(r)
  {
    if xs == [] then []
    else
      var head, tail := Pairs(xs[0], js), Pairings(xs[1..], js);
      assert |head + tail| == |js| + (|xs| - 1) * |js| == |xs| * |js|;
      assert forall p :: p in head <==> p.0 == xs[0] && p.1 in js by {
        forall p: Position | p in head ensures p.1 in js {
          var k :| 0 <= k < |head| && head[k] == p;
          assert js[k] == p.1;
        }
        forall p: Position | p.0 == xs[0] && p.1 in js ensures p in head {
          var k :| 0 <= k < |js| && js[k] == p.1;
          assert head[k] == p;
        }
      }
      assert Increasing(xs) && Increasing(js) ==> Sorted(head + tail) by {
        if Increasing(xs) && Increasing(js) {
          forall u, v | u in head && v in tail ensures Before(u, v) {
            var k :| 0 <= k < |xs[1..]| && xs[1..][k] == v.0;
            assert xs[k + 1] == v.0;
          }
          SortedConcat(head, tail);
        }
      }
      head + tail
  }

  predicate Increasing(s: seq<nat>)
  {
    forall a, b :: 0 <= a < b < |s| ==> s[a] < s[b]
  }

  /** `filter(move |&p| p != q)`. */
  function Without(s: seq<Position>, q: Position): (r: seq<Position>)
    ensures forall p :: p in r <==> p in s && p != q
    ensures |r| <= |s|
    ensures Sorted(s) ==> Sorted(r)
  {
    if s == [] then []
    else
      var tail := Without(s[1..], q);
      assert Sorted(s) ==> Sorted([s[0]] + tail) by {
        if Sorted(s) {
          forall v | v in tail ensures Before(s[0], v) {
            SortedHead(s, v);
          }
          SortedConcat([s[0]], tail);
        }
      }
      if s[0] == q then tail else [s[0]] + tail
  }

  /** `filter(|p| self.mines.contains(p))`. */
  function AmongMines(s: seq<Position>, mines: set<Position>): (r: seq<Position>)
    ensures forall p :: p in r <==> p in s && p in mines
    ensures |r| <= |s|
    ensures Sorted(s) ==> Sorted(r)
  {
    if s == [] then []
    else
      var tail := AmongMines(s[1..], mines);
      assert Sorted(s) ==> Sorted([s[0]] + tail) by {
        if Sorted(s) {
          forall v | v in tail ensures Before(s[0], v) {
            SortedHead(s, v);
          }
          SortedConcat([s[0]], tail);
        }
      }
      if s[0] in mines then [s[0]] + tail else tail
  }

  // ---------------------------------------------------------------------------
  // The neighbourhood
  // ---------------------------------------------------------------------------

  /** `p` is one of the up to eight cells around `pos` inside the grid:
      at Chebyshev distance exactly one, never wrapping round an edge. */
  predicate IsNeighbour(width: nat, height: nat, pos: Position, p: Position)
  {
    InGrid(width, height, p) && p != pos &&
    pos.0 <= p.0 + 1 && p.0 <= pos.0 + 1 &&
    pos.1 <= p.1 + 1 && p.1 <= pos.1 + 1
  }

  predicate OnBorder(width: nat, height: nat, p: Position)
  {
    p.0 == 0 || p.0 + 1 == width || p.1 == 0 || p.1 + 1 == height
  }

  predicate InCorner(width: nat, height: nat, p: Position)
  {
    (p.0 == 0 || p.0 + 1 == width) && (p.1 == 0 || p.1 + 1 == height)
  }

  /** The clipped range around `c` holds exactly the indices inside
      `0..extent` at distance at most one from `c`. */
  lemma ClippedSpan(c: nat, extent: nat)
    requires extent >= 1
    ensures forall i: nat :: i in Span(Below(c), Above(c, extent)) <==> i < extent && c <= i + 1 && i <= c + 1
    ensures |Span(Below(c), Above(c, extent))| <= 3
    ensures c < extent ==> |Span(Below(c), Above(c, extent))| == Extent(c, extent)
    ensures extent <= c ==> |Span(Below(c), Above(c, extent))| <= 1
  {
    forall i: nat ensures i in Span(Below(c), Above(c, extent)) <==> Below(c) <= i <= Above(c, extent) {
      SpanMembership(Below(c), Above(c, extent), i);
    }
  }

  /** `iter_neighbours`: the cells of the clipped 3 x 3 block around `pos`,
      column by column, without `pos` itself. The grid must have a row and a
      column, or `width - 1` underflows. */
  function IterNeighbours(width: nat, height: nat, pos: Position): (r: seq<Position>)
    requires width >= 1 && height >= 1
    ensures forall p :: p in r <==> IsNeighbour(width, height, pos, p)
    ensures Sorted(r)
    ensures |r| <= 8
    ensures InGrid(width, height, pos) ==> |r| + 1 == Extent(pos.0, width) * Extent(pos.1, height)
  {
    var xs, ys := Span(Below(pos.0), Above(pos.0, width)), Span(Below(pos.1), Above(pos.1, height));
    ClippedSpan(pos.0, width);
    ClippedSpan(pos.1, height);
    BlockSize(width, height, pos);
    var block := Pairings(xs, ys);
    var r := Without(block, pos);
    assert InGrid(width, height, pos) ==> |r| + 1 == |block| by {
      if InGrid(width, height, pos) {
        assert pos.0 in xs && pos.1 in ys;
        DistinctLength(block);
        DistinctLength(r);
        assert Elements(r) == Elements(block) - {pos};
      }
    }
    r
  }

  /** The clipped block around `pos` has at most 9 cells, and at most 3 when
      `pos` lies off the grid, where one of its ranges has at most one index. */
  lemma BlockSize(width: nat, height: nat, pos: Position)
    requires width >= 1 && height >= 1
    ensures var n := |Span(Below(pos.0), Above(pos.0, width))| * |Span(Below(pos.1), Above(pos.1, height))|;
      n <= 9 && (!InGrid(width, height, pos) ==> n <= 3)
  {
    var a, b := |Span(Below(pos.0), Above(pos.0, width))|, |Span(Below(pos.1), Above(pos.1, height))|;
    ClippedSpan(pos.0, width);
    ClippedSpan(pos.1, height);
    assert a * b <= 3 * b;
    if pos.0 >= width {
      assert a * b <= 1 * b;
    } else if pos.1 >= height {
      assert a * b <= a * 1;
    }
  }

  /** The mines around `pos`, by the definition of a neighbour. */
  function MinesAround(width: nat, height: nat, mines: set<Position>, pos: Position): set<Position>
  {
    set p | p in mines && IsNeighbour(width, height, pos, p)
  }

  /** `neighbouring_mines`: how many neighbours of `pos` are mines, cast to
      `u8` as the source does (`as u8` keeps the value modulo 256). */
  function NeighbouringMines(width: nat, height: nat, mines: set<Position>, pos: Position): (r: u8)
    requires width >= 1 && height >= 1
    ensures r as int == |MinesAround(width, height, mines, pos)|
    ensures r as int <= |IterNeighbours(width, height, pos)|
  {
    var around := AmongMines(IterNeighbours(width, height, pos), mines);
    DistinctLength(around);
    assert Elements(around) == MinesAround(width, height, mines, pos) by {
      assert forall p :: p in around <==> p in mines && IsNeighbour(width, height, pos, p);
    }
    (|around| % 256) as u8
  }

  /** The neighbourhood of an in-grid cell has at most eight cells, at most
      five on an edge and at most three in a corner. */
  lemma NeighbourBounds(width: nat, height: nat, pos: Position)
    requires InGrid(width, height, pos)
    ensures |IterNeighbours(width, height, pos)| <= 8
    ensures OnBorder(width, height, pos) ==> |IterNeighbours(width, height, pos)| <= 5
    ensures InCorner(width, height, pos) ==> |IterNeighbours(width, height, pos)| <= 3
  {
    var ex, ey := Extent(pos.0, width), Extent(pos.1, height);
    assert ex * ey <= 3 * ey <= 9;
    if pos.0 == 0 || pos.0 + 1 == width {
      assert ex <= 2;
      assert ex * ey <= 2 * ey;
    }
    if pos.1 == 0 || pos.1 + 1 == height {
      assert ey <= 2;
      assert ex * ey <= ex * 2;
    }
  }

  /** The count `neighbouring_mines` returns is at most 8 for an in-grid
      cell (5 on an edge, 3 in a corner), so `as u8` never truncates it. */
  lemma NeighbouringMinesBounds(width: nat, height: nat, mines: set<Position>, pos: Position)
    requires InGrid(width, height, pos)
    ensures NeighbouringMines(width, height, mines, pos) <= 8
    ensures OnBorder(width, height, pos) ==> NeighbouringMines(width, height, mines, pos) <= 5
    ensures InCorner(width, height, pos) ==> NeighbouringMines(width, height, mines, pos) <= 3
  {
    NeighbourBounds(width, height, pos);
  }
}
