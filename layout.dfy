/** Grid layout of the linked-list canvas: where node number `index` is drawn,
    how many nodes fit on one row of a canvas of a given width, and the
    connector segments drawn from a node to its successor.

    Every quantity is an integer number of pixels. Dafny's `/` and `%` are
    Euclidean. With a positive divisor, `/` is JavaScript's `Math.floor(a / b)` for
    a dividend of either sign; with a negative divisor it is not, so GetRow writes
    that case out. For a non-negative dividend, `%` is JavaScript's `a % b`
    whatever the sign of the divisor. */
module Layout {

  const NODE_RADIUS: int := 60
  const OFFSET: int := 10
  const OFFSET_BETWEEN_NODES: int := 100
  const TOTAL_NODE_WIDTH: int := NODE_RADIUS + OFFSET_BETWEEN_NODES

  /** Half of NODE_RADIUS: the radius that the circles are actually drawn with. */
  const HALF_RADIUS: int := NODE_RADIUS / 2

  datatype Position = Position(x: int, y: int)

  /** A straight stroke of the connector, from `start` to `end`. */
  datatype Segment = Segment(start: Position, end: Position)

  /** The centre of the circle in grid cell (row, col). */
  function NodePosition(row: int, col: int): (p: Position)
    ensures p.x == 40 + 160 * col
    ensures p.y == 70 + 160 * row
  {
    var x := OFFSET + NODE_RADIUS * col + col * OFFSET_BETWEEN_NODES + NODE_RADIUS / 2;
    var y := OFFSET + row * OFFSET_BETWEEN_NODES + NODE_RADIUS * (row + 1);
    Position(x, y)
  }

  /** `Math.floor(index / nodesPerRow)`. For a negative divisor the floor of the real
      quotient is the Euclidean quotient of the negated operands. A zero divisor
      gives a non-finite number in JavaScript and is excluded here. */
  function GetRow(index: nat, nodesPerRow: int): (row: int)
    requires nodesPerRow != 0
    ensures nodesPerRow > 0 ==> 0 <= row && row * nodesPerRow <= index < (row + 1) * nodesPerRow
    ensures nodesPerRow < 0 ==> row <= 0 && row * nodesPerRow >= index > (row + 1) * nodesPerRow
  {
    if nodesPerRow > 0 then index / nodesPerRow else (-(index as int)) / (-nodesPerRow)
  }

  /** `index % nodesPerRow`. JavaScript's remainder takes the sign of the dividend,
      which is non-negative here, so it is the Euclidean remainder. */
  function GetCol(index: nat, nodesPerRow: int): (col: int)
    requires nodesPerRow != 0
    ensures 0 <= col < if nodesPerRow > 0 then nodesPerRow else -nodesPerRow
  {
    index % nodesPerRow
  }

  /** `Math.floor((width - 2 * OFFSET - NODE_RADIUS) / TOTAL_NODE_WIDTH) + 1`. */
  function NodesPerRow(width: int): (n: int)
    ensures n >= 1 <==> width >= 2 * OFFSET + NODE_RADIUS
    ensures n == 0 <==> -(TOTAL_NODE_WIDTH - 2 * OFFSET - NODE_RADIUS) <= width < 2 * OFFSET + NODE_RADIUS
  {
    (width - 2 * OFFSET - NODE_RADIUS) / TOTAL_NODE_WIDTH + 1
  }

  /** The strokes `drawLineToNextNode` draws from the node at `index`, placed in
      cell (row, col), to its successor: nothing when there is no successor, one
      horizontal segment when the successor is on the same row, and otherwise an
      elbow of three segments (down, across, down). */
  function LineToNextNode(hasNext: bool, index: nat, row: int, col: int, width: int): (line: seq<Segment>)
    requires hasNext ==> NodesPerRow(width) != 0
    ensures line == [] <==> !hasNext
    ensures hasNext ==> (|line| == 1 <==> row == GetRow(index + 1, NodesPerRow(width)))
    ensures hasNext ==> (|line| == 3 <==> row != GetRow(index + 1, NodesPerRow(width)))
    ensures forall k :: 0 <= k < |line| ==>
              line[k].start.x == line[k].end.x || line[k].start.y == line[k].end.y
    ensures forall k :: 0 < k < |line| ==> line[k].start == line[k - 1].end
  {
    if !hasNext then []
    else
      var nodesPerRow := NodesPerRow(width);
      var p := NodePosition(row, col);
      var nextRow := GetRow(index + 1, nodesPerRow);
      var nextCol := GetCol(index + 1, nodesPerRow);
      var q := NodePosition(nextRow, nextCol);
      if row == nextRow then
        [Segment(Position(p.x + HALF_RADIUS, p.y), Position(q.x - HALF_RADIUS, q.y))]
      else
        var calcYpos := p.y + (OFFSET_BETWEEN_NODES + NODE_RADIUS) / 2;
        [ Segment(Position(p.x, p.y + HALF_RADIUS), Position(p.x, calcYpos)),
          Segment(Position(p.x, calcYpos), Position(q.x, calcYpos)),
          Segment(Position(q.x, calcYpos), Position(q.x, q.y - HALF_RADIUS)) ]
  }

  // ---------------------------------------------------------------------------
  // Properties of the grid
  // ---------------------------------------------------------------------------

  /** Row and column are the quotient and remainder of the index. */
  lemma Decompose(index: nat, nodesPerRow: int)
    requires nodesPerRow >= 1
    ensures GetRow(index, nodesPerRow) * nodesPerRow + GetCol(index, nodesPerRow) == index
    ensures 0 <= GetCol(index, nodesPerRow) < nodesPerRow
  {
  }

  /** Centres move right with the column and down with the row, and distinct
      cells have distinct centres. */
  lemma PositionMonotone(row1: int, col1: int, row2: int, col2: int)
    ensures col1 < col2 ==> NodePosition(row1, col1).x < NodePosition(row2, col2).x
    ensures row1 < row2 ==> NodePosition(row1, col1).y < NodePosition(row2, col2).y
    ensures NodePosition(row1, col1) == NodePosition(row2, col2) <==> row1 == row2 && col1 == col2
  {
  }

  /** Two different indices are laid out at two different centres. */
  lemma {:induction false} LayoutInjective(i: nat, j: nat, nodesPerRow: int)
    requires nodesPerRow >= 1
    requires i != j
    ensures NodePosition(GetRow(i, nodesPerRow), GetCol(i, nodesPerRow))
         != NodePosition(GetRow(j, nodesPerRow), GetCol(j, nodesPerRow))
  {
    Decompose(i, nodesPerRow);
    Decompose(j, nodesPerRow);
    PositionMonotone(GetRow(i, nodesPerRow), GetCol(i, nodesPerRow),
                     GetRow(j, nodesPerRow), GetCol(j, nodesPerRow));
  }

  /** A wider canvas never holds fewer nodes per row. */
  lemma NodesPerRowMonotone(width1: int, width2: int)
    requires width1 <= width2
    ensures NodesPerRow(width1) <= NodesPerRow(width2)
  {
    DivMonotone(width1 - 80, width2 - 80, 160);
  }

  lemma DivMonotone(a: int, b: int, d: int)
    requires a <= b && d > 0
    ensures a / d <= b / d
  {
    if a / d > b / d {
      assert (b / d + 1) * d <= (a / d) * d by {
        MulMonotone(b / d + 1, a / d, d);
      }
      assert false;
    }
  }

  lemma MulMonotone(a: int, b: int, d: int)
    requires a <= b && d > 0
    ensures a * d <= b * d
  {
  }

  /** A column fits on the canvas, its circle's right edge at most OFFSET from the
      right border, exactly when it is one of the first NodesPerRow(width) columns:
      every row that is drawn fits, and one more column would not. */
  lemma {:induction false} ColumnFits(width: int, row: int, col: nat)
    ensures col < NodesPerRow(width)
        <==> NodePosition(row, col).x + HALF_RADIUS <= width - OFFSET
  {
    var q := (width - 80) / 160;
    assert q * 160 <= width - 80 < (q + 1) * 160;
    if col < NodesPerRow(width) {
      MulMonotone(col, q, 160);
    } else {
      MulMonotone(q + 1, col, 160);
    }
  }

  /** The position of index + 1 in terms of the position of index: the next column
      of the same row, or, after the last column, the first column of the next row. */
  lemma {:induction false} NextCell(index: nat, nodesPerRow: int)
    requires nodesPerRow >= 1
    ensures var row, col := GetRow(index, nodesPerRow), GetCol(index, nodesPerRow);
            if col < nodesPerRow - 1 then
              GetRow(index + 1, nodesPerRow) == row && GetCol(index + 1, nodesPerRow) == col + 1
            else
              GetRow(index + 1, nodesPerRow) == row + 1 && GetCol(index + 1, nodesPerRow) == 0
  {
    var row, col := GetRow(index, nodesPerRow), GetCol(index, nodesPerRow);
    Decompose(index, nodesPerRow);
    Decompose(index + 1, nodesPerRow);
    var row', col' := GetRow(index + 1, nodesPerRow), GetCol(index + 1, nodesPerRow);
    if col < nodesPerRow - 1 {
      QuotientUnique(index + 1, nodesPerRow, row, col + 1, row', col');
    } else {
      assert index + 1 == (row + 1) * nodesPerRow + 0;
      QuotientUnique(index + 1, nodesPerRow, row + 1, 0, row', col');
    }
  }

  lemma QuotientUnique(n: int, d: int, q1: int, r1: int, q2: int, r2: int)
    requires d >= 1
    requires n == q1 * d + r1 && 0 <= r1 < d
    requires n == q2 * d + r2 && 0 <= r2 < d
    ensures q1 == q2 && r1 == r2
  {
    if q1 < q2 {
      MulMonotone(q1 + 1, q2, d);
      assert false;
    } else if q2 < q1 {
      MulMonotone(q2 + 1, q1, d);
      assert false;
    }
  }

  // ---------------------------------------------------------------------------
  // Properties of the connectors
  // ---------------------------------------------------------------------------

  /** Within a row, the connector is one horizontal stroke between the two circles'
      facing edges, of length exactly OFFSET_BETWEEN_NODES. */
  lemma {:induction false} ConnectorSameRow(index: nat, width: int)
    requires NodesPerRow(width) >= 1
    requires GetRow(index + 1, NodesPerRow(width)) == GetRow(index, NodesPerRow(width))
    ensures var npr := NodesPerRow(width);
            var row, col := GetRow(index, npr), GetCol(index, npr);
            var p, q := NodePosition(row, col), NodePosition(row, col + 1);
            GetCol(index + 1, npr) == col + 1 &&
            LineToNextNode(true, index, row, col, width)
              == [Segment(Position(p.x + HALF_RADIUS, p.y), Position(q.x - HALF_RADIUS, p.y))] &&
            (q.x - HALF_RADIUS) - (p.x + HALF_RADIUS) == OFFSET_BETWEEN_NODES
  {
    NextCell(index, NodesPerRow(width));
  }

  /** At a row break the node is in the last column, its successor in column 0 of
      the next row, and the elbow's horizontal stroke lies strictly below the
      source circle and strictly above the target circle. */
  lemma {:induction false} ConnectorRowBreak(index: nat, width: int)
    requires NodesPerRow(width) >= 1
    requires GetRow(index + 1, NodesPerRow(width)) != GetRow(index, NodesPerRow(width))
    ensures var npr := NodesPerRow(width);
            var row, col := GetRow(index, npr), GetCol(index, npr);
            var p, q := NodePosition(row, col), NodePosition(row + 1, 0);
            var calcYpos := p.y + (OFFSET_BETWEEN_NODES + NODE_RADIUS) / 2;
            col == npr - 1 &&
            GetRow(index + 1, npr) == row + 1 && GetCol(index + 1, npr) == 0 &&
            LineToNextNode(true, index, row, col, width)
              == [ Segment(Position(p.x, p.y + HALF_RADIUS), Position(p.x, calcYpos)),
                   Segment(Position(p.x, calcYpos), Position(q.x, calcYpos)),
                   Segment(Position(q.x, calcYpos), Position(q.x, q.y - HALF_RADIUS)) ] &&
            calcYpos == p.y + 80 &&
            p.y + HALF_RADIUS < calcYpos < q.y - HALF_RADIUS
  {
    NextCell(index, NodesPerRow(width));
  }

  /** For a canvas holding at least one node per row, the connector from node
      `index` is a chain of strokes, each starting where the previous one ended, that
      leaves the edge of that node's circle and arrives on the edge of the
      successor's circle. */
  lemma {:induction false} ConnectorJoinsCircles(index: nat, width: int)
    requires NodesPerRow(width) >= 1
    ensures var npr := NodesPerRow(width);
            var row, col := GetRow(index, npr), GetCol(index, npr);
            var p := NodePosition(row, col);
            var q := NodePosition(GetRow(index + 1, npr), GetCol(index + 1, npr));
            var line := LineToNextNode(true, index, row, col, width);
            |line| > 0 &&
            OnCircle(line[0].start, p) &&
            OnCircle(line[|line| - 1].end, q) &&
            forall k :: 0 < k < |line| ==> line[k].start == line[k - 1].end
  {
    var npr := NodesPerRow(width);
    if GetRow(index + 1, npr) == GetRow(index, npr) {
      ConnectorSameRow(index, width);
    } else {
      ConnectorRowBreak(index, width);
    }
  }

  /** `point` is one of the four extreme points (left, right, top, bottom) of the
      circle of radius HALF_RADIUS around `centre`. */
  predicate OnCircle(point: Position, centre: Position) {
    (point.y == centre.y && (point.x == centre.x - HALF_RADIUS || point.x == centre.x + HALF_RADIUS)) ||
    (point.x == centre.x && (point.y == centre.y - HALF_RADIUS || point.y == centre.y + HALF_RADIUS))
  }
}
