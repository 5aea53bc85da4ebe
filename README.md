# Linked-list visualizer: layout and list model

This project models the core of an Angular component that draws a singly linked
list on a canvas. Nodes are circles laid out row by row, and each node is joined
to its successor by a connector. The model covers two parts.

- **Grid layout** (module `Layout`, `layout.dfy`). These are the component's
  pixel computations as pure integer functions:
  - `NodePosition` is `getNodePositions`.
  - `GetRow` and `GetCol` map a list index to a grid cell.
  - `NodesPerRow` says how many nodes fit on a row of a canvas of a given width.
  - `LineToNextNode` gives the strokes `drawLineToNextNode` passes to the canvas.
    On the same row that is one horizontal segment. At a row break it is a
    three-segment elbow.
- **The list** (modules `Nodes`, `node.dfy`, and `LinkedList`, `linked_list.dfy`).
  - `Node` is a class with the fields `val` and `next`.
  - `LinkedListComponent` is a class with the list's `head` and the append
    counter `value`, which starts at 1. A ghost sequence `nodes` holds the chain
    of nodes in list order. `Valid()` says this chain is acyclic, ends at a node
    with no `next`, and starts at `head`.
  - `AddNode` walks to the tail in a loop, links a new node holding the counter,
    and increments the counter.
  - `DrawCanvas(width)` is the traversal loop of the redraw. It returns, for each
    node in list order, its value, its centre and its connector strokes.

JavaScript's `Math.floor(a / b)` and `%` are written out explicitly.

- Dafny's `/` is Euclidean. It agrees with `Math.floor` for a positive divisor but
  not for a negative one. `GetRow` handles the negative case separately. This case
  arises for widths below -80.
- `getNodesPerRow()` is 0 for widths 1 to 79, and also from -80 to 0. On such a
  narrow canvas the division by zero makes every coordinate non-finite and no node
  is drawn. The model follows the code: `NodesPerRow` states the exact range, and
  each node of such a frame is recorded as `NotFinite(val)`.

Inputs that the component reads from the browser are parameters. The canvas width
(`window.innerWidth - 20`) is the `width` argument of `DrawCanvas`.

## Model

| member | source | states |
|---|---|---|
| `Layout.NodePosition` | src/app/linked-list/linked-list.component.ts:105-117 | With the constants 60, 10, 100 (so half radius 30, node width 160), the centre of cell (row, col) is x = 40 + 160·col, y = 70 + 160·row |
| `Layout.GetRow` | src/app/linked-list/linked-list.component.ts:119-121 | The row is the floor of index / nodesPerRow. For a positive divisor it is the row whose index range [row·n, (row+1)·n) contains the index. The negative divisor is handled too |
| `Layout.GetCol` | src/app/linked-list/linked-list.component.ts:123-125 | The column of a non-negative index lies in [0, \|nodesPerRow\|) |
| `Layout.NodesPerRow` | src/app/linked-list/linked-list.component.ts:127-133 | Nodes per row is ≥ 1 exactly when width ≥ 80, and 0 exactly when -80 ≤ width < 80 |
| `Layout.LineToNextNode` | src/app/linked-list/linked-list.component.ts:135-170 | The strokes of lines 154-166. There are none without a successor. There is one when the successor is on the same row and three at a row break. Every stroke is horizontal or vertical, and each starts where the previous one ended. Its geometry is stated in `ConnectorSameRow`, `ConnectorRowBreak` and `ConnectorJoinsCircles` |
| `Layout.Decompose` | src/app/linked-list/linked-list.component.ts:119-125 | For nodesPerRow ≥ 1, row·nodesPerRow + col == index and 0 ≤ col < nodesPerRow |
| `Layout.PositionMonotone` | src/app/linked-list/linked-list.component.ts:105-117 | x strictly increases with the column, y strictly increases with the row, and two cells have the same centre iff they are the same cell |
| `Layout.LayoutInjective` | src/app/linked-list/linked-list.component.ts:105-125 | For nodesPerRow ≥ 1, two different indices get two different centres |
| `Layout.NodesPerRowMonotone` | src/app/linked-list/linked-list.component.ts:127-133 | A wider canvas never has fewer nodes per row |
| `Layout.ColumnFits` | src/app/linked-list/linked-list.component.ts:105-133 | A column's circle has its right edge x + 30 ≤ width − 10 iff the column is < NodesPerRow(width). So every drawn row fits, and one more column would not |
| `Layout.NextCell` | src/app/linked-list/linked-list.component.ts:146-147 | Index + 1 is in the next column of the same row. After the last column it is in column 0 of the next row |
| `Layout.ConnectorSameRow` | src/app/linked-list/linked-list.component.ts:154-156 | When the successor is on the same row, it is in column col + 1. The connector is one horizontal segment from x + 30 to nextX − 30 at height y, of length exactly 100 |
| `Layout.ConnectorRowBreak` | src/app/linked-list/linked-list.component.ts:157-166 | At a row break the node is in the last column and the successor is at (row + 1, 0). The connector is the three-segment elbow, and its mid-height y + 80 lies strictly between y + 30 and nextY − 30 |
| `Layout.ConnectorJoinsCircles` | src/app/linked-list/linked-list.component.ts:141-167 | The connector's segments form a chain. It starts on the node's circle and ends on the successor's circle |
| `Nodes.Node.constructor` | src/classes/node.ts:5-8 | `new Node()` holds val 0 and no next. `new Node(v, n)` holds exactly v and n. No existing node is changed |
| `LinkedList.LinkedListComponent.constructor` | src/app/linked-list/linked-list.component.ts:34-36 | The component starts with no head, an empty valid list, and value 1 |
| `LinkedList.LinkedListComponent.AddNode` | src/app/linked-list/linked-list.component.ts:201-216 | On an acyclic list the walk to the tail terminates. The list stays acyclic and its values become old values + [old value], and value goes up by 1. Existing nodes keep their val, and only the old tail's next changes. head is unchanged for a non-empty list and is the new node for an empty one |
| `LinkedList.LinkedListComponent.DrawCanvas` | src/app/linked-list/linked-list.component.ts:172-198 | The loop visits each node exactly once in list order, with index 0..n−1. Node i is drawn with its value at NodePosition(GetRow(i, npr), GetCol(i, npr)) for the single npr computed before the loop, with a connector exactly when it has a successor |
| `LinkedList.DrawnNode` | src/app/linked-list/linked-list.component.ts:185-196 | One pass of the drawing loop records the node's own value. It is not finite exactly when a row holds 0 nodes. Otherwise the node is drawn with a connector exactly when it has a successor. Its placement is stated in `FrameCentres` and `FrameConnectors` |
| `LinkedList.AppendFromStart` | src/app/linked-list/linked-list.component.ts:201-216 | From the initial state, k calls of AddNode give the values 1..k in order and value == k + 1 |
| `LinkedList.FrameCentres` | src/app/linked-list/linked-list.component.ts:179-198 | When a row holds at least one node, every node of a frame is drawn, its circle fits within the width, and two different nodes have different centres |
| `LinkedList.FrameConnectors` | src/app/linked-list/linked-list.component.ts:184-198 | When a row holds at least one node, each node except the last has a connector from its own circle to its successor's circle, and the last node has none |

## Left out

- Canvas drawing calls (`clearRect`, `beginPath`, `arc`, `fillText`, `stroke`, `moveTo`/`lineTo`, font and alignment settings) are host I/O. Only the points and values passed to them are modelled. `arc` also uses `Math.PI`, which is floating point.
- The rxjs plumbing (`Subject`, `fromEvent`, `takeWhile`, `debounceTime`, the resize subscription, `isDestroyed`) is event-stream code. `head$.next(newHead)` runs its subscriber synchronously and is modelled as `head := newHead`. The redraw the subscriber then starts is `DrawCanvas`, which is not called from `AddNode`.
- `setCanvasDimensions`, `clearCanvas` and the reads of `window.innerWidth`/`innerHeight` are browser I/O. The width is a parameter.
- `ngOnInit`, `ngAfterViewInit`, `ViewChild` and the commented-out mouse listener are framework lifecycle glue with no behaviour. `app-routing.module.ts` and `app.module.ts` are module wiring and are not part of this model.
- Deleting by click, hit-testing and cached node positions do not exist in this source, so they are not modelled.
- JavaScript numbers are doubles. The model uses unbounded integers, so it does not capture precision loss beyond 2^53, far outside any canvas size.
- GetRow: requires `nodesPerRow != 0`. A zero divisor gives `Infinity` or `NaN` in JavaScript, which is not an integer.
- GetCol: requires `nodesPerRow != 0` for the same reason (`index % 0` is `NaN`).
- LineToNextNode: requires `hasNext ==> NodesPerRow(width) != 0`. With 0 nodes per row the strokes have non-finite coordinates. At frame level `DrawnNode` covers this case as `NotFinite(val)`, without coordinates.
- Cyclic lists, on which the source's loops never end, are excluded by `Valid()`. The component's only mutation, `AddNode`, preserves `Valid()`.
