/** The linked-list visualization component: it owns the head of the list and the
    counter that numbers appended nodes, appends at the tail, and lays the list out
    on the canvas in list order. */
module LinkedList {
  import opened Layout
  import opened Nodes

  /** What one pass of the drawing loop produces for a node: its value drawn in a
      circle at `centre`, with the strokes of the connector to its successor; or,
      when a row holds no node at all (NodesPerRow(width) == 0) and the division
      by zero makes every coordinate non-finite, only its value. */
  datatype NodeDrawing =
    | Drawn(val: int, centre: Position, connector: seq<Segment>)
    | NotFinite(val: int)

  /** The drawing of the node with value `val` at position `index` of the list. */
  function DrawnNode(val: int, index: nat, hasNext: bool, width: int): (d: NodeDrawing)
    ensures d.val == val
    ensures d.NotFinite? <==> NodesPerRow(width) == 0
    ensures d.Drawn? ==> (d.connector == [] <==> !hasNext)
  {
    var nodesPerRow := NodesPerRow(width);
    if nodesPerRow == 0 then NotFinite(val)
    else
      var row := GetRow(index, nodesPerRow);
      var col := GetCol(index, nodesPerRow);
      Drawn(val, NodePosition(row, col), LineToNextNode(hasNext, index, row, col, width))
  }

  /** The values 1, 2, ..., k in order. */
  function Counting(k: nat): (s: seq<int>)
    ensures |s| == k && forall i :: 0 <= i < k ==> s[i] == i + 1
  {
    seq(k, i => i + 1)
  }

  lemma CountingNext(k: nat)
    ensures Counting(k) + [k + 1] == Counting(k + 1)
  {
  }

  class LinkedListComponent {
    var head: Node?
    var value: int

    /** The nodes of the list, in list order. */
    ghost var nodes: seq<Node>

    /** `nodes` is the chain of `next` links from `head`, it ends at a node with
        no successor, and no node occurs twice in it (the list is acyclic). */
    ghost predicate Valid()
      reads this, nodes
    {
      (head == null <==> nodes == []) &&
      (nodes != [] ==> head == nodes[0] && nodes[|nodes| - 1].next == null) &&
      (forall i :: 0 <= i < |nodes| - 1 ==> nodes[i].next == nodes[i + 1]) &&
      (forall i, j :: 0 <= i < j < |nodes| ==> nodes[i] != nodes[j])
    }

    /** The values of the list, in list order. */
    ghost function Values(): (s: seq<int>)
      reads this, nodes
      ensures |s| == |nodes| && forall i :: 0 <= i < |nodes| ==> s[i] == nodes[i].val
    {
      var ns := nodes;
      seq(|ns|, i requires 0 <= i < |ns| reads ns => ns[i].val)
    }

    /** The component starts with no list and the counter at 1. */
    constructor ()
      ensures Valid() && head == null && nodes == [] && Values() == [] && value == 1
    {
      head := null;
      value := 1;
      nodes := [];
    }

    /** Appends a node holding the current counter value at the tail and
        increments the counter. Existing nodes keep their values, only the old
        tail's link changes, and the head changes only when the list was empty.
        The head is published to the subscriber, which stores it back into `head`. */
    method AddNode()
      requires Valid()
      modifies this, set n | n in nodes
      ensures Valid()
      ensures |nodes| == |old(nodes)| + 1 && nodes[..|old(nodes)|] == old(nodes)
      ensures fresh(nodes[|nodes| - 1])
      ensures Values() == old(Values()) + [old(value)]
      ensures value == old(value) + 1
      ensures old(head) != null ==> head == old(head)
      ensures old(head) == null ==> head == nodes[0]
      ensures forall n :: n in old(nodes) ==> n.val == old(n.val)
      ensures forall i :: 0 <= i < |old(nodes)| - 1 ==> old(nodes)[i].next == old(nodes[i].next)
    {
      var newHead := head;
      var current := head;
      ghost var k := 0;

      while current != null && current.next != null
        invariant current == null <==> nodes == []
        invariant current != null ==> k < |nodes| && current == nodes[k]
        invariant current != null ==> current.next == if k + 1 < |nodes| then nodes[k + 1] else null
        decreases |nodes| - k
      {
        current := current.next;
        k := k + 1;
      }

      var newNode := new Node(value);
      value := value + 1;
      if current != null {
        current.next := newNode;
      } else {
        newHead := newNode;
      }
      head := newHead;
      nodes := nodes + [newNode];
    }

    /** The layout pass of the redraw: visits every node once, in list order,
        numbering them 0, 1, 2, ..., and places node i in the cell that GetRow and
        GetCol give for i, with one nodes-per-row value computed before the loop. */
    method DrawCanvas(width: int) returns (frame: seq<NodeDrawing>)
      requires Valid()
      ensures |frame| == |nodes|
      ensures forall i :: 0 <= i < |frame| ==>
                frame[i] == DrawnNode(Values()[i], i, i + 1 < |frame|, width)
    {
      var nodesPerRow := NodesPerRow(width);
      var index := -1;
      var current := head;
      frame := [];

      while current != null
        invariant index + 1 == |frame| <= |nodes|
        invariant current == null <==> |frame| == |nodes|
        invariant current != null ==> current == nodes[|frame|]
        invariant forall i :: 0 <= i < |frame| ==>
                    frame[i] == DrawnNode(nodes[i].val, i, i + 1 < |nodes|, width)
        decreases |nodes| - |frame|
      {
        index := index + 1;
        var drawing;
        if nodesPerRow == 0 {
          drawing := NotFinite(current.val);
        } else {
          var row := GetRow(index, nodesPerRow);
          var col := GetCol(index, nodesPerRow);
          drawing := Drawn(current.val, NodePosition(row, col),
                           LineToNextNode(current.next != null, index, row, col, width));
        }
        frame := frame + [drawing];
        assert current.next == null <==> |frame| == |nodes| by {
          if |frame| < |nodes| {
            assert current.next == nodes[|frame|];
          }
        }
        current := current.next;
      }
    }
  }

  /** Starting from a new component, k appends give the list 1, 2, ..., k and leave
      the counter at k + 1. */
  method AppendFromStart(k: nat) returns (c: LinkedListComponent)
    ensures fresh(c) && c.Valid()
    ensures c.Values() == Counting(k) && c.value == k + 1
  {
    c := new LinkedListComponent();
    var i := 0;
    while i < k
      invariant 0 <= i <= k
      invariant fresh(c) && c.Valid()
      invariant c.Values() == Counting(i) && c.value == i + 1
      invariant forall n :: n in c.nodes ==> fresh(n)
    {
      ghost var before := c.nodes;
      c.AddNode();
      assert c.nodes == before + [c.nodes[|c.nodes| - 1]];
      CountingNext(i);
      i := i + 1;
    }
  }

  // ---------------------------------------------------------------------------
  // Properties of a drawn frame
  // ---------------------------------------------------------------------------

  /** On a canvas with room for at least one node per row, the centres of two
      different nodes of a frame differ, and every centre lies in a column that
      fits within the canvas width. */
  lemma {:induction false} FrameCentres(values: seq<int>, width: int, i: nat, j: nat)
    requires NodesPerRow(width) >= 1
    requires i < |values| && j < |values|
    ensures DrawnNode(values[i], i, i + 1 < |values|, width).Drawn?
    ensures DrawnNode(values[i], i, i + 1 < |values|, width).centre.x + HALF_RADIUS <= width - OFFSET
    ensures i != j ==>
              DrawnNode(values[i], i, i + 1 < |values|, width).centre
                != DrawnNode(values[j], j, j + 1 < |values|, width).centre
  {
    var npr := NodesPerRow(width);
    ColumnFits(width, GetRow(i, npr), GetCol(i, npr));
    if i != j {
      LayoutInjective(i, j, npr);
    }
  }

  /** On a canvas with room for at least one node per row, the connector of every
      node but the last runs from the edge of its circle to the edge of its
      successor's circle, and the last node has no connector. */
  lemma {:induction false} FrameConnectors(values: seq<int>, width: int, i: nat)
    requires NodesPerRow(width) >= 1
    requires i < |values|
    ensures var d := DrawnNode(values[i], i, i + 1 < |values|, width);
            d.Drawn? &&
            (i + 1 == |values| ==> d.connector == []) &&
            (i + 1 < |values| ==>
              var e := DrawnNode(values[i + 1], i + 1, i + 2 < |values|, width);
              |d.connector| > 0 &&
              OnCircle(d.connector[0].start, d.centre) &&
              OnCircle(d.connector[|d.connector| - 1].end, e.centre))
  {
    ConnectorJoinsCircles(i, width);
  }
}
