/**
 * RKC_RPG_TABLE: the game's data tables, kept as a singly linked list of
 * RKC_RPG_TABLEDATA nodes reached from `headData` through `next`.
 *
 * A table holds the ghost sequence `nodes` of the nodes the walk from the
 * head passes, in order; `Valid` ties it to the pointers. The numeric grid
 * and the string grid of a node are values (`null` is `None`); reading and
 * writing the binary and text table files is not part of the model.
 */
module RkcRpgTable {
  import opened Bytes

  /** What a read of the numeric grid yields: a value, or a read past the rows that exist. */
  datatype Lookup = Value(v: i32) | OutOfBounds

  class TableData {
    var tableNo: i32
    var rowCount: i32
    var columnCount: i32
    var table: Option<seq<seq<i32>>>
    var stringsTable: Option<seq<seq<Option<seq<byte>>>>>
    var next: TableData?

    /** The grids, where present, have `rowCount` rows of `columnCount` cells. */
    predicate Shaped()
      reads this
    {
      0 <= rowCount && 0 <= columnCount
      && (table.Some? ==>
            |table.value| == rowCount && forall r :: 0 <= r < |table.value| ==> |table.value[r]| == columnCount)
      && (stringsTable.Some? ==>
            |stringsTable.value| == rowCount
            && forall r :: 0 <= r < |stringsTable.value| ==> |stringsTable.value[r]| == columnCount)
    }

    /** An empty node: table number -1 (0xffffffff), no rows, no columns, no grids. */
    constructor()
      ensures tableNo == -1 && rowCount == 0 && columnCount == 0
      ensures table.None? && stringsTable.None? && next == null
      ensures Shaped()
    {
      tableNo := -1;
      rowCount := 0;
      columnCount := 0;
      table := None;
      stringsTable := None;
      next := null;
    }

    /** Frees both grids and resets the node to the empty state; the link is kept. */
    method Release()
      modifies this
      ensures tableNo == -1 && rowCount == 0 && columnCount == 0
      ensures table.None? && stringsTable.None? && next == old(next)
      ensures Shaped()
    {
      table := None;
      stringsTable := None;
      tableNo := -1;
      rowCount := 0;
      columnCount := 0;
    }

    /** The string at (row, column), or null outside the grid. */
    function GetStrings(row: i32, column: i32): (r: Option<seq<byte>>)
      reads this
      requires Shaped() && (0 < rowCount && 0 < columnCount ==> stringsTable.Some?)
      ensures !(0 <= row < rowCount && 0 <= column < columnCount) ==> r.None?
      ensures 0 <= row < rowCount && 0 <= column < columnCount ==> r == stringsTable.value[row][column]
    {
      if 0 <= row < rowCount && 0 <= column < columnCount then stringsTable.value[row][column] else None
    }

    /**
     * `GetValue` as written: the row is checked against the column count, so
     * in a table with fewer rows than columns a row past the last one passes
     * the guard and is read.
     */
    function GetValueAsWritten(row: i32, column: i32): (r: Lookup)
      reads this
      requires Shaped() && (0 < rowCount && 0 < columnCount ==> table.Some?)
      ensures 0 <= row < rowCount && row < columnCount && 0 <= column < columnCount ==> r == Value(table.value[row][column])
      ensures r == OutOfBounds <==> rowCount <= row < columnCount && 0 <= column < columnCount
      ensures !(0 <= row < columnCount && 0 <= column < columnCount) ==> r == Value(-1)
    {
      if 0 <= row < columnCount && 0 <= column < columnCount then
        if row < rowCount then Value(table.value[row][column]) else OutOfBounds
      else Value(-1)
    }

    /** The number at (row, column), or -1 outside the grid. */
    function GetValue(row: i32, column: i32): (r: i32)
      reads this
      requires Shaped() && (0 < rowCount && 0 < columnCount ==> table.Some?)
      ensures !(0 <= row < rowCount && 0 <= column < columnCount) ==> r == -1
      ensures 0 <= row < rowCount && 0 <= column < columnCount ==> r == table.value[row][column]
      ensures rowCount == columnCount ==> GetValueAsWritten(row, column) == Value(r)
    {
      if 0 <= row < rowCount && 0 <= column < columnCount then table.value[row][column] else -1
    }
  }

  /**
   * With one row and two columns the as-written guard lets row 1 through
   * to a row that does not exist; with two rows and one column it turns
   * away row 1, which does exist.
   */
  lemma GetValueGuardsRowWithColumns(d: TableData)
    requires d.Shaped() && d.table.Some?
    ensures d.rowCount == 1 && d.columnCount == 2 ==> d.GetValueAsWritten(1, 0) == OutOfBounds && d.GetValue(1, 0) == -1
    ensures d.rowCount == 2 && d.columnCount == 1 ==>
              d.GetValueAsWritten(1, 0) == Value(-1) && d.GetValue(1, 0) == d.table.value[1][0]
  {
  }

  class Table {
    var headData: TableData?
    /** The nodes from the head to the last one, in list order. */
    ghost var nodes: seq<TableData>

    /** `nodes` is exactly the chain of `next` links from `headData` to null, every node once. */
    ghost predicate Valid()
      reads this, nodes
    {
      (if |nodes| == 0 then headData == null else headData == nodes[0])
      && (forall i :: 0 <= i < |nodes| - 1 ==> nodes[i].next == nodes[i + 1])
      && (|nodes| > 0 ==> nodes[|nodes| - 1].next == null)
      && (forall i, j :: 0 <= i < j < |nodes| ==> nodes[i] != nodes[j])
      && |nodes| < 0x8000_0000
    }

    /** The node the walk reaches after `i` steps: the i-th node, or null past the end. */
    ghost function At(i: nat): TableData?
      reads this
    {
      if i < |nodes| then nodes[i] else null
    }

    lemma AtStep(i: nat)
      requires Valid() && i < |nodes|
      ensures nodes[i].next == At(i + 1)
    {
    }

    /** An empty list. */
    constructor()
      ensures headData == null && nodes == [] && Valid()
    {
      headData := null;
      nodes := [];
    }

    /** The number of nodes the list reaches. */
    method GetCount() returns (count: i32)
      requires Valid()
      ensures count == |nodes|
    {
      count := 0;
      var current := headData;
      while current != null
        invariant 0 <= count <= |nodes| && current == At(count)
        decreases |nodes| - count
      {
        AtStep(count);
        count := count + 1;
        current := current.next;
      }
    }

    /** The node at `index`, or null for a negative index or one past the end. */
    method Get(index: i32) returns (r: TableData?)
      requires Valid()
      ensures 0 <= index < |nodes| ==> r == nodes[index]
      ensures !(0 <= index < |nodes|) ==> r == null
    {
      if index < 0 {
        return null;
      }
      r := headData;
      var i := 0;
      while r != null && i < index
        invariant 0 <= i <= index && i <= |nodes| && r == At(i)
        decreases index - i
      {
        AtStep(i);
        r := r.next;
        i := i + 1;
      }
    }

    /** The first node with the table number, or null when no node has it. */
    method GetFromTableNo(tableNo: i32) returns (r: TableData?)
      requires Valid()
      ensures r == null <==> forall k :: 0 <= k < |nodes| ==> nodes[k].tableNo != tableNo
      ensures r != null ==> exists k :: 0 <= k < |nodes| && r == nodes[k] && r.tableNo == tableNo
                              && forall j :: 0 <= j < k ==> nodes[j].tableNo != tableNo
    {
      var current := headData;
      ghost var i := 0;
      while current != null
        invariant 0 <= i <= |nodes| && current == At(i)
        invariant forall j :: 0 <= j < i ==> nodes[j].tableNo != tableNo
        decreases |nodes| - i
      {
        if current.tableNo == tableNo {
          return current;
        }
        AtStep(i);
        current := current.next;
        i := i + 1;
      }
      return null;
    }

    /** The position of a node in the list, or -1 when the list does not reach it. */
    method GetNo(target: TableData?) returns (r: i32)
      requires Valid()
      ensures r == -1 <==> target !in nodes
      ensures r != -1 ==> 0 <= r < |nodes| && nodes[r] == target
      ensures forall i :: 0 <= i < |nodes| && nodes[i] == target ==> r == i
    {
      var current := headData;
      var index := 0;
      while current != null
        invariant 0 <= index <= |nodes| && current == At(index)
        invariant target !in nodes[..index]
        decreases |nodes| - index
      {
        if current == target {
          return index;
        }
        AtStep(index);
        current := current.next;
        index := index + 1;
      }
      assert nodes[..index] == nodes;
      return -1;
    }

    /**
     * The walk of `Delete`: up to `index` steps from the head, stopping at
     * null; the node it stops on and the one before it.
     */
    method Locate(index: i32) returns (previous: TableData?, current: TableData?, i: nat)
      requires Valid()
      ensures i == if index <= 0 then 0 else if index < |nodes| then index as nat else |nodes|
      ensures current == At(i) && previous == (if i == 0 then null else nodes[i - 1])
    {
      previous := null;
      current := headData;
      i := 0;
      while current != null && i < index
        invariant 0 <= i <= |nodes| && current == At(i)
        invariant i <= index || (index < 0 && i == 0)
        invariant previous == if i == 0 then null else nodes[i - 1]
        decreases |nodes| - i
      {
        AtStep(i);
        previous := current;
        current := current.next;
        i := i + 1;
      }
    }

    /** Links the node before position `i` to the one after it, which drops the i-th node from the list. */
    method UnlinkAfter(previous: TableData, current: TableData, ghost i: nat)
      requires Valid() && 0 < i < |nodes| && previous == nodes[i - 1] && current == nodes[i]
      modifies this`nodes, previous`next
      ensures Valid() && nodes == old(nodes)[..i] + old(nodes)[i + 1..]
      ensures forall j :: 0 <= j < |old(nodes)| && j != i - 1 ==> old(nodes)[j].next == old(nodes[j].next)
    {
      AtStep(i);
      ghost var before := nodes;
      previous.next := current.next;
      nodes := nodes[..i] + nodes[i + 1..];
      assert forall j :: 0 <= j < |nodes| ==> nodes[j] == if j < i then before[j] else before[j + 1];
    }

    /** Moves the head to its successor, which drops the first node from the list. */
    method PopHead() returns (head: TableData)
      requires Valid() && |nodes| > 0
      modifies this
      ensures Valid() && head == old(nodes)[0] && nodes == old(nodes)[1..]
    {
      head := headData;
      headData := head.next;
      nodes := nodes[1..];
    }

    /**
     * Unlinks the node at `index` and hands it back through the out
     * pointer, which `hasOut` says is present. Fails on an empty list, a
     * missing out pointer or an index past the end. Index 0 moves the head
     * to its successor; a negative index hands back the head and unlinks
     * nothing, since the walk never starts.
     */
    method Delete(index: i32, hasOut: bool) returns (ok: bool, deleted: TableData?)
      requires Valid()
      modifies this, nodes
      ensures Valid()
      ensures ok <==> |old(nodes)| > 0 && hasOut && index < |old(nodes)|
      ensures !ok ==> deleted == null && nodes == old(nodes) && headData == old(headData)
      ensures ok && index < 0 ==> deleted == old(nodes)[0] && nodes == old(nodes)
      ensures ok && 0 <= index ==> deleted == old(nodes)[index]
                                   && nodes == old(nodes)[..index] + old(nodes)[index + 1..]
      ensures forall n :: n in old(nodes) ==>
                n.tableNo == old(n.tableNo) && n.rowCount == old(n.rowCount) && n.columnCount == old(n.columnCount)
                && n.table == old(n.table) && n.stringsTable == old(n.stringsTable)
      ensures forall i :: 0 <= i < |old(nodes)| && i != index - 1 ==> old(nodes)[i].next == old(nodes[i].next)
    {
      if headData == null || !hasOut {
        return false, null;
      }
      if index == 0 {
        deleted := PopHead();
        return true, deleted;
      }
      ok, deleted := DeleteAfterHead(index);
    }

    /**
     * `Delete` past the head: walks to `index`, unlinks the node found there
     * and hands it back; a negative index stops on the head and unlinks nothing.
     */
    method DeleteAfterHead(index: i32) returns (ok: bool, deleted: TableData?)
      requires Valid() && |nodes| > 0 && index != 0
      modifies this, nodes
      ensures Valid()
      ensures ok <==> index < |old(nodes)|
      ensures !ok ==> deleted == null && nodes == old(nodes) && headData == old(headData)
      ensures ok && index < 0 ==> deleted == old(nodes)[0] && nodes == old(nodes)
      ensures ok && 0 < index ==> deleted == old(nodes)[index]
                                  && nodes == old(nodes)[..index] + old(nodes)[index + 1..]
      ensures forall n :: n in old(nodes) ==>
                n.tableNo == old(n.tableNo) && n.rowCount == old(n.rowCount) && n.columnCount == old(n.columnCount)
                && n.table == old(n.table) && n.stringsTable == old(n.stringsTable)
      ensures forall i :: 0 <= i < |old(nodes)| && i != index - 1 ==> old(nodes)[i].next == old(nodes[i].next)
    {
      var previous, current, i := Locate(index);
      if current != null {
        if previous != null {
          UnlinkAfter(previous, current, i);
        }
        return true, current;
      }
      return false, null;
    }
  }
}
