/**
  The property store in memory: a linked list of nodes that is searched from its head.
 */
module PropertyList {
  import opened PropertyEntries
  import opened Sequences

  const MAX_NAME_LEN := 80
  const MAX_VALUE_LEN := 80

  /** `property_db` */
  class Node {
    var unit: Entry
    var next: Node?

    constructor (unit: Entry)
      ensures this.unit == unit && next == null
    {
      this.unit, next := unit, null;
    }
  }

  function NodeAt(nodes: seq<Node>, i: nat): Node? {
    if i < |nodes| then nodes[i] else null
  }

  ghost predicate Distinct(nodes: seq<Node>) {
    forall i, j :: 0 <= i < j < |nodes| ==> nodes[i] != nodes[j]
  }

  lemma DistinctAt(nodes: seq<Node>, k: nat)
    requires Distinct(nodes) && k < |nodes|
    ensures forall i :: 0 <= i < |nodes| && i != k ==> nodes[i] != nodes[k]
  {}

  lemma DistinctWith(nodes: seq<Node>, node: Node)
    requires Distinct(nodes) && node !in nodes
    ensures Distinct(nodes + [node])
  {}

  lemma DistinctWithout(nodes: seq<Node>, k: nat)
    requires Distinct(nodes) && k < |nodes|
    ensures Distinct(Without(nodes, k))
  {}

  /** The nodes are different, and each one points to the next. */
  ghost predicate Linked(head: Node?, nodes: seq<Node>)
    reads nodes
  {
    && Distinct(nodes)
    && head == NodeAt(nodes, 0)
    && (forall i {:trigger nodes[i].next} :: 0 <= i < |nodes| ==> nodes[i].next == NodeAt(nodes, i + 1))
  }

  lemma NoNodes(head: Node?, nodes: seq<Node>)
    requires Linked(head, nodes)
    ensures head == null <==> nodes == []
  {}

  /** A chain that skips its node `k`. */
  lemma LinkedWithout(head: Node?, nodes: seq<Node>, k: nat)
    requires Distinct(nodes) && k < |nodes| && head == NodeAt(nodes, if k == 0 then 1 else 0)
    requires forall i {:trigger nodes[i].next} ::
               0 <= i < |nodes| && i != k - 1 ==> nodes[i].next == NodeAt(nodes, i + 1)
    requires k > 0 ==> nodes[k - 1].next == NodeAt(nodes, k + 1)
    ensures Linked(head, Without(nodes, k))
  {
    var ns := Without(nodes, k);
    DistinctWithout(nodes, k);
    WithoutAt(nodes, k);
    hide Distinct, Without;
    forall i {:trigger ns[i].next} | 0 <= i < |ns| ensures ns[i].next == NodeAt(ns, i + 1) {
      if i + 1 < k {
        assert ns[i] == nodes[i] && ns[i + 1] == nodes[i + 1];
      } else if i + 1 == k {
        assert ns[i] == nodes[k - 1];
      } else {
        assert ns[i] == nodes[i + 1];
      }
    }
  }

  ghost function Units(nodes: seq<Node>): (es: seq<Entry>)
    reads nodes
    ensures |es| == |nodes| && forall i :: 0 <= i < |es| ==> es[i] == nodes[i].unit
  {
    if nodes == [] then [] else [nodes[0].unit] + Units(nodes[1..])
  }

  lemma UnitsAre(nodes: seq<Node>, es: seq<Entry>)
    requires |es| == |nodes| && forall i :: 0 <= i < |es| ==> nodes[i].unit == es[i]
    ensures Units(nodes) == es
  {}

  /** The strings and their terminators fit into the arrays of a node. */
  ghost predicate Storable(es: seq<Entry>) {
    forall e :: e in es ==> |e.name| < MAX_NAME_LEN && |e.value| < MAX_VALUE_LEN
  }

  ghost predicate Stored(es: seq<Entry>) {
    Ordered(es) && Storable(es)
  }

  lemma StoredAdded(es: seq<Entry>, e: Entry)
    requires Stored(es) && Storable([e])
    ensures Stored(Added(es, e))
  {
    OrderedAdded(es, e);
  }

  lemma StoredUpdated(es: seq<Entry>, name: string, value: string)
    requires Stored(es) && |name| < MAX_NAME_LEN && |value| < MAX_VALUE_LEN
    ensures Stored(Updated(es, name, value))
  {
    OrderedUpdated(es, name, value);
  }

  lemma StoredRemoved(es: seq<Entry>, name: string)
    requires Stored(es)
    ensures Stored(Removed(es, name))
  {
    OrderedRemoved(es, name);
  }

  class List {
    var head: Node?
    ghost var nodes: seq<Node>
    ghost var Repr: set<Node>

    ghost predicate Valid()
      reads this, Repr
    {
      (forall n :: n in nodes ==> n in Repr) && Linked(head, nodes) && Stored(Entries())
    }

    ghost function Entries(): seq<Entry>
      reads this, nodes
    {
      Units(nodes)
    }

    constructor ()
      ensures Valid() && Entries() == [] && nodes == [] && Repr == {}
    {
      head, nodes, Repr := null, [], {};
    }

    /** `__list_matches_prop_name` */
    method Find(search: string) returns (ln: Node?)
      requires Valid()
      ensures ln == NodeAt(nodes, Lookup(Entries(), search))
    {
      hide Stored, Distinct;
      ln := head;
      ghost var k := 0;
      while ln != null
        invariant k <= |nodes| && ln == NodeAt(nodes, k)
        invariant forall i :: 0 <= i < k ==> !Matches(Entries()[i], search)
        decreases |nodes| - k
      {
        if search <= ln.unit.name {
          break;
        }
        ln, k := ln.next, k + 1;
      }
      LookupIs(Entries(), search, k);
    }

    /** `get_property_value_bt` */
    method GetValue(name: string) returns (found: bool, value: string)
      requires Valid()
      ensures match Get(Entries(), name)
              case None => !found
              case Some(v) => found && value == v
    {
      var ln := Find(name);
      if ln != null {
        return true, ln.unit.value;
      }
      return false, "";
    }

    /** Links a node behind the last one. */
    method Append(node: Node)
      requires Linked(head, nodes) && nodes != [] && node !in nodes && node.next == null
      modifies this`nodes, nodes
      ensures Linked(head, nodes) && nodes == old(nodes) + [node]
      ensures Units(nodes) == old(Units(nodes)) + [node.unit]
    {
      ghost var es := Units(nodes) + [node.unit];
      hide Units, Distinct;
      DistinctWith(nodes, node);
      DistinctAt(nodes, |nodes| - 1);
      var ln := head;
      ghost var k := 0;
      while ln.next != null
        invariant k < |nodes| && ln == nodes[k]
        decreases |nodes| - k
      {
        ln, k := ln.next, k + 1;
      }
      ln.next := node;
      nodes := nodes + [node];
      UnitsAre(nodes, es);
    }

    /** Changes the value in a node. */
    method Overwrite(ln: Node, value: string, ghost k: nat)
      requires Linked(head, nodes) && k < |nodes| && ln == nodes[k]
      modifies ln`unit
      ensures Linked(head, nodes)
      ensures Units(nodes) == old(Units(nodes))[k := old(ln.unit).(value := value)]
    {
      ghost var es := Units(nodes)[k := ln.unit.(value := value)];
      hide Units, Distinct;
      DistinctAt(nodes, k);
      ln.unit := ln.unit.(value := value);
      UnitsAre(nodes, es);
    }

    /** Takes a node out of the list. */
    method Unlink(lnPrev: Node?, ln: Node, ghost k: nat)
      requires Linked(head, nodes) && k < |nodes| && ln == nodes[k] && (k > 0 ==> lnPrev == nodes[k - 1])
      modifies this`head, this`nodes, nodes
      ensures Linked(head, nodes) && nodes == Without(old(nodes), k)
      ensures forall i :: 0 <= i < |old(nodes)| ==> old(nodes)[i].unit == old(nodes[i].unit)
    {
      hide Distinct, Without;
      DistinctAt(nodes, k);
      if head == ln {
        head := ln.next;
      } else {
        DistinctAt(nodes, k - 1);
        lnPrev.next := ln.next;
      }
      LinkedWithout(head, nodes, k);
      nodes := Without(nodes, k);
    }

    /** What unlinking a node does to the entries. */
    method UnlinkEntry(lnPrev: Node?, ln: Node, ghost k: nat)
      requires Linked(head, nodes) && k < |nodes| && ln == nodes[k] && (k > 0 ==> lnPrev == nodes[k - 1])
      modifies this`head, this`nodes, nodes
      ensures Linked(head, nodes) && nodes == Without(old(nodes), k)
      ensures Units(nodes) == Without(old(Units(nodes)), k)
    {
      hide Linked, Without;
      ghost var es := Units(nodes);
      WithoutAt(nodes, k);
      WithoutAt(es, k);
      Unlink(lnPrev, ln, k);
      UnitsAre(nodes, Without(es, k));
    }

    /** The first node of the list. */
    method Begin(node: Node)
      requires nodes == [] && node.next == null
      modifies this`head, this`nodes
      ensures Linked(head, nodes) && nodes == [node] && Units(nodes) == [node.unit]
    {
      head, nodes := node, [node];
      UnitsAre(nodes, [node.unit]);
    }

    /** `__list_add`: a node whose name starts a name in the list is silently not added. */
    method Add(node: Node) returns (r: bool)
      requires Valid() && node !in nodes && node.next == null && Storable([node.unit])
      modifies this, Repr
      ensures Valid() && !r && Repr == old(Repr) + {node}
      ensures Entries() == Added(old(Entries()), node.unit)
      ensures nodes == if Lookup(old(Entries()), node.unit.name) < |old(nodes)| then old(nodes) else old(nodes) + [node]
    {
      hide Stored, Storable, Matches, Distinct, Linked, Units, Lookup;
      NoNodes(head, nodes);
      StoredAdded(Entries(), node.unit);
      ghost var es := Entries();
      if head == null {
        Begin(node);
        assert es + [node.unit] == [node.unit] && old(nodes) + [node] == [node];
      } else {
        var found := Find(node.unit.name);
        if found == null {
          Append(node);
        }
      }
      Repr := Repr + {node};
      assert Entries() == Added(es, node.unit);
      return false;
    }

    /** `__update_prop_value`: the value is changed in place, or a new node is made. */
    method SetValue(name: string, value: string) returns (r: bool)
      requires Valid() && |name| < MAX_NAME_LEN && |value| < MAX_VALUE_LEN
      modifies this, Repr
      ensures Valid() && r && fresh(Repr - old(Repr))
      ensures Entries() == Updated(old(Entries()), name, value)
    {
      hide Stored, Matches, Distinct;
      StoredUpdated(Entries(), name, value);
      ghost var es := Entries();
      var ln := Find(name);
      if ln != null {
        Overwrite(ln, value, Lookup(es, name));
      } else {
        var node := new Node(Entry(name, value, false));
        var status := Add(node);
      }
      assert Entries() == Updated(es, name, value);
      return true;
    }

    /** The loop of `__remove_node_from_list`, which finds a node and the one before it. */
    method FindWithPrevious(name: string) returns (lnPrev: Node?, ln: Node?, ghost k: nat)
      requires Valid()
      ensures k == Lookup(Entries(), name) && ln == NodeAt(nodes, k) && (k > 0 ==> lnPrev == nodes[k - 1])
    {
      hide Stored, Distinct;
      lnPrev, ln, k := null, head, 0;
      while ln != null
        invariant k <= |nodes| && ln == NodeAt(nodes, k) && (k > 0 ==> lnPrev == nodes[k - 1])
        invariant forall i :: 0 <= i < k ==> !Matches(Entries()[i], name)
        decreases |nodes| - k
      {
        if name <= ln.unit.name {
          break;
        }
        lnPrev, ln, k := ln, ln.next, k + 1;
      }
      LookupIs(Entries(), name, k);
    }

    /** Removes the node that was found. */
    method RemoveFound(lnPrev: Node?, ln: Node, ghost name: string, ghost k: nat)
      requires Valid() && k == Lookup(Entries(), name)
      requires k < |nodes| && ln == nodes[k] && (k > 0 ==> lnPrev == nodes[k - 1])
      modifies this`head, this`nodes, Repr
      ensures Valid() && Entries() == Removed(old(Entries()), name) && nodes == Without(old(nodes), k)
    {
      hide Stored, Without;
      StoredRemoved(Entries(), name);
      WithoutAddsNothing(nodes, k);
      UnlinkEntry(lnPrev, ln, k);
    }

    /** `__remove_node_from_list`; when nothing matches in a list of some length the result is anything. */
    method Remove(name: string) returns (r: bool)
      requires Valid()
      modifies this, Repr
      ensures Valid() && Repr == old(Repr) && Entries() == Removed(old(Entries()), name)
      ensures old(nodes) == [] ==> !r
      ensures Lookup(old(Entries()), name) < |old(nodes)| ==> r
      ensures nodes == if Lookup(old(Entries()), name) < |old(nodes)|
                       then Without(old(nodes), Lookup(old(Entries()), name)) else old(nodes)
    {
      if head == null {
        return false;
      }
      hide Valid, Without;
      r := *;
      var lnPrev, ln, k := FindWithPrevious(name);
      if ln != null {
        RemoveFound(lnPrev, ln, name, k);
        r := true;
      }
    }
  }
}
