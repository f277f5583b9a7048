/** The lineage tree: how the population of wells splits into
    sub-populations with identical histories, one level per unique
    timepoint. `Lineage` is the value of a built tree, `LineageNode` the
    mutable node get_lineage_tree creates and links together. */
module Lineages {
  import opened Basics
  import opened Plates
  import opened EventLog
  import Sorting
  import Strings

  /** The wells of ws that are in g, in the order of ws. */
  function Keep(ws: seq<WellId>, g: set<WellId>): (r: seq<WellId>)
    ensures forall w :: w in r <==> w in ws && w in g
  {
    if ws == [] then []
    else Keep(ws[..|ws| - 1], g) + (if ws[|ws| - 1] in g then [ws[|ws| - 1]] else [])
  }

  /** sorted(set(ws).intersection(g)) */
  function SortedIntersection(ws: seq<WellId>, g: set<WellId>): (r: seq<WellId>)
    ensures forall w :: w in r <==> w in ws && w in g
  {
    Sorting.LexLessIsStrictTotalOrder();
    Sorting.SortUnique(Keep(ws, g), Strings.LexLess)
  }

  /** The intersection is in ascending order. */
  lemma SortedIntersectionIncreasing(ws: seq<WellId>, g: set<WellId>)
    ensures Sorting.Increasing(SortedIntersection(ws, g), Strings.LexLess)
  {
    Sorting.LexLessIsStrictTotalOrder();
  }

  /** A built lineage node: its id, its wells, the timepoint it was resolved
      at and its children, in the order they were attached. */
  datatype Lineage = Lineage(id: string, wells: seq<WellId>, timepoint: int, children: seq<Lineage>)

  /** '%s:%s' % (parent.id, i) */
  function ChildId(parentId: string, i: nat): string {
    parentId + ":" + Strings.Decimal(i)
  }

  /** One refinement step (attach_child_nodes): the children of n carry
      timepoint tp and the ids parent:0, parent:1, ...; their well lists are
      exactly the non-empty sorted intersections of n's wells with the
      groups, each once, in some order. */
  ghost predicate ChildrenRefine(n: Lineage, groups: set<set<WellId>>, tp: int) {
    && (forall k :: 0 <= k < |n.children| ==> n.children[k].id == ChildId(n.id, k) && n.children[k].timepoint == tp)
    && (forall k, j :: 0 <= k < j < |n.children| ==> n.children[k].wells != n.children[j].wells)
    && ChildWellLists(n.children) == GroupIntersections(n.wells, groups)
  }

  /** The well lists of some lineages, as a set. */
  function ChildWellLists(ch: seq<Lineage>): set<seq<WellId>> {
    set k | 0 <= k < |ch| :: ch[k].wells
  }

  /** The non-empty sorted intersections of ws with the groups. */
  function GroupIntersections(ws: seq<WellId>, groups: set<set<WellId>>): set<seq<WellId>> {
    set g | g in groups && SortedIntersection(ws, g) != [] :: SortedIntersection(ws, g)
  }

  /** One level of the tree: a unique timepoint and the well partition there. */
  datatype Level = Level(timepoint: int, groups: set<set<WellId>>)

  /** The levels the events es determine when the wells of plate format fmt
      are grouped: one per unique timepoint, in increasing order. */
  ghost function Levels(es: seq<Event>, fmt: PlateFormat): seq<Level> {
    var tps := UniqueTimepoints(es);
    seq(|tps|, i requires 0 <= i < |tps| => Level(tps[i], WellPartition(es, tps[i], WellIds(fmt))))
  }

  /** A subtree grown level by level: t sits at level idx; at the last level
      it is a leaf, otherwise its children refine it by the next level's
      groups, and each child is itself grown from the next level. */
  ghost predicate Grown(t: Lineage, levels: seq<Level>, idx: nat)
    decreases t
  {
    && idx < |levels| && t.timepoint == levels[idx].timepoint
    && (if idx + 1 < |levels|
        then ChildrenRefine(t, levels[idx + 1].groups, levels[idx + 1].timepoint)
        else t.children == [])
    && forall k :: 0 <= k < |t.children| ==> Grown(t.children[k], levels, idx + 1)
  }

  /** A subtree built by build_tree(t, idx) over the events es, grouping the
      wells of plate format fmt (get_lineage_tree uses P6): t sits at the
      idx-th unique timepoint; at the last one it is a leaf, otherwise its
      children refine it by the well partition of fmt at the next timepoint,
      and each child is itself such a subtree one timepoint further on. */
  ghost predicate LineageFrom(t: Lineage, es: seq<Event>, fmt: PlateFormat, idx: nat) {
    Grown(t, Levels(es, fmt), idx)
  }

  /** Entry i of levels agrees with the levels of es under fmt: i is a
      level exactly when it indexes a unique timepoint, and the level holds
      that timepoint and the well partition there. */
  ghost predicate LevelOk(levels: seq<Level>, es: seq<Event>, fmt: PlateFormat, i: int) {
    var tps := UniqueTimepoints(es);
    && (0 <= i < |levels| <==> 0 <= i < |tps|)
    && (0 <= i < |levels| ==> levels[i] == Level(tps[i], WellPartition(es, tps[i], WellIds(fmt))))
  }

  /** levels are the levels of es under fmt, stated entry by entry. */
  ghost predicate LevelsOf(levels: seq<Level>, es: seq<Event>, fmt: PlateFormat) {
    forall i :: LevelOk(levels, es, fmt, i)
  }

  lemma LevelsOfLevels(es: seq<Event>, fmt: PlateFormat)
    ensures LevelsOf(Levels(es, fmt), es, fmt)
    ensures |Levels(es, fmt)| == |UniqueTimepoints(es)|
  {
    forall i ensures LevelOk(Levels(es, fmt), es, fmt, i) { }
  }

  /** The tree get_lineage_tree returns: the root is named after the stock,
      holds every well some event lists (once each) and sits at the first
      unique timepoint; the wells are grouped as on a 6-well plate. */
  ghost predicate LineageTree(t: Lineage, stock: string, es: seq<Event>) {
    && t.id == stock
    && NoDup(t.wells)
    && (forall w :: w in t.wells <==> exists e :: e in es && w in e.wells)
    && LineageFrom(t, es, P6, 0)
  }

  /** The group a child's wells come from. */
  lemma ChildSource(n: Lineage, groups: set<set<WellId>>, tp: int, k: nat) returns (g: set<WellId>)
    requires ChildrenRefine(n, groups, tp) && k < |n.children|
    ensures g in groups && n.children[k].wells == SortedIntersection(n.wells, g) && n.children[k].wells != []
  {
    var ch := n.children;
    assert ch[k].wells in ChildWellLists(ch);
    assert ch[k].wells in GroupIntersections(n.wells, groups);
    g :| g in groups && ch[k].wells == SortedIntersection(n.wells, g) && ch[k].wells != [];
  }

  /** The child that holds a plate well of the parent. */
  lemma ChildOfWell(n: Lineage, es: seq<Event>, tp: int, ids: seq<WellId>, w: WellId) returns (k: nat)
    requires ChildrenRefine(n, WellPartition(es, tp, ids), tp)
    requires w in n.wells && w in ids
    ensures k < |n.children| && w in n.children[k].wells
  {
    WellPartitionIsPartition(es, tp, ids);
    var ch := n.children;
    var si := SortedIntersection(n.wells, WellGroup(es, tp, ids, w));
    assert w in si;
    assert si in GroupIntersections(n.wells, WellPartition(es, tp, ids));
    assert si in ChildWellLists(ch);
    k :| 0 <= k < |ch| && ch[k].wells == si;
  }

  /** Two different children share no well. */
  lemma ChildrenDisjoint(n: Lineage, es: seq<Event>, tp: int, ids: seq<WellId>, k: nat, j: nat, w: WellId)
    requires ChildrenRefine(n, WellPartition(es, tp, ids), tp)
    requires k < |n.children| && j < |n.children| && k != j && w in n.children[k].wells
    ensures w !in n.children[j].wells
  {
    WellPartitionIsPartition(es, tp, ids);
    var g := ChildSource(n, WellPartition(es, tp, ids), tp, k);
    var h := ChildSource(n, WellPartition(es, tp, ids), tp, j);
  }

  /** A child holds exactly the parent's plate wells with the signature of
      any one of its wells. */
  lemma ChildBySignature(n: Lineage, es: seq<Event>, tp: int, ids: seq<WellId>, k: nat, w: WellId, v: WellId)
    requires ChildrenRefine(n, WellPartition(es, tp, ids), tp)
    requires k < |n.children| && w in n.children[k].wells
    ensures v in n.children[k].wells <==> v in n.wells && v in ids && EventsInWell(es, v, tp) == EventsInWell(es, w, tp)
  {
    WellPartitionIsPartition(es, tp, ids);
    var g := ChildSource(n, WellPartition(es, tp, ids), tp, k);
  }

  /** What one refinement step guarantees, whatever order the groups were
      visited in: the children's wells are non-empty, sorted and pairwise
      disjoint; together they are the parent's wells that are plate wells;
      two of the parent's plate wells share a child exactly when their
      signatures at tp are equal; and there are no children exactly when the
      parent's wells meet no plate well. */
  lemma ChildrenPartitionParent(n: Lineage, es: seq<Event>, tp: int, ids: seq<WellId>)
    requires ChildrenRefine(n, WellPartition(es, tp, ids), tp)
    ensures forall k :: 0 <= k < |n.children| ==>
      n.children[k].wells != [] && Sorting.Increasing(n.children[k].wells, Strings.LexLess)
    ensures forall k, j, w ::
      0 <= k < |n.children| && 0 <= j < |n.children| && k != j && w in n.children[k].wells ==> w !in n.children[j].wells
    ensures forall w :: (exists k :: 0 <= k < |n.children| && w in n.children[k].wells) <==> w in n.wells && w in ids
    ensures forall k, w, v :: 0 <= k < |n.children| && w in n.children[k].wells ==>
      (v in n.children[k].wells <==> v in n.wells && v in ids && EventsInWell(es, v, tp) == EventsInWell(es, w, tp))
    ensures n.children == [] <==> forall w :: w in n.wells ==> w !in ids
  {
    var groups := WellPartition(es, tp, ids);
    var ch := n.children;
    forall k | 0 <= k < |ch| ensures ch[k].wells != [] && Sorting.Increasing(ch[k].wells, Strings.LexLess) {
      var g := ChildSource(n, groups, tp, k);
      SortedIntersectionIncreasing(n.wells, g);
    }
    forall k, j, w | 0 <= k < |ch| && 0 <= j < |ch| && k != j && w in ch[k].wells ensures w !in ch[j].wells {
      ChildrenDisjoint(n, es, tp, ids, k, j, w);
    }
    forall w ensures (exists k :: 0 <= k < |ch| && w in ch[k].wells) <==> w in n.wells && w in ids {
      if w in n.wells && w in ids {
        var k := ChildOfWell(n, es, tp, ids, w);
      }
      if exists k :: 0 <= k < |ch| && w in ch[k].wells {
        var k :| 0 <= k < |ch| && w in ch[k].wells;
        ChildBySignature(n, es, tp, ids, k, w, w);
      }
    }
    forall k, w, v | 0 <= k < |ch| && w in ch[k].wells
      ensures v in ch[k].wells <==> v in n.wells && v in ids && EventsInWell(es, v, tp) == EventsInWell(es, w, tp)
    {
      ChildBySignature(n, es, tp, ids, k, w, v);
    }
    if ch != [] {
      var g := ChildSource(n, groups, tp, 0);
      var w := ch[0].wells[0];
      assert w in ch[0].wells;
      assert w in n.wells && w in ids;
    }
  }

  /** The node reached from t by following child positions `path`. */
  function NodeAt(t: Lineage, path: seq<nat>): Option<Lineage>
    decreases |path|
  {
    if path == [] then Some(t)
    else if path[0] < |t.children| then NodeAt(t.children[path[0]], path[1..])
    else None
  }

  /** t.id followed by ':i' for each position i on the path. */
  function PathId(rootId: string, path: seq<nat>): string
    decreases |path|
  {
    if path == [] then rootId else PathId(ChildId(rootId, path[0]), path[1..])
  }

  /** One step down: a child of a built subtree is a built subtree one
      timepoint further on, named after its position. */
  lemma ChildStep(t: Lineage, es: seq<Event>, fmt: PlateFormat, idx: nat, k: nat)
    requires LineageFrom(t, es, fmt, idx) && k < |t.children|
    ensures idx + 1 < |UniqueTimepoints(es)|
    ensures LineageFrom(t.children[k], es, fmt, idx + 1)
    ensures t.children[k].id == ChildId(t.id, k)
    ensures t.children[k].timepoint == UniqueTimepoints(es)[idx + 1]
  {
  }

  /** Every node of a subtree grown from level idx is itself grown from
      level idx + |path|, and its id spells its path (for the tree of an
      event log, levels is Levels(es, fmt) and Grown is LineageFrom). */
  lemma {:induction false} EveryNode(t: Lineage, levels: seq<Level>, idx: nat, path: seq<nat>)
    requires Grown(t, levels, idx)
    requires NodeAt(t, path).Some?
    ensures Grown(NodeAt(t, path).value, levels, idx + |path|)
    ensures NodeAt(t, path).value.id == PathId(t.id, path)
    decreases |path|
  {
    if path != [] {
      var c := t.children[path[0]];
      assert idx + 1 < |levels|;
      assert Grown(c, levels, idx + 1) && c.id == ChildId(t.id, path[0]);
      assert NodeAt(t, path) == NodeAt(c, path[1..]);
      assert PathId(t.id, path) == PathId(ChildId(t.id, path[0]), path[1..]);
      EveryNode(c, levels, idx + 1, path[1..]);
      assert idx + |path| == idx + 1 + |path[1..]|;
    }
  }

  /** Where the tree stops: a node is a leaf exactly at the last unique
      timepoint or when its wells meet no well of fmt; otherwise its children
      sit at the next unique timepoint and partition its wells of fmt by their
      signatures there. */
  lemma NodeShape(t: Lineage, es: seq<Event>, fmt: PlateFormat, idx: nat)
    requires LineageFrom(t, es, fmt, idx)
    ensures var tps := UniqueTimepoints(es);
      t.children == [] <==> idx + 1 == |tps| || forall w :: w in t.wells ==> w !in WellIds(fmt)
    ensures var tps := UniqueTimepoints(es);
      forall k :: 0 <= k < |t.children| ==> idx + 1 < |tps| && t.children[k].timepoint == tps[idx + 1]
  {
    var tps := UniqueTimepoints(es);
    if idx + 1 < |tps| {
      ChildrenPartitionParent(t, es, tps[idx + 1], WellIds(fmt));
    }
  }

  /** Every node of the tree of an event log, at depth d along its path:
      it sits at the d-th unique timepoint and its id spells its path from
      the stock; at the last timepoint it is a leaf, otherwise its children
      carry the next timepoint and the ids id:0, id:1, ..., their wells are
      non-empty, sorted and pairwise disjoint, and together they are the
      node's wells that are wells of a 6-well plate. */
  lemma LineageTreeNodes(t: Lineage, stock: string, es: seq<Event>, path: seq<nat>)
    requires LineageTree(t, stock, es) && NodeAt(t, path).Some?
    ensures var n, tps := NodeAt(t, path).value, UniqueTimepoints(es);
      && |path| < |tps| && n.timepoint == tps[|path|] && n.id == PathId(stock, path)
      && (|path| + 1 == |tps| ==> n.children == [])
      && (|path| + 1 < |tps| ==>
        && (forall k :: 0 <= k < |n.children| ==>
          n.children[k].id == ChildId(n.id, k) && n.children[k].timepoint == tps[|path| + 1])
        && (forall k :: 0 <= k < |n.children| ==>
          n.children[k].wells != [] && Sorting.Increasing(n.children[k].wells, Strings.LexLess))
        && (forall k, j, w :: 0 <= k < |n.children| && 0 <= j < |n.children| && k != j && w in n.children[k].wells ==>
          w !in n.children[j].wells)
        && (forall w :: (exists k :: 0 <= k < |n.children| && w in n.children[k].wells) <==> w in n.wells && w in WellIds(P6)))
  {
    var tps := UniqueTimepoints(es);
    EveryNode(t, Levels(es, P6), 0, path);
    var n := NodeAt(t, path).value;
    NodeShape(n, es, P6, |path|);
    if |path| + 1 < |tps| {
      ChildrenPartitionParent(n, es, tps[|path| + 1], WellIds(P6));
    }
  }

  /** A mutable node as get_lineage_tree builds it: parent, id, wells and
      timepoint are set once; children grows through AddChild. `repr` is the
      node and every node below it. */
  class LineageNode {
    const parent: LineageNode?
    const id: string
    const wells: seq<WellId>
    const timepoint: int
    var children: seq<LineageNode>
    ghost var repr: set<LineageNode>

    ghost predicate Valid()
      reads this, repr
      decreases repr
    {
      && this in repr
      && forall k :: 0 <= k < |children| ==>
        && children[k] in repr
        && children[k].repr <= repr
        && this !in children[k].repr
        && children[k].parent == this
        && children[k].Valid()
    }

    /** The value of the subtree below this node. */
    ghost function Abstract(): Lineage
      reads this, repr
      requires Valid()
      decreases repr
    {
      Lineage(id, wells, timepoint, AbstractChildren(|children|))
    }

    ghost function AbstractChildren(n: nat): (r: seq<Lineage>)
      reads this, repr
      requires Valid() && n <= |children|
      ensures |r| == n
      ensures forall k :: 0 <= k < n ==> r[k] == children[k].Abstract()
      decreases repr, n
    {
      if n == 0 then []
      else AbstractChildren(n - 1) + [children[n - 1].Abstract()]
    }

    constructor (parent: LineageNode?, id: string, wells: seq<WellId>, timepoint: int)
      ensures this.parent == parent && this.id == id && this.wells == wells && this.timepoint == timepoint
      ensures children == [] && repr == {this}
      ensures Valid() && Abstract() == Lineage(id, wells, timepoint, [])
    {
      this.parent := parent;
      this.id := id;
      this.wells := wells;
      this.timepoint := timepoint;
      children := [];
      repr := {this};
    }

    /** add_child: the child, a valid subtree below this node, is appended
        to the children and its footprint joins this node's. */
    method AddChild(child: LineageNode)
      requires Valid() && child.Valid() && this !in child.repr && child.parent == this
      modifies this
      ensures children == old(children) + [child]
      ensures repr == old(repr) + child.repr
      ensures Valid()
    {
      children := children + [child];
      repr := repr + child.repr;
    }
  }

  /** A node whose footprint was left alone keeps its validity and its
      value. */
  twostate lemma FramedNode(n: LineageNode)
    requires old(n.Valid())
    requires unchanged(old(n.repr))
    ensures n.repr == old(n.repr) && n.Valid() && n.Abstract() == old(n.Abstract())
  {
  }

  /** The well lists of some nodes, as a set: ChildWellLists over the
      nodes' const fields. It is kept apart from ChildWellLists so that the
      building methods reason about node fields without unfolding Abstract();
      AbstractShape links the two. */
  ghost function WellListsOf(nodes: seq<LineageNode>): set<seq<WellId>> {
    set k | 0 <= k < |nodes| :: nodes[k].wells
  }

  /** Nodes holding the well lists of subwells, in order, hold them once
      each: their well lists are the set of subwells and pairwise differ. */
  lemma LeafWellLists(nodes: seq<LineageNode>, subwells: seq<seq<WellId>>)
    requires |nodes| == |subwells| && NoDup(subwells)
    requires forall k :: 0 <= k < |nodes| ==> nodes[k].wells == subwells[k]
    ensures WellListsOf(nodes) == Elems(subwells)
    ensures forall i, j :: 0 <= i < j < |nodes| ==> nodes[i].wells != nodes[j].wells
  {
    forall s | s in Elems(subwells) ensures s in WellListsOf(nodes) {
      var j :| 0 <= j < |subwells| && subwells[j] == s;
      assert nodes[j].wells == s;
    }
  }

  /** The value of a valid node has the node's fields, and its children are
      the values of the node's children. */
  lemma AbstractShape(n: LineageNode)
    requires n.Valid()
    ensures n.Abstract().id == n.id && n.Abstract().wells == n.wells && n.Abstract().timepoint == n.timepoint
    ensures |n.Abstract().children| == |n.children|
    ensures forall k :: 0 <= k < |n.children| ==>
      n.Abstract().children[k].id == n.children[k].id &&
      n.Abstract().children[k].wells == n.children[k].wells &&
      n.Abstract().children[k].timepoint == n.children[k].timepoint &&
      n.Abstract().children[k] == n.children[k].Abstract()
    ensures ChildWellLists(n.Abstract().children) == WellListsOf(n.children)
  {
    var a := n.Abstract().children;
    forall k | 0 <= k < |n.children| ensures a[k] == n.children[k].Abstract() && a[k].wells == n.children[k].wells {
      assert n.children[k].Valid();
    }
  }

  /** Nodes just attached below parent at timepoint tp: distinct leaves
      whose parent is parent. */
  ghost predicate Leaves(ch: seq<LineageNode>, parent: LineageNode, tp: int)
    reads ch
  {
    && (forall k :: 0 <= k < |ch| ==>
      && ch[k] != parent && ch[k].parent == parent && ch[k].timepoint == tp
      && ch[k].children == [] && ch[k].repr == {ch[k]})
    && (forall j, k :: 0 <= j < k < |ch| ==> ch[j] != ch[k])
  }

  /** The nodes attached below a node with this id and these wells refine it
      by the groups at timepoint tp, as ChildrenRefine says of values. It
      reads only const fields, which keeps the frame reasoning of the
      building methods cheap; GrownNode derives ChildrenRefine from it. */
  ghost predicate NodesRefine(ch: seq<LineageNode>, id: string, wells: seq<WellId>, groups: set<set<WellId>>, tp: int) {
    && (forall k :: 0 <= k < |ch| ==> ch[k].id == ChildId(id, k) && ch[k].timepoint == tp)
    && (forall j, k :: 0 <= j < k < |ch| ==> ch[j].wells != ch[k].wells)
    && WellListsOf(ch) == GroupIntersections(wells, groups)
  }

  /** A valid node at level idx holds a subtree grown from there when, at
      the last level, it is a leaf, and otherwise its children were attached
      for the next level's groups and their subtrees are grown from there. */
  lemma GrownNode(n: LineageNode, levels: seq<Level>, idx: nat)
    requires n.Valid()
    requires idx < |levels| && n.timepoint == levels[idx].timepoint
    requires idx + 1 == |levels| ==> n.children == []
    requires idx + 1 < |levels| ==>
      NodesRefine(n.children, n.id, n.wells, levels[idx + 1].groups, levels[idx + 1].timepoint)
    requires forall k :: 0 <= k < |n.children| ==> Grown(n.children[k].Abstract(), levels, idx + 1)
    ensures Grown(n.Abstract(), levels, idx)
  {
    AbstractShape(n);
  }

  /** The first loop of attach_child_nodes: the non-empty sorted
      intersections of ws with the groups, in the order the groups are
      visited. With pairwise disjoint groups no intersection comes twice. */
  method CollectIntersections(ws: seq<WellId>, groups: set<set<WellId>>) returns (subwells: seq<seq<WellId>>)
    requires forall g, h :: g in groups && h in groups && g != h ==> g !! h
    ensures Elems(subwells) == GroupIntersections(ws, groups)
    ensures NoDup(subwells)
  {
    subwells := [];
    var rest := groups;
    while rest != {}
      invariant rest <= groups
      invariant forall s :: s in subwells <==>
        exists g :: g in groups && g !in rest && SortedIntersection(ws, g) != [] && s == SortedIntersection(ws, g)
      invariant NoDup(subwells)
      decreases |rest|
    {
      var g :| g in rest;
      var wellset := SortedIntersection(ws, g);
      if |wellset| > 0 {
        forall s | s in subwells ensures s != wellset {
          var h :| h in groups && h !in rest && SortedIntersection(ws, h) != [] && s == SortedIntersection(ws, h);
          assert wellset[0] in g;
        }
        assert forall i :: 0 <= i < |subwells| ==> subwells[i] in subwells;
        subwells := subwells + [wellset];
      }
      rest := rest - {g};
    }
  }
}
