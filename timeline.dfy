/** class Timeline: the event list, into which add_event inserts by a
    backward search that never reaches index 0 of a non-empty list (order is
    kept only as InsertedChronological states), the queries that loop over
    it, and get_lineage_tree. */
module Timelines {
  import opened Basics
  import opened Plates
  import opened EventLog
  import opened Lineages
  import Sorting
  import Strings

  /** Events ascending by timepoint. */
  predicate Chronological(s: seq<Event>) {
    forall i, j :: 0 <= i < j < |s| ==> s[i].timepoint <= s[j].timepoint
  }

  /** Where add_event puts an event with timepoint tp into the non-empty
      list s: one past the largest i >= 1 with s[i].timepoint < tp, or 1 when
      there is no such i (the backward search never inserts at 0). */
  ghost predicate IsInsertionIndex(s: seq<Event>, tp: int, p: int) {
    && 1 <= p <= |s|
    && (p == 1 || s[p - 1].timepoint < tp)
    && forall j :: p <= j < |s| ==> s[j].timepoint >= tp
  }

  lemma InsertionIndexUnique(s: seq<Event>, tp: int, p: int, q: int)
    requires IsInsertionIndex(s, tp, p) && IsInsertionIndex(s, tp, q)
    ensures p == q
  {
  }

  function InsertionIndex(s: seq<Event>, tp: int): (p: nat)
    requires s != []
    ensures IsInsertionIndex(s, tp, p)
  {
    if |s| == 1 then 1
    else if s[|s| - 1].timepoint < tp then |s|
    else InsertionIndex(s[..|s| - 1], tp)
  }

  /** The event list after add_event(e): e alone in an empty list, otherwise
      e placed at the insertion index. */
  function Inserted(s: seq<Event>, e: Event): (r: seq<Event>)
    ensures |r| == |s| + 1
  {
    if s == [] then [e]
    else
      var p := InsertionIndex(s, e.timepoint);
      s[..p] + [e] + s[p..]
  }

  /** The other events keep their relative order: removing e again gives back
      the old list, and e sits right after every event the search passed
      over. */
  lemma {:induction false} InsertedKeepsOrder(s: seq<Event>, e: Event)
    ensures var p := if s == [] then 0 else InsertionIndex(s, e.timepoint);
      && Inserted(s, e)[p] == e
      && Inserted(s, e)[..p] + Inserted(s, e)[p + 1..] == s
      && multiset(Inserted(s, e)) == multiset(s) + multiset{e}
  {
    if s != [] {
      var p := InsertionIndex(s, e.timepoint);
      assert Inserted(s, e) == s[..p] + [e] + s[p..];
      assert |s[..p]| == p && s[..p] + s[p..] == s;
      Spliced(s[..p], e, s[p..]);
    }
  }

  /** x put between a and b sits at |a|, and taking it out again gives a + b. */
  lemma {:induction false} Spliced<T>(a: seq<T>, x: T, b: seq<T>)
    ensures (a + [x] + b)[|a|] == x
    ensures (a + [x] + b)[..|a|] + (a + [x] + b)[|a| + 1..] == a + b
    ensures multiset(a + [x] + b) == multiset(a + b) + multiset{x}
  {
    var r := a + [x] + b;
    assert r[..|a|] == a;
    assert r[|a| + 1..] == b;
  }

  /** On a chronological list the insertion keeps it chronological exactly
      when the new timepoint is not before the first event's. */
  lemma InsertedChronological(s: seq<Event>, e: Event)
    requires s != [] && Chronological(s)
    ensures Chronological(Inserted(s, e)) <==> e.timepoint >= s[0].timepoint
  {
    var p := InsertionIndex(s, e.timepoint);
    var r := Inserted(s, e);
    assert r[0] == s[0];
    if e.timepoint < s[0].timepoint {
      assert forall j :: 1 <= j < |s| ==> s[j].timepoint >= s[0].timepoint;
      assert p == 1;
      assert r[1] == e;
    } else {
      forall i, j | 0 <= i < j < |r| ensures r[i].timepoint <= r[j].timepoint {
        if j < p {
          assert r[i] == s[i] && r[j] == s[j];
        } else if i > p {
          assert r[i] == s[i - 1] && r[j] == s[j - 1];
        } else if i == p {
          assert r[j] == s[j - 1];
        } else if j == p {
          assert r[i] == s[i];
          if p > 1 {
            assert s[i].timepoint <= s[p - 1].timepoint;
          }
        } else {
          assert r[i] == s[i] && r[j] == s[j - 1];
        }
      }
    }
  }

  /** Not a stable insert: on a chronological list the new event goes before
      every old event at index 1 or later that has the same timepoint. */
  lemma InsertedBeforeEqual(s: seq<Event>, e: Event, j: nat)
    requires s != [] && Chronological(s)
    requires 1 <= j < |s| && s[j].timepoint == e.timepoint
    ensures InsertionIndex(s, e.timepoint) <= j
  {
  }

  /** Two events at the same timepoint: the second lands between them only
      because the search stops at index 0. */
  lemma InsertedEqualTimepoints(a: Event, b: Event, e: Event)
    requires a.timepoint == b.timepoint == e.timepoint
    ensures Inserted([a], e) == [a, e]
    ensures Inserted([a, b], e) == [a, e, b]
  {
  }

  /** The new ordinal is above all old ones, so the new list still has
      pairwise distinct ordinals, all below the next one. */
  lemma {:induction false} OrdinalsFresh(s: seq<Event>, e: Event)
    requires forall k :: 0 <= k < |s| ==> s[k].ordinal < e.ordinal
    requires forall k, l :: 0 <= k < l < |s| ==> s[k].ordinal != s[l].ordinal
    ensures forall k :: 0 <= k < |Inserted(s, e)| ==> Inserted(s, e)[k].ordinal < e.ordinal + 1
    ensures forall k, l :: 0 <= k < l < |Inserted(s, e)| ==> Inserted(s, e)[k].ordinal != Inserted(s, e)[l].ordinal
  {
    var r := Inserted(s, e);
    forall k | 0 <= k < |r| ensures r[k].ordinal < e.ordinal + 1 {
      InsertedAt(s, e, k);
    }
    forall i, j | 0 <= i < j < |r| ensures r[i].ordinal != r[j].ordinal {
      InsertedAt(s, e, i);
      InsertedAt(s, e, j);
    }
  }

  /** The event at index k after the insertion: an old event before the
      insertion index, e at it, and the old event one to the left after it. */
  lemma {:induction false} InsertedAt(s: seq<Event>, e: Event, k: nat)
    requires k <= |s|
    ensures Inserted(s, e)[k] ==
      if s == [] then e
      else var p := InsertionIndex(s, e.timepoint);
        if k < p then s[k] else if k == p then e else s[k - 1]
  {
    if s != [] {
      var p := InsertionIndex(s, e.timepoint);
      assert Inserted(s, e) == s[..p] + [e] + s[p..];
      SplicedAt(s[..p], e, s[p..], k);
    }
  }

  lemma {:induction false} SplicedAt<T>(a: seq<T>, x: T, b: seq<T>, k: nat)
    requires k <= |a| + |b|
    ensures (a + [x] + b)[k] == if k < |a| then a[k] else if k == |a| then x else b[k - |a| - 1]
  {
  }

  /** d maps each key that some value of vs has to the values of vs with
      that key, and has no other key. */
  ghost predicate GroupedBy<K(!new), V(!new)>(d: map<K, seq<V>>, vs: seq<V>, key: V -> K) {
    && (forall sig :: sig in d <==> exists v :: v in vs && key(v) == sig)
    && (forall sig, v :: sig in d ==> (v in d[sig] <==> v in vs && key(v) == sig))
  }

  /** Appending v to the list of its key, or starting that list, groups one
      more value. */
  lemma GroupedStep<K(!new), V(!new)>(d: map<K, seq<V>>, vs: seq<V>, v: V, key: V -> K)
    requires GroupedBy(d, vs, key)
    ensures GroupedBy(if key(v) in d then d[key(v) := d[key(v)] + [v]] else d[key(v) := [v]], vs + [v], key)
  {
  }

  /** The loop of get_well_permutations: a dictionary from the key of each
      value of vs to the values that have it, in their order in vs. */
  method GroupMap<K(==,!new), V(==,!new)>(vs: seq<V>, key: V -> K) returns (d: map<K, seq<V>>)
    ensures GroupedBy(d, vs, key)
  {
    d := map[];
    var k := 0;
    while k < |vs|
      invariant 0 <= k <= |vs|
      invariant GroupedBy(d, vs[..k], key)
    {
      var v := vs[k];
      var sig := key(v);
      GroupedStep(d, vs[..k], v, key);
      assert vs[..k + 1] == vs[..k] + [v];
      if sig !in d {
        d := d[sig := [v]];
      } else {
        d := d[sig := d[sig] + [v]];
      }
      k := k + 1;
    }
    assert vs[..k] == vs;
  }

  /** The groups of a dictionary from signatures to the plate wells that
      have them are the well partition. */
  lemma GroupsOfSignatures(es: seq<Event>, tp: int, ids: seq<WellId>, d: map<seq<Event>, seq<WellId>>,
                            key: WellId -> seq<Event>, r: set<set<WellId>>)
    requires forall v :: key(v) == EventsInWell(es, v, tp)
    requires GroupedBy(d, ids, key)
    requires r == set sig | sig in d :: Elems(d[sig])
    ensures r == WellPartition(es, tp, ids)
  {
    var p := WellPartition(es, tp, ids);
    forall g | g in r ensures g in p {
      var sig :| sig in d && g == Elems(d[sig]);
      var v :| v in ids && key(v) == sig;
      assert g == WellGroup(es, tp, ids, v);
    }
    forall g | g in p ensures g in r {
      var w :| w in ids && g == WellGroup(es, tp, ids, w);
      var sig := EventsInWell(es, w, tp);
      assert sig in d;
      assert g == Elems(d[sig]);
    }
  }

  /** d maps each well that some event of `at` covers to the events of `at`
      covering it, and has no other well. */
  ghost predicate WellMapOf(at: seq<Event>, covers: (Event, WellId) -> bool, d: map<WellId, seq<Event>>) {
    && (forall w :: w in d <==> exists e :: e in at && covers(e, w))
    && (forall w, e :: w in d ==> (e in d[w] <==> e in at && covers(e, w)))
  }

  /** d' is d with `event` appended for every well it covers. */
  ghost predicate EventAdded(d: map<WellId, seq<Event>>, event: Event, covers: (Event, WellId) -> bool, d': map<WellId, seq<Event>>) {
    && (forall w :: w in d' <==> w in d || covers(event, w))
    && (forall w, e :: w in d' ==> (e in d'[w] <==> (w in d && e in d[w]) || (e == event && covers(event, w))))
  }

  /** Adding the next event of the list extends the dictionary of a prefix
      to the dictionary of the longer prefix. */
  lemma WellMapStep(at: seq<Event>, i: nat, covers: (Event, WellId) -> bool, d: map<WellId, seq<Event>>, d': map<WellId, seq<Event>>)
    requires i < |at|
    requires WellMapOf(at[..i], covers, d)
    requires EventAdded(d, at[i], covers, d')
    ensures WellMapOf(at[..i + 1], covers, d')
  {
    assert at[..i + 1] == at[..i] + [at[i]];
  }

  /** The event sets of a dictionary from wells to the events covering them
      are the groups by well. */
  lemma GroupsOfWellMap(at: seq<Event>, covers: (Event, WellId) -> bool, d: map<WellId, seq<Event>>, r: set<set<Event>>)
    requires forall e, w :: covers(e, w) ==> w in e.wells
    requires WellMapOf(at, covers, d)
    requires r == set w | w in d :: Elems(d[w])
    ensures r == GroupsByWell(at, covers)
  {
    var p := GroupsByWell(at, covers);
    forall g | g in r ensures g in p {
      var w :| w in d && g == Elems(d[w]);
      var e :| e in at && covers(e, w);
      assert g == Covering(at, covers, w);
    }
    forall g | g in p ensures g in r {
      var e, w :| e in at && w in e.wells && covers(e, w) && g == Covering(at, covers, w);
      assert w in d;
      assert g == Elems(d[w]);
    }
  }

  /** What the coverage relation says about the wells of one event whose
      plate is registered. */
  lemma EventCoverage(plates: map<PlateId, PlateFormat>, wellsOf: PlateFormat -> seq<WellId>, event: Event)
    requires event.plate in plates
    ensures forall w :: CoverageOf(plates, wellsOf)(event, w) <==> w in wellsOf(plates[event.plate]) && w in event.wells
  {
  }

  /** An entry of the events at tp with an unregistered plate is an event
      at tp with an unregistered plate. */
  lemma UnregisteredAt(es: seq<Event>, tp: int, plates: map<PlateId, PlateFormat>, k: nat)
    requires k < |EventsAtTimepoint(es, tp)| && EventsAtTimepoint(es, tp)[k].plate !in plates
    ensures exists e :: e in es && e.timepoint == tp && e.plate !in plates
  {
    var at := EventsAtTimepoint(es, tp);
    assert at[k] in at;
  }

  /** When every entry of the events at tp has a registered plate, so does
      every event at tp. */
  lemma AllRegisteredAt(es: seq<Event>, tp: int, plates: map<PlateId, PlateFormat>)
    requires forall k :: 0 <= k < |EventsAtTimepoint(es, tp)| ==> EventsAtTimepoint(es, tp)[k].plate in plates
    ensures !exists e :: e in es && e.timepoint == tp && e.plate !in plates
  {
    var at := EventsAtTimepoint(es, tp);
    forall e | e in es && e.timepoint == tp ensures e.plate in plates {
      assert e in at;
      var k :| 0 <= k < |at| && at[k] == e;
    }
  }

  /** A complete dictionary for the events at tp yields exactly the
      permutation sets at tp. */
  lemma PermutationsOfWellMap(es: seq<Event>, tp: int, plates: map<PlateId, PlateFormat>,
                              wellsOf: PlateFormat -> seq<WellId>, d: map<WellId, seq<Event>>)
    requires WellMapOf(EventsAtTimepoint(es, tp), CoverageOf(plates, wellsOf), d)
    ensures (set w | w in d :: Elems(d[w])) == EventPermutationSets(es, tp, plates, wellsOf)
  {
    GroupsOfWellMap(EventsAtTimepoint(es, tp), CoverageOf(plates, wellsOf), d, set w | w in d :: Elems(d[w]));
  }

  class Timeline {
    var stock: string
    var events: seq<Event>
    /** The plates of the experiment; nothing in the source adds to it. */
    var plates: seq<PlateId>
    /** The ordinal the next event gets. */
    var nextOrdinal: nat

    /** Every event has its own ordinal, below nextOrdinal. */
    ghost predicate Valid()
      reads this
    {
      && (forall i :: 0 <= i < |events| ==> events[i].ordinal < nextOrdinal)
      && (forall i, j :: 0 <= i < j < |events| ==> events[i].ordinal != events[j].ordinal)
    }

    constructor (stock: string)
      ensures this.stock == stock && events == [] && plates == [] && nextOrdinal == 0
      ensures Valid()
    {
      this.stock := stock;
      events := [];
      plates := [];
      nextOrdinal := 0;
    }

    /** add_event: the backward search from the last event, stopping at
        the first event with a smaller timepoint or at index 0, then the
        insertion just after it. */
    method AddEvent(timepoint: int, action: string, plateId: PlateId, wellIds: seq<WellId>) returns (evt: Event)
      requires Valid()
      modifies this
      ensures Valid()
      ensures evt == Event(old(nextOrdinal), timepoint, action, plateId, wellIds)
      ensures events == Inserted(old(events), evt)
      ensures nextOrdinal == old(nextOrdinal) + 1
      ensures stock == old(stock) && plates == old(plates)
    {
      evt := Event(nextOrdinal, timepoint, action, plateId, wellIds);
      ghost var before := events;
      if |events| == 0 {
        events := [evt];
      } else {
        var i := |events| - 1;
        while !(timepoint > events[i].timepoint || i == 0)
          invariant 0 <= i < |events|
          invariant forall j :: i < j < |events| ==> events[j].timepoint >= timepoint
          decreases i
        {
          i := i - 1;
        }
        assert IsInsertionIndex(before, timepoint, i + 1);
        InsertionIndexUnique(before, timepoint, i + 1, InsertionIndex(before, timepoint));
        events := events[..i + 1] + [evt] + events[i + 1..];
      }
      nextOrdinal := nextOrdinal + 1;
      OrdinalsFresh(before, evt);
    }

    /** get_event_list: a copy of the list; a sequence is a value, so
        changing the copy cannot change the timeline. */
    method GetEventList() returns (r: seq<Event>)
      requires Valid()
      ensures r == events
    {
      r := events;
    }

    /** get_well_ids(timepoint): the wells listed by the events at the
        timepoint (by every event when it is None), each once. */
    method GetWellIds(timepoint: Option<int>) returns (r: seq<WellId>)
      requires Valid()
      ensures NoDup(r)
      ensures forall w :: w in r <==>
        exists e :: e in events && (timepoint.None? || e.timepoint == timepoint.value) && w in e.wells
    {
      var list := GetEventList();
      var wellIds: seq<WellId> := [];
      var i := 0;
      while i < |list|
        invariant 0 <= i <= |list|
        invariant forall w :: w in wellIds <==>
          exists k :: 0 <= k < i && (timepoint.None? || list[k].timepoint == timepoint.value) && w in list[k].wells
      {
        var evt := list[i];
        if timepoint.None? || evt.timepoint == timepoint.value {
          wellIds := wellIds + evt.wells;
        }
        i := i + 1;
      }
      Sorting.LexLessIsStrictTotalOrder();
      r := Sorting.SortUnique(wellIds, Strings.LexLess);
      Sorting.IncreasingNoDup(r, Strings.LexLess);
      forall w ensures w in r <==>
        exists e :: e in events && (timepoint.None? || e.timepoint == timepoint.value) && w in e.wells
      {
        if exists e :: e in events && (timepoint.None? || e.timepoint == timepoint.value) && w in e.wells {
          var e :| e in events && (timepoint.None? || e.timepoint == timepoint.value) && w in e.wells;
          var k :| 0 <= k < |list| && list[k] == e;
        }
      }
    }

    /** get_well_permutations(timepoint, plate_format): the wells of the
        format grouped by their get_events_in_well tuples. */
    method GetWellPermutations(timepoint: int, fmt: PlateFormat) returns (r: set<set<WellId>>)
      requires Valid()
      ensures r == WellPartition(events, timepoint, WellIds(fmt))
    {
      r := GroupBySignature(timepoint, WellIds(fmt));
    }

    /** get_well_permutations over the wells `ids`: the set of the groups of
        the dictionary that GroupMap builds, keyed by get_events_in_well. */
    method GroupBySignature(timepoint: int, ids: seq<WellId>) returns (r: set<set<WellId>>)
      requires Valid()
      ensures r == WellPartition(events, timepoint, ids)
    {
      var es := events;
      var key := (v: WellId) => EventsInWell(es, v, timepoint);
      var d := GroupMap(ids, key);
      r := set sig | sig in d :: Elems(d[sig]);
      GroupsOfSignatures(events, timepoint, ids, d, key, r);
    }

    /** get_event_permutations(timepoint), with PlateDesign.get_well_ids
        passed as wellsOf: for every event at the timepoint, each well of its
        plate's format that it lists gets the event appended in a dictionary
        keyed by well; the result is the set of the event sets. Looking up an
        unregistered plate fails. */
    method GetEventPermutations(timepoint: int, registry: PlateRegistry, wellsOf: PlateFormat -> seq<WellId>)
      returns (r: Result<set<set<Event>>>)
      requires Valid()
      ensures r.Err? <==> exists e :: e in events && e.timepoint == timepoint && e.plate !in registry.plates
      ensures r.Err? ==> r.error == UnknownPlate
      ensures r.Ok? ==> r.value == EventPermutationSets(events, timepoint, registry.plates, wellsOf)
    {
      var at := EventsAtTimepoint(events, timepoint);
      var plates := registry.plates;
      var d: map<WellId, seq<Event>> := map[];
      var i := 0;
      while i < |at|
        invariant 0 <= i <= |at|
        invariant forall k :: 0 <= k < i ==> at[k].plate in plates
        invariant WellMapOf(at[..i], CoverageOf(plates, wellsOf), d)
      {
        var event := at[i];
        var found := registry.GetPlateFormat(event.plate);
        if found.Err? {
          UnregisteredAt(events, timepoint, registry.plates, i);
          return Err(UnknownPlate);
        }
        EventCoverage(plates, wellsOf, event);
        var d' := AddEventToWells(d, event, wellsOf(found.value), CoverageOf(plates, wellsOf));
        WellMapStep(at, i, CoverageOf(plates, wellsOf), d, d');
        d := d';
        i := i + 1;
      }
      assert at[..i] == at;
      AllRegisteredAt(events, timepoint, registry.plates);
      PermutationsOfWellMap(events, timepoint, plates, wellsOf, d);
      r := Ok(set w | w in d :: Elems(d[w]));
    }

    /** attach_child_nodes(parent, tp_idx): past the last unique timepoint
        there is nothing to attach; otherwise each non-empty sorted
        intersection of the parent's wells with a well group of fmt at the
        tp_idx-th timepoint becomes a new leaf child, numbered in the order
        of attachment. */
    method AttachChildNodes(parent: LineageNode, idx: nat, fmt: PlateFormat, ghost levels: seq<Level>)
      returns (nodes: Option<seq<LineageNode>>)
      requires Valid()
      requires parent.children == [] && parent.repr == {parent}
      requires LevelsOf(levels, events, fmt)
      modifies parent
      ensures nodes.None? <==> |levels| <= idx
      ensures nodes.None? ==> parent.children == [] && parent.repr == {parent}
      ensures nodes.Some? ==> parent.children == nodes.value && parent.repr == {parent} + (set n | n in nodes.value)
      ensures nodes.Some? ==> forall k :: 0 <= k < |nodes.value| ==> fresh(nodes.value[k])
      ensures nodes.Some? ==> Leaves(nodes.value, parent, levels[idx].timepoint)
      ensures nodes.Some? ==> NodesRefine(nodes.value, parent.id, parent.wells, levels[idx].groups, levels[idx].timepoint)
      ensures nodes.Some? ==> parent.Valid()
    {
      assert LevelOk(levels, events, fmt, idx);
      var tps := UniqueTimepoints(events);
      if |tps| <= idx {
        return None;
      }
      var timepoint := tps[idx];
      var groups := GetWellPermutations(timepoint, fmt);
      WellPartitionIsPartition(events, timepoint, WellIds(fmt));
      var subwells := CollectIntersections(parent.wells, groups);
      var created := AttachLeaves(parent, subwells, timepoint);
      nodes := Some(created);
    }

    /** The loop of attach_child_nodes over the intersections: one new leaf
        per well list, numbered in order and added to the parent. */
    static method AttachLeaves(parent: LineageNode, subwells: seq<seq<WellId>>, timepoint: int)
      returns (created: seq<LineageNode>)
      requires parent.children == [] && parent.repr == {parent}
      requires NoDup(subwells)
      modifies parent
      ensures parent.children == created && parent.repr == {parent} + (set n | n in created)
      ensures |created| == |subwells|
      ensures forall k :: 0 <= k < |created| ==>
        && fresh(created[k])
        && created[k].parent == parent
        && created[k].id == ChildId(parent.id, k)
        && created[k].wells == subwells[k]
        && created[k].timepoint == timepoint
        && created[k].children == [] && created[k].repr == {created[k]}
      ensures forall i, j :: 0 <= i < j < |created| ==> created[i] != created[j] && created[i].wells != created[j].wells
      ensures WellListsOf(created) == Elems(subwells)
      ensures parent.Valid()
    {
      created := [];
      var k := 0;
      while k < |subwells|
        invariant 0 <= k <= |subwells| && |created| == k
        invariant parent.children == created && parent.repr == {parent} + (set n | n in created)
        invariant parent.Valid()
        invariant forall j :: 0 <= j < k ==>
          && fresh(created[j])
          && created[j].parent == parent
          && created[j].id == ChildId(parent.id, j)
          && created[j].wells == subwells[j]
          && created[j].timepoint == timepoint
          && created[j].children == [] && created[j].repr == {created[j]}
        invariant forall i, j :: 0 <= i < j < k ==> created[i] != created[j]
      {
        var node := new LineageNode(parent, ChildId(parent.id, k), subwells[k], timepoint);
        created := created + [node];
        parent.AddChild(node);
        k := k + 1;
      }
      LeafWellLists(created, subwells);
    }

    /** build_tree(parent, tp_idx): attach the children for the next
        unique timepoint and, when there is one, build each child's subtree
        in turn. The nodes below `node` are all new, and the value of the
        subtree is grown from level idx of `levels`, the levels the event log
        determines (get_lineage_tree passes Levels(events, P6), so the value is
        LineageFrom(.., events, P6, idx)). */
    method BuildTree(node: LineageNode, idx: nat, fmt: PlateFormat, ghost levels: seq<Level>)
      requires Valid()
      requires node.children == [] && node.repr == {node}
      requires LevelsOf(levels, events, fmt)
      requires idx < |levels| && node.timepoint == levels[idx].timepoint
      modifies node
      ensures node.Valid() && forall o :: o in node.repr && o != node ==> fresh(o)
      ensures Grown(node.Abstract(), levels, idx)
      decreases |levels| - idx, 1
    {
      var attached := AttachChildNodes(node, idx + 1, fmt, levels);
      if attached.Some? {
        BuildChildren(node, idx + 1, fmt, levels);
      }
      GrownNode(node, levels, idx);
    }

    /** The loop of build_tree over the children just attached: each
        child's subtree is built in turn. */
    method BuildChildren(node: LineageNode, idx: nat, fmt: PlateFormat, ghost levels: seq<Level>)
      requires Valid()
      requires LevelsOf(levels, events, fmt)
      requires idx < |levels|
      requires node.repr == {node} + (set n | n in node.children)
      requires Leaves(node.children, node, levels[idx].timepoint)
      modifies node, node.children
      ensures node.children == old(node.children)
      ensures node.Valid() && forall o :: o in node.repr && o !in old(node.repr) ==> fresh(o)
      ensures forall j :: 0 <= j < |node.children| ==> Grown(node.children[j].Abstract(), levels, idx)
      decreases |levels| - idx + 1, 0
    {
      var ch := node.children;
      ghost var built: seq<Lineage> := [];
      ghost var done: set<LineageNode> := {};
      var k := 0;
      while k < |ch|
        invariant 0 <= k <= |ch| && |built| == k
        invariant node.children == ch && node.repr == old(node.repr)
        invariant node !in done && forall o :: o in done && o !in old(node.repr) ==> fresh(o)
        invariant forall j :: k <= j < |ch| ==> ch[j].children == [] && ch[j].repr == {ch[j]} && ch[j] !in done
        invariant forall j :: 0 <= j < k ==> ch[j].Valid() && ch[j].repr <= done && ch[j].Abstract() == built[j]
        invariant forall j :: 0 <= j < k ==> Grown(built[j], levels, idx)
      {
        BuildChild(ch, k, idx, fmt, levels, done);
        built := built + [ch[k].Abstract()];
        done := done + ch[k].repr;
        k := k + 1;
      }
      label Built:
      node.repr := {node} + done;
      forall j | 0 <= j < |ch| ensures ch[j].Valid() && ch[j].Abstract() == built[j] {
        FramedNode@Built(ch[j]);
      }
    }

    /** One pass of the loop of BuildChildren: the subtree of ch[k] is
        built, and the subtrees before it, which lie in done, keep their
        values. */
    method BuildChild(ch: seq<LineageNode>, k: nat, idx: nat, fmt: PlateFormat,
                      ghost levels: seq<Level>, ghost done: set<LineageNode>)
      requires Valid()
      requires LevelsOf(levels, events, fmt)
      requires idx < |levels| && k < |ch|
      requires ch[k].children == [] && ch[k].repr == {ch[k]} && ch[k] !in done
      requires ch[k].timepoint == levels[idx].timepoint
      requires forall j :: 0 <= j < k ==> ch[j].Valid() && ch[j].repr <= done
      modifies ch[k]
      ensures ch[k].Valid() && forall o :: o in ch[k].repr && o != ch[k] ==> fresh(o)
      ensures Grown(ch[k].Abstract(), levels, idx)
      ensures forall j :: 0 <= j < k ==>
        ch[j].Valid() && ch[j].repr <= done && ch[j].Abstract() == old(ch[j].Abstract())
      decreases |levels| - idx, 2
    {
      label Before:
      BuildTree(ch[k], idx, fmt, levels);
      forall j | 0 <= j < k
        ensures ch[j].Valid() && ch[j].repr <= done && ch[j].Abstract() == old(ch[j].Abstract())
      {
        FramedNode@Before(ch[j]);
      }
    }

    /** get_lineage_tree: the root is named after the stock, holds the wells
        of every event and sits at the first unique timepoint, which does not
        exist for an empty timeline; build_tree then grows the whole tree. */
    method GetLineageTree() returns (r: Result<LineageNode>)
      requires Valid()
      ensures r.Err? <==> events == []
      ensures r.Err? ==> r.error == EmptyTimeline
      ensures r.Ok? ==> fresh(r.value.repr) && r.value.parent == null && r.value.Valid()
      ensures r.Ok? ==> LineageTree(r.value.Abstract(), stock, events)
    {
      var wells := GetWellIds(None);
      var tps := UniqueTimepoints(events);
      UniqueTimepointsEmpty(events);
      if |tps| == 0 {
        return Err(EmptyTimeline);
      }
      var root := new LineageNode(null, stock, wells, tps[0]);
      ghost var levels := Levels(events, P6);
      LevelsOfLevels(events, P6);
      BuildTree(root, 0, P6, levels);
      AbstractShape(root);
      r := Ok(root);
    }

    /** The inner loop of get_event_permutations: the event is appended to
        the list of each well of `ids` that it lists, a new list being
        started for a well not yet in the dictionary. */
    static method AddEventToWells(d: map<WellId, seq<Event>>, event: Event, ids: seq<WellId>,
                                  ghost covers: (Event, WellId) -> bool)
      returns (d': map<WellId, seq<Event>>)
      requires forall w :: covers(event, w) <==> w in ids && w in event.wells
      ensures EventAdded(d, event, covers, d')
    {
      d' := d;
      var k := 0;
      while k < |ids|
        invariant 0 <= k <= |ids|
        invariant forall w :: w in d' <==> w in d || (w in ids[..k] && w in event.wells)
        invariant forall w, e :: w in d' ==>
          (e in d'[w] <==> (w in d && e in d[w]) || (e == event && w in ids[..k] && w in event.wells))
      {
        var well := ids[k];
        assert ids[..k + 1] == ids[..k] + [well];
        if well in event.wells {
          if well !in d' {
            d' := d'[well := [event]];
          } else {
            d' := d'[well := d'[well] + [event]];
          }
        }
        k := k + 1;
      }
      assert ids[..k] == ids;
    }
  }
}
