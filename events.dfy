/** Events and the pure queries of class Timeline over its event list:
    events at a timepoint, events in a well, unique timepoints, and the two
    groupings (of wells by event signature, of events by the wells they
    share). */
module EventLog {
  import opened Basics
  import opened Plates
  import Sorting

  /** An action taken at a timepoint on some wells of a plate. Python events
      compare by object identity; `ordinal`, unique within a timeline, gives
      the model the same identity. */
  datatype Event = Event(ordinal: nat, timepoint: int, action: string, plate: PlateId, wells: seq<WellId>)

  /** get_events_at_timepoint: [evn for evn in events if evn.timepoint == tp] */
  function EventsAtTimepoint(es: seq<Event>, tp: int): (r: seq<Event>)
    ensures forall e :: e in r <==> e in es && e.timepoint == tp
    ensures |r| <= |es|
  {
    if es == [] then []
    else
      var last := es[|es| - 1];
      EventsAtTimepoint(es[..|es| - 1], tp) + (if last.timepoint == tp then [last] else [])
  }

  /** The selection keeps log order: it distributes over concatenation. */
  lemma {:induction false} EventsAtTimepointConcat(a: seq<Event>, b: seq<Event>, tp: int)
    ensures EventsAtTimepoint(a + b, tp) == EventsAtTimepoint(a, tp) + EventsAtTimepoint(b, tp)
    decreases |b|
  {
    if b == [] {
      assert a + b == a;
    } else {
      var b' := b[..|b| - 1];
      assert (a + b)[..|a + b| - 1] == a + b';
      EventsAtTimepointConcat(a, b', tp);
    }
  }

  /** The events of s that list well w, in order. */
  function Touching(s: seq<Event>, w: WellId): (r: seq<Event>)
    ensures forall e :: e in r <==> e in s && w in e.wells
    ensures |r| <= |s|
  {
    if s == [] then []
    else
      var last := s[|s| - 1];
      Touching(s[..|s| - 1], w) + (if w in last.wells then [last] else [])
  }

  lemma {:induction false} TouchingConcat(a: seq<Event>, b: seq<Event>, w: WellId)
    ensures Touching(a + b, w) == Touching(a, w) + Touching(b, w)
    decreases |b|
  {
    if b == [] {
      assert a + b == a;
    } else {
      var b' := b[..|b| - 1];
      assert (a + b)[..|a + b| - 1] == a + b';
      TouchingConcat(a, b', w);
    }
  }

  /** get_events_in_well(well, timepoint): the events at the timepoint that
      list the well, in log order (the well's signature at that timepoint). */
  function EventsInWell(es: seq<Event>, w: WellId, tp: int): (r: seq<Event>)
    ensures forall e :: e in r <==> e in es && e.timepoint == tp && w in e.wells
    ensures |r| <= |EventsAtTimepoint(es, tp)|
  {
    Touching(EventsAtTimepoint(es, tp), w)
  }

  /** Two selections from one list agree when the two wells are listed by
      the same events of it. */
  lemma {:induction false} TouchingSame(s: seq<Event>, w: WellId, v: WellId)
    requires forall e :: e in s ==> (w in e.wells <==> v in e.wells)
    ensures Touching(s, w) == Touching(s, v)
    decreases |s|
  {
    if s != [] {
      var s' := s[..|s| - 1];
      assert forall e :: e in s' ==> e in s;
      assert s[|s| - 1] in s;
      TouchingSame(s', w, v);
    }
  }

  /** Two wells have the same signature at tp exactly when every event at tp
      lists both of them or neither. */
  lemma SameSignature(es: seq<Event>, tp: int, w: WellId, v: WellId)
    ensures EventsInWell(es, w, tp) == EventsInWell(es, v, tp) <==>
            forall e :: e in es && e.timepoint == tp ==> (w in e.wells <==> v in e.wells)
  {
    var at := EventsAtTimepoint(es, tp);
    if forall e :: e in es && e.timepoint == tp ==> (w in e.wells <==> v in e.wells) {
      TouchingSame(at, w, v);
    }
  }

  function Timepoints(es: seq<Event>): (r: seq<int>)
    ensures forall t :: t in r <==> exists e :: e in es && e.timepoint == t
  {
    var r := seq(|es|, i requires 0 <= i < |es| => es[i].timepoint);
    assert forall e :: e in es ==> e.timepoint in r by {
      forall e | e in es ensures e.timepoint in r {
        var i :| 0 <= i < |es| && es[i] == e;
        assert r[i] == e.timepoint;
      }
    }
    r
  }

  /** get_unique_timepoints: sorted(set(timepoints)) is strictly ascending and
      holds exactly the timepoints of the events. */
  function UniqueTimepoints(es: seq<Event>): (r: seq<int>)
    ensures forall i, j :: 0 <= i < j < |r| ==> r[i] < r[j]
    ensures forall t :: t in r <==> exists e :: e in es && e.timepoint == t
  {
    Sorting.IntLessIsStrictTotalOrder();
    Sorting.SortUnique(Timepoints(es), Sorting.IntLess)
  }

  /** Only an empty log has no timepoint: indexing the first unique
      timepoint fails exactly for an empty timeline. */
  lemma UniqueTimepointsEmpty(es: seq<Event>)
    ensures UniqueTimepoints(es) == [] <==> es == []
  {
    if es != [] {
      assert es[0].timepoint in UniqueTimepoints(es);
    }
  }

  /** In a log ascending by timepoint, the first unique timepoint is that of
      the first event and the last is that of the last event. */
  lemma SortedLogTimepoints(es: seq<Event>)
    requires es != []
    requires forall i, j :: 0 <= i < j < |es| ==> es[i].timepoint <= es[j].timepoint
    ensures UniqueTimepoints(es) != []
    ensures UniqueTimepoints(es)[0] == es[0].timepoint
    ensures UniqueTimepoints(es)[|UniqueTimepoints(es)| - 1] == es[|es| - 1].timepoint
  {
    var u := UniqueTimepoints(es);
    UniqueTimepointsEmpty(es);
    assert u[0] in u && u[|u| - 1] in u;
    var e0 :| e0 in es && e0.timepoint == u[0];
    var e1 :| e1 in es && e1.timepoint == u[|u| - 1];
    var i0 :| 0 <= i0 < |es| && es[i0] == e0;
    var i1 :| 0 <= i1 < |es| && es[i1] == e1;
    AscendingBounds(u, es[0].timepoint);
    AscendingBounds(u, es[|es| - 1].timepoint);
  }

  lemma AscendingBounds(u: seq<int>, t: int)
    requires forall i, j :: 0 <= i < j < |u| ==> u[i] < u[j]
    requires t in u
    ensures u[0] <= t <= u[|u| - 1]
  {
  }

  /** The well group of w: the wells of `ids` with w's signature at tp. */
  function WellGroup(es: seq<Event>, tp: int, ids: seq<WellId>, w: WellId): set<WellId> {
    set v | v in ids && EventsInWell(es, v, tp) == EventsInWell(es, w, tp)
  }

  /** The grouping computed by get_well_permutations(tp, fmt), with ids the
      wells of fmt: one group per signature that some well has. */
  function WellPartition(es: seq<Event>, tp: int, ids: seq<WellId>): set<set<WellId>> {
    set w | w in ids :: WellGroup(es, tp, ids, w)
  }

  /** The groups partition the plate's wells: each is non-empty, they are
      pairwise disjoint, they cover every well, and two wells share a group
      exactly when their signatures (event tuples) are equal. */
  lemma WellPartitionIsPartition(es: seq<Event>, tp: int, ids: seq<WellId>)
    ensures forall g :: g in WellPartition(es, tp, ids) ==> g != {} && forall v :: v in g ==> v in ids
    ensures forall w :: w in ids ==> WellGroup(es, tp, ids, w) in WellPartition(es, tp, ids) && w in WellGroup(es, tp, ids, w)
    ensures forall g, h :: g in WellPartition(es, tp, ids) && h in WellPartition(es, tp, ids) && g != h ==> g !! h
    ensures forall g, w, v :: g in WellPartition(es, tp, ids) && w in g && v in ids ==>
      (v in g <==> EventsInWell(es, v, tp) == EventsInWell(es, w, tp))
  {
    var p := WellPartition(es, tp, ids);
    forall g | g in p ensures g != {} && forall v :: v in g ==> v in ids {
      var w :| w in ids && g == WellGroup(es, tp, ids, w);
      assert w in g;
    }
    forall g, h | g in p && h in p && g != h ensures g !! h {
      var w :| w in ids && g == WellGroup(es, tp, ids, w);
      var u :| u in ids && h == WellGroup(es, tp, ids, u);
    }
    forall g, w, v | g in p && w in g && v in ids
      ensures v in g <==> EventsInWell(es, v, tp) == EventsInWell(es, w, tp)
    {
      var u :| u in ids && g == WellGroup(es, tp, ids, u);
    }
  }

  /** Well w is counted for event e when e's plate is registered, w is one
      of the wells wellsOf gives for that plate's format, and e lists w.
      wellsOf stands for PlateDesign.get_well_ids (WellIds). */
  predicate Covers(plates: map<PlateId, PlateFormat>, wellsOf: PlateFormat -> seq<WellId>, e: Event, w: WellId) {
    e.plate in plates && w in wellsOf(plates[e.plate]) && w in e.wells
  }

  /** Covers as a function value, for the grouping below. */
  function CoverageOf(plates: map<PlateId, PlateFormat>, wellsOf: PlateFormat -> seq<WellId>): (Event, WellId) -> bool
  {
    (e: Event, w: WellId) => Covers(plates, wellsOf, e, w)
  }

  /** The events of `at` that cover w. */
  function Covering(at: seq<Event>, covers: (Event, WellId) -> bool, w: WellId): set<Event> {
    set e | e in at && covers(e, w)
  }

  /** The event sets of the wells that some event of `at` covers. */
  function GroupsByWell(at: seq<Event>, covers: (Event, WellId) -> bool): set<set<Event>> {
    set e, w | e in at && w in e.wells && covers(e, w) :: Covering(at, covers, w)
  }

  /** The events at tp that cover w, as a set. */
  function EventGroup(es: seq<Event>, tp: int, plates: map<PlateId, PlateFormat>, wellsOf: PlateFormat -> seq<WellId>, w: WellId): set<Event> {
    Covering(EventsAtTimepoint(es, tp), CoverageOf(plates, wellsOf), w)
  }

  /** The grouping computed by get_event_permutations(tp), with wellsOf
      being WellIds: the distinct event sets of the wells some event at tp
      covers. */
  function EventPermutationSets(es: seq<Event>, tp: int, plates: map<PlateId, PlateFormat>, wellsOf: PlateFormat -> seq<WellId>): set<set<Event>> {
    GroupsByWell(EventsAtTimepoint(es, tp), CoverageOf(plates, wellsOf))
  }

  /** A group is a non-empty Covering set, and every non-empty Covering set
      is a group. */
  lemma GroupsByWellSpec(at: seq<Event>, covers: (Event, WellId) -> bool, g: set<Event>)
    requires forall e, w :: covers(e, w) ==> w in e.wells
    ensures g in GroupsByWell(at, covers) <==> g != {} && exists w :: g == Covering(at, covers, w)
  {
    if g != {} && exists w :: g == Covering(at, covers, w) {
      var w :| g == Covering(at, covers, w);
      var e :| e in g;
      assert e in at && w in e.wells && covers(e, w);
    }
    if g in GroupsByWell(at, covers) {
      var e, w :| e in at && w in e.wells && covers(e, w) && g == Covering(at, covers, w);
      assert e in g;
    }
  }

  /** A set of events is a permutation exactly when it is the non-empty event
      set of some well; wells no event covers contribute no (empty) group. */
  lemma EventPermutationSetsSpec(es: seq<Event>, tp: int, plates: map<PlateId, PlateFormat>, wellsOf: PlateFormat -> seq<WellId>, g: set<Event>)
    ensures g in EventPermutationSets(es, tp, plates, wellsOf) <==>
      g != {} && exists w :: g == EventGroup(es, tp, plates, wellsOf, w)
  {
    var at := EventsAtTimepoint(es, tp);
    var covers := CoverageOf(plates, wellsOf);
    assert forall w :: EventGroup(es, tp, plates, wellsOf, w) == Covering(at, covers, w);
    GroupsByWellSpec(at, covers, g);
  }
}
