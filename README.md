# Lineage profiler, modelled in Dafny

This project models the core of `src/lineageprofiler.py`: how wells on
multi-well plates, acted on by a chronological log of events, split into
sub-populations with identical histories.

- **PlateDesign** (module `Plates`). It holds the plate formats. It lists the
  well ids of a format in row-major order (`A01`, `A02`, …). It looks up the
  id at a (row, col) position. It also keeps a registry from plate ids to
  formats.
- **Event** (module `EventLog`). An event (the datatype `EventLog.Event`,
  src/lineageprofiler.py:177-202) is an action taken at a timepoint on some
  wells of one plate; its fields stand for the `get_*` accessors. This module also holds the pure queries of a
  timeline over its event list:
  - the events at a timepoint;
  - the events in a well at a timepoint, which is that well's *signature*
    there;
  - the unique timepoints;
  - the well partition of a plate by signature;
  - the "event permutations", which group events by the wells they share.
- **Timeline** (module `Timelines`). A class whose `add_event` inserts with
  the source's backward search. Into a non-empty list the new event never
  goes to index 0, so this keeps timepoint order only when the new
  timepoint is not before the first event's (InsertedChronological). Its
  loops (`get_well_ids`, `get_well_permutations`, `get_event_permutations`)
  are methods. `get_well_permutations` and `get_event_permutations` are
  proved equal to the specification function for their result;
  `get_well_ids` is proved to have no repeats and exactly the listed wells.
- **LineageNode and the lineage tree** (module `Lineages`, and
  `Timeline.GetLineageTree`). `get_lineage_tree` builds a tree of mutable
  nodes, with one level per unique timepoint. At each level, a node's
  children are the non-empty sorted intersections of its wells with the
  well groups of a 6-well plate at the next timepoint. `Lineage` is the
  value of such a tree. `LineageFrom` says which tree the event log
  determines, and the building methods are proved to produce it.

Python's `set` and `dict` iteration orders are not determined. So groupings
are sets, and the model leaves open the order in which children are
attached: the tree properties hold whatever that order is.

Modules `Basics` (`Option`, `Result`, the error kinds, `NoDup`), `Strings`
(the `%d` and `%02d` renderings, and Python's string order) and `Sorting`
(`sorted(set(xs))` under a strict total order) supply the vocabulary.

## Model

| member | source | states |
|---|---|---|
| Strings.Decimal | src/lineageprofiler.py:132 | `'%s' % i` for a child position is a non-empty digit string, at least two digits from 10 on |
| Strings.DecimalValue | src/lineageprofiler.py:132 | the rendering of a position reads back as that position |
| Strings.DecimalNoLeadingZero | src/lineageprofiler.py:132 | the rendering starts with '0' only for 0 |
| Strings.DecimalInjective | src/lineageprofiler.py:132 | different positions give different suffixes, so sibling ids differ |
| Strings.LeadingZeroValue | src/lineageprofiler.py:31 | padding a digit string with '0' keeps its value |
| Strings.ZeroPad2 | src/lineageprofiler.py:31 | definition of `'%02d' % n`; ZeroPad2Spec and ZeroPad2Injective state its properties |
| Strings.ZeroPad2Spec | src/lineageprofiler.py:31 | `'%02d' % n` is at least two digits and reads back as n; below 100 it is the tens digit then the units digit, from 100 on it is the plain rendering |
| Strings.ZeroPad2Injective | src/lineageprofiler.py:31 | distinct column numbers pad to distinct strings |
| Strings.LexLess | src/lineageprofiler.py:126 | definition of Python's `<` on strings, the order `sorted` uses; the three LexLess lemmas and Sorting.LexLessIsStrictTotalOrder state its properties |
| Strings.LexLessIrreflexive | src/lineageprofiler.py:126 | Python's `<` on strings is irreflexive |
| Strings.LexLessTransitive | src/lineageprofiler.py:126 | Python's `<` on strings is transitive |
| Strings.LexLessTotal | src/lineageprofiler.py:126 | any two different strings are ordered one way or the other |
| Sorting.Insert | src/lineageprofiler.py:154 | adding one element to an increasing list keeps it increasing and adds exactly that element |
| Sorting.SortUnique | src/lineageprofiler.py:154 | `sorted(set(xs))` is increasing and holds exactly the elements of xs |
| Sorting.IncreasingUnique | src/lineageprofiler.py:154 | two increasing lists with the same elements are equal, so `sorted(set(xs))` depends only on the set of xs |
| Sorting.IncreasingHeadIsLeast | src/lineageprofiler.py:154 | the first element of an increasing list is its least element |
| Sorting.IncreasingNoDup | src/lineageprofiler.py:154 | an increasing list has no repeated element |
| Sorting.IntLessIsStrictTotalOrder | src/lineageprofiler.py:154 | `<` on timepoints is a strict total order |
| Sorting.LexLessIsStrictTotalOrder | src/lineageprofiler.py:126 | `<` on well ids is a strict total order |
| Plates.AlphabetCodes | src/lineageprofiler.py:2 | the alphabet has 52 letters: 'A'..'Z' are codes 65..90, then 'a'..'z' are 97..122 |
| Plates.AlphabetAscending | src/lineageprofiler.py:2 | the alphabet is strictly ascending, so it has no repeated letter |
| Plates.RowWells | src/lineageprofiler.py:31-33 | a row of a format with cols columns holds cols ids |
| Plates.RowWellsAt | src/lineageprofiler.py:31-33 | column c of a row holds the row letter followed by `'%02d' % (c + 1)` |
| Plates.RowWellsLetter | src/lineageprofiler.py:31-33 | every id of a row starts with the row's letter |
| Plates.WellName | src/lineageprofiler.py:31 | definition of `'%s%02d' % (ch, num)`; WellNameDistinct and RowWellsAt state its properties |
| Plates.WellNameDistinct | src/lineageprofiler.py:31 | one letter with two different numbers gives two different ids |
| Plates.RowWellsDistinct | src/lineageprofiler.py:31-33 | a row has no repeated id |
| Plates.RowLetters | src/lineageprofiler.py:32 | `alphabet[:rows]` has rows letters, or all 52 when rows is larger |
| Plates.RowOffsetIsProduct | src/lineageprofiler.py:43 | the start of row r in the row-major list is r * cols |
| Plates.RowsLength | src/lineageprofiler.py:31-33 | rows of width w, one after the other, hold (number of rows) * w entries |
| Plates.RowsAt | src/lineageprofiler.py:31-33 | in rows of equal width, column c of row r is at row offset + c |
| Plates.RowsFrom | src/lineageprofiler.py:31-33 | every entry of the concatenated rows comes from the row of one of the letters |
| Plates.ConcatDistinct | src/lineageprofiler.py:31-33 | joining two lists without repeats that share no entry gives a list without repeats |
| Plates.RowsDistinct | src/lineageprofiler.py:31-33 | rows without repeats for distinct letters, sharing no entry, concatenate without repeats |
| Plates.WellIds | src/lineageprofiler.py:28-33 | definition of `get_well_ids`, the rows of `alphabet[:rows]` one after the other; WellIdsLayout and WellIdsIndex state its properties |
| Plates.WellIdsLayout | src/lineageprofiler.py:28-33 | `get_well_ids(fmt)` has exactly min(rows, 52) * cols ids and none twice |
| Plates.WellIdsIndex | src/lineageprofiler.py:31-33 | row-major order: the id at r * cols + c is `alphabet[r]` followed by c + 1, zero-padded to width 2 |
| Plates.ReshapeFits | src/lineageprofiler.py:43 | with at least one column, the id list has rows * cols entries, and so can be reshaped, exactly when rows <= 52 |
| Plates.MulStrictlyIncreasing | src/lineageprofiler.py:43 | arithmetic helper for ReshapeFits: a < b and c > 0 give a * c < b * c |
| Plates.WellIdAt | src/lineageprofiler.py:36-44 | a row out of bounds fails as an invalid row, then a column out of bounds fails as an invalid column; in bounds the lookup succeeds exactly when rows <= 52 (else the reshape fails) and then yields `alphabet[row]` + `'%02d' % (col + 1)` |
| Plates.WellIdAtIndex | src/lineageprofiler.py:41-44 | in bounds, the id at (row, col) is element row * cols + col of `get_well_ids(fmt)` |
| Plates.PlateRegistry.constructor | src/lineageprofiler.py:14 | the registry starts empty |
| Plates.PlateRegistry.AddPlate | src/lineageprofiler.py:16-19 | after `add_plate(id, fmt)` the id maps to fmt, even if it was registered before, and every other id looks up as before |
| Plates.PlateRegistry.GetPlateFormat | src/lineageprofiler.py:22-25 | the lookup succeeds exactly for a registered id, giving its format; otherwise it fails as an unknown plate |
| EventLog.EventsAtTimepoint | src/lineageprofiler.py:156-159 | the events at tp are exactly the logged events with timepoint tp, and there are no more of them than in the log |
| EventLog.EventsAtTimepointConcat | src/lineageprofiler.py:159 | the selection keeps log order: the selection from a + b is the selection from a followed by the selection from b |
| EventLog.Touching | src/lineageprofiler.py:164 | the events of a list that list well w are exactly those kept, and there are no more of them than in the list |
| EventLog.TouchingConcat | src/lineageprofiler.py:164 | selecting the events that list w keeps list order |
| EventLog.EventsInWell | src/lineageprofiler.py:161-164 | `get_events_in_well(w, tp)` holds exactly the events at tp that list w, and no more of them than there are events at tp |
| EventLog.TouchingSame | src/lineageprofiler.py:164 | two wells listed by the same events of a list get the same selection |
| EventLog.SameSignature | src/lineageprofiler.py:110-114 | two wells have equal `get_events_in_well` tuples at tp exactly when every event at tp lists both of them or neither |
| EventLog.Timepoints | src/lineageprofiler.py:154 | the timepoint list holds exactly the timepoints of the events |
| EventLog.UniqueTimepoints | src/lineageprofiler.py:151-154 | `get_unique_timepoints` is strictly ascending and holds exactly the timepoints of the events |
| EventLog.UniqueTimepointsEmpty | src/lineageprofiler.py:144-145 | there is no first unique timepoint exactly when the log is empty |
| EventLog.SortedLogTimepoints | src/lineageprofiler.py:151-154 | for a log in timepoint order, the first unique timepoint is that of the first event and the last is that of the last event |
| EventLog.AscendingBounds | src/lineageprofiler.py:151-154 | every member of a strictly ascending list lies between its first and its last element |
| EventLog.WellPartition | src/lineageprofiler.py:108-115 | definition of the set of well groups `get_well_permutations` returns, one per signature of a plate well; WellPartitionIsPartition states its properties |
| EventLog.WellPartitionIsPartition | src/lineageprofiler.py:108-115 | the well groups at tp partition the plate's wells: they are non-empty, pairwise disjoint and cover every well, and two wells share a group exactly when their signatures are equal |
| EventLog.GroupsByWellSpec | src/lineageprofiler.py:89-98 | a set of events is a group exactly when it is the non-empty set of the events covering some well |
| EventLog.EventPermutationSets | src/lineageprofiler.py:85-98 | definition of the event sets `get_event_permutations` returns, one per well some event at tp covers; EventPermutationSetsSpec states its properties |
| EventLog.EventPermutationSetsSpec | src/lineageprofiler.py:85-98 | an event permutation at tp is exactly the non-empty set of events at tp that cover some well of their plate; wells no event covers give no empty group |
| Lineages.Keep | src/lineageprofiler.py:126 | keeps exactly the wells of ws that are in g |
| Lineages.SortedIntersection | src/lineageprofiler.py:126 | `sorted(set(ws).intersection(g))` holds exactly the wells in both |
| Lineages.SortedIntersectionIncreasing | src/lineageprofiler.py:126 | that intersection is in ascending order |
| Lineages.ChildId | src/lineageprofiler.py:132 | definition of the child id `'%s:%s' % (parent.id, i)`; Strings.DecimalInjective makes sibling ids distinct |
| Lineages.Grown | src/lineageprofiler.py:138-142 | definition of a subtree grown level by level: a leaf at the last level, otherwise children that refine it by the next level's groups and are grown themselves; EveryNode and GrownNode state its properties |
| Lineages.LineageFrom | src/lineageprofiler.py:120-142 | definition of the subtree `build_tree` builds from the log: Grown over the levels of the log; ChildStep and NodeShape state its properties |
| Lineages.LineageTree | src/lineageprofiler.py:117-148 | definition of the tree `get_lineage_tree` returns: root named after the stock, holding every event's wells once, grown from the first unique timepoint on a 6-well plate; LineageTreeNodes states its properties |
| Lineages.LevelsOfLevels | src/lineageprofiler.py:122-125 | the levels of the log have one entry per unique timepoint, each holding that timepoint and the well partition there |
| Lineages.ChildSource | src/lineageprofiler.py:125-134 | every child's wells are the non-empty sorted intersection of the parent's wells with one of the groups |
| Lineages.ChildOfWell | src/lineageprofiler.py:125-134 | every plate well of the parent lands in some child |
| Lineages.ChildrenDisjoint | src/lineageprofiler.py:125-134 | two different children share no well |
| Lineages.ChildBySignature | src/lineageprofiler.py:125-134 | a child holds exactly the parent's plate wells that have the signature of any one of its wells |
| Lineages.ChildrenPartitionParent | src/lineageprofiler.py:120-136 | whatever order the groups are visited in, the children's wells are non-empty, sorted and pairwise disjoint; together they are the parent's plate wells; two plate wells share a child exactly when their signatures at tp are equal; and there are no children exactly when the parent has no plate well |
| Lineages.ChildStep | src/lineageprofiler.py:138-142 | child k of a built subtree is a built subtree one timepoint further on, with id `parent:k` and the next unique timepoint |
| Lineages.EveryNode | src/lineageprofiler.py:130-142 | every node reachable along a path is itself a subtree built |path| levels further on, and its id is the root id followed by `:i` for each position i on the path |
| Lineages.NodeShape | src/lineageprofiler.py:120-142 | a node is a leaf exactly at the last unique timepoint or when its wells meet no well of the format; otherwise its children sit at the next unique timepoint |
| Lineages.LineageTreeNodes | src/lineageprofiler.py:117-148 | each node of the returned tree, at depth d, sits at the d-th unique timepoint with id stock:i:j… along its path; at the last timepoint it is a leaf, otherwise its children carry the next timepoint and ids `id:k`, and their wells are non-empty, sorted, pairwise disjoint and together exactly the node's wells that are 6-well plate wells |
| Lineages.LineageNode.AbstractChildren | src/lineageprofiler.py:222-223 | the values of the first n children, in order |
| Lineages.LineageNode.constructor | src/lineageprofiler.py:211-216 | a new node has the given parent, id, wells and timepoint, and no children |
| Lineages.LineageNode.AddChild | src/lineageprofiler.py:228-229 | `add_child` appends a valid subtree, whose parent is this node and whose footprint does not hold it, at the end of the children; its footprint joins this node's, and the node stays valid |
| Lineages.FramedNode | src/lineageprofiler.py:208-229 | a node whose footprint is left alone keeps its validity and its value |
| Lineages.AbstractShape | src/lineageprofiler.py:208-229 | the value of a node carries its id, wells and timepoint, and the values of its children in order |
| Lineages.GrownNode | src/lineageprofiler.py:138-142 | a node is a built subtree once it is a leaf at the last level, or once its children refine it at the next level and are built subtrees themselves |
| Lineages.CollectIntersections | src/lineageprofiler.py:125-128 | the first loop of `attach_child_nodes` collects each non-empty sorted intersection with a group, and none twice |
| Timelines.InsertionIndexUnique | src/lineageprofiler.py:66-69 | the position the backward search settles on is determined by the list and the timepoint |
| Timelines.InsertionIndex | src/lineageprofiler.py:66-69 | the search stops just after the last event at index 1 or later with a smaller timepoint, or at index 1 when there is none; every event after it has a timepoint at least as large |
| Timelines.Inserted | src/lineageprofiler.py:61-69 | the list after `add_event` is one event longer |
| Timelines.InsertedKeepsOrder | src/lineageprofiler.py:68 | the new event sits at the insertion index, and removing it gives back the old list in the old order |
| Timelines.InsertedChronological | src/lineageprofiler.py:62-69 | inserting into a list in timepoint order keeps it in order exactly when the new timepoint is not before the first event's |
| Timelines.InsertedBeforeEqual | src/lineageprofiler.py:67 | the insert is not stable: the new event goes before every event at index 1 or later with the same timepoint |
| Timelines.InsertedEqualTimepoints | src/lineageprofiler.py:67 | with equal timepoints, `[a]` becomes `[a, e]` but `[a, b]` becomes `[a, e, b]` |
| Timelines.OrdinalsFresh | src/lineageprofiler.py:61 | inserting an event whose ordinal is above all others keeps the ordinals pairwise distinct and below the next one |
| Timelines.InsertedAt | src/lineageprofiler.py:66-69 | `insert(i+1, evt)` shifts the tail: before the insertion index the new list holds the old events, at it the new event, after it the old event one position to the left |
| Timelines.GroupMap | src/lineageprofiler.py:108-114 | the dictionary loop maps each key (here the `get_events_in_well` tuple) that some well has to exactly the wells that have it, and holds no other key |
| Timelines.GroupsOfSignatures | src/lineageprofiler.py:108-115 | the groups of a dictionary from each signature to the wells that have it are the well partition |
| Timelines.WellMapStep | src/lineageprofiler.py:90-97 | adding the next event to the dictionary of a prefix gives the dictionary of the longer prefix |
| Timelines.GroupsOfWellMap | src/lineageprofiler.py:98 | the event sets of a complete well-to-events dictionary are the groups by well |
| Timelines.EventCoverage | src/lineageprofiler.py:92-93 | an event with a registered plate covers exactly the wells that are both wells of its plate's format and wells it lists |
| Timelines.UnregisteredAt | src/lineageprofiler.py:90-92 | an event at tp whose plate lookup fails is an event at tp with an unregistered plate |
| Timelines.AllRegisteredAt | src/lineageprofiler.py:90-92 | when every event visited has a registered plate, no event at tp has an unregistered one |
| Timelines.PermutationsOfWellMap | src/lineageprofiler.py:89-98 | a complete dictionary for the events at tp gives exactly the event permutations at tp |
| Timelines.Timeline.constructor | src/lineageprofiler.py:50-56 | a new timeline has the stock, no events and no plates |
| Timelines.Timeline.AddEvent | src/lineageprofiler.py:58-70 | `add_event` returns the new event and leaves the list equal to Inserted(old list, event), keeping ordinals unique; the Inserted lemmas above give its order properties |
| Timelines.Timeline.GetEventList | src/lineageprofiler.py:72-76 | the copy equals the event list; being a value, it cannot alias the timeline's list |
| Timelines.Timeline.GetWellIds | src/lineageprofiler.py:78-83 | the result has no repeats, and a well is in it exactly when some event at the timepoint lists it (any event, for None) |
| Timelines.Timeline.GetWellPermutations | src/lineageprofiler.py:100-115 | the result is the well partition of the format's wells by signature at the timepoint |
| Timelines.Timeline.GroupBySignature | src/lineageprofiler.py:108-115 | grouping the wells by their `get_events_in_well` tuple yields exactly the well partition |
| Timelines.Timeline.GetEventPermutations | src/lineageprofiler.py:85-98 | it fails, as an unknown plate, exactly when some event at the timepoint has an unregistered plate; otherwise it yields exactly the event permutation sets |
| Timelines.Timeline.AddEventToWells | src/lineageprofiler.py:92-97 | afterwards every well the event covers lists it, no other well is added, and every other well keeps the same set of events (list order and repeats are not stated) |
| Timelines.Timeline.AttachChildNodes | src/lineageprofiler.py:120-136 | it returns None exactly past the last unique timepoint; otherwise the new leaves, numbered `parent:i`, are the parent's children and refine the parent by the well partition at that timepoint |
| Timelines.Timeline.AttachLeaves | src/lineageprofiler.py:129-136 | one new leaf per well list, in order, with id `parent:k`, that well list and the timepoint, appended to the parent |
| Timelines.Timeline.BuildTree | src/lineageprofiler.py:138-142 | `build_tree` turns a new leaf at level idx into a valid tree of new nodes whose value is the subtree the log determines from that level on |
| Timelines.Timeline.BuildChildren | src/lineageprofiler.py:140-141 | building each child in turn leaves every child a subtree the log determines one level further on, without disturbing its siblings |
| Timelines.Timeline.BuildChild | src/lineageprofiler.py:140-141 | one pass of that loop builds the child's subtree and leaves the siblings already built valid, in place and with their values |
| Timelines.Timeline.GetLineageTree | src/lineageprofiler.py:117-148 | an empty timeline fails; otherwise the result is a new valid root: it is named after the stock, holds each well of every event once, sits at the first unique timepoint, and carries the tree the log determines on a 6-well plate |

## Left out

- The `__main__` demo and its wx tree view (src/lineageprofiler.py:283-329): user interface and a foreign library.
- The `print` in `LineageNode.__init__` (line 217) and the `__str__` methods (204-205, 231-235): console output only.
- `save` and `load` (166-174): they only raise `NotImplemented`.
- The constant `NO_EVENT` (line 10): only the demo (lines 296 and 301) uses it, as the action of its no-op events; the model treats such an action as an ordinary string.
- The commented-out `build_lineage_tree` drafts (238-276): dead code.
- The numpy `reshape` (line 43) is modelled as index arithmetic on the row-major list. Its failure for a list shorter than rows × cols becomes the error `ShapeMismatch`.
- Python's set and dict iteration orders are not modelled. Groupings are sets, and children are attached in whatever order the groups are chosen.
- Timelines.Timeline.GetWellIds: `list(set(...))` has no defined order. The model returns the wells sorted, but the contract promises only no repeats and the right members.
- Timelines.Timeline.GetEventPermutations: each `tuple(set(d[w]))` is modelled as a set of events, so the order inside a permutation is not modelled.
- Timelines.Timeline.GetEventPermutations: `PlateDesign.get_well_ids` is passed in as the parameter `wellsOf`. The class-level `PlateDesign.plates` dictionary is passed in as a `PlateRegistry` object.
- The `get_*` accessors of `Event` and `LineageNode` (192-202, 219-226) are read as fields.
- Events compare by object identity in Python. The model gives each event an ordinal, unique within its timeline, to the same effect.
- Timeline.plates (line 56) is kept as a field; nothing in src/lineageprofiler.py adds to it.
- Timepoints are integers, and plate formats are pairs of natural numbers. Negative row or column counts are not modelled.
- An event's wells are a sequence. The demo also passes a set (line 296), which only matters for order.
- Lineages.CollectIntersections: requires pairwise disjoint groups. Its only caller passes the well partition, which is disjoint, and the no-repeat result depends on that.
- Timelines.Timeline.AttachChildNodes: requires a parent without children. `build_tree` only calls it on a node it has just created.
- Timelines.Timeline.BuildTree: takes the tree's levels as a ghost argument and the plate format as a parameter. `get_lineage_tree` passes the levels of the log on the 6-well format (line 125).
- The loops of `get_well_permutations`, `get_event_permutations`, `attach_child_nodes` and `build_tree` are separate methods: GroupMap, AddEventToWells, CollectIntersections, AttachLeaves and BuildChildren.
