/** The board as a value: three ordered columns of task records, the drop
    rule as a function on that value, and what the rule guarantees. */
module Board {
  import opened Uniquing
  import opened Tasks

  /** The three columns of the board. */
  datatype Column = ToDo | InProgress | Done

  /** The contents of the three columns, each in display order. */
  datatype BoardState = BoardState(toDo: seq<Task>, inProgress: seq<Task>, done: seq<Task>)
  {
    /** The sequence shown in column `c`. */
    function Get(c: Column): seq<Task> {
      match c
      case ToDo => toDo
      case InProgress => inProgress
      case Done => done
    }
  }

  /** No task id is shown in two different columns. */
  predicate Partitioned(b: BoardState) {
    IdsOf(b.toDo) !! IdsOf(b.inProgress)
    && IdsOf(b.toDo) !! IdsOf(b.done)
    && IdsOf(b.inProgress) !! IdsOf(b.done)
  }

  /** The invariant every reachable board keeps: columns are disjoint by id
      and no column shows the same record twice. */
  predicate WellFormed(b: BoardState) {
    Partitioned(b) && Distinct(b.toDo) && Distinct(b.inProgress) && Distinct(b.done)
  }

  /** The three seeded tasks. Their `UUID`s are random in the program, so
      they are parameters here. */
  function MockTasks(one: TaskId, two: TaskId, three: TaskId): (r: seq<Task>)
    ensures |r| == 3 && Distinct(r)
    ensures IdsOf(r) == {one, two, three}
  {
    [ Task(one, "Learn Swift", "Me", "All about it"),
      Task(two, "Learn SwiftUI", "Me", "All about it"),
      Task(three, "Find a Job", "Me", "Best job in good gompany") ]
  }

  /** The board on launch: every task in To Do, the other columns empty. */
  function InitialBoard(one: TaskId, two: TaskId, three: TaskId): (b: BoardState)
    ensures WellFormed(b)
    ensures b.toDo == MockTasks(one, two, three)
    ensures b.inProgress == [] && b.done == []
  {
    BoardState(MockTasks(one, two, three), [], [])
  }

  /** The effect of dropping `dropped` onto column `target`: every record
      whose id is among the dropped ids leaves the two other columns, and
      the target becomes its old contents followed by the dropped records,
      deduplicated under record equality with the first occurrence kept. */
  function Step(b: BoardState, target: Column, dropped: seq<Task>): (r: BoardState)
    // the dropped ids are gone from the other columns, and nothing else is
    ensures forall c :: c != target ==> IdsOf(r.Get(c)) == IdsOf(b.Get(c)) - IdsOf(dropped)
    ensures forall c, t :: c != target ==> (t in r.Get(c) <==> t in b.Get(c) && t.id !in IdsOf(dropped))
    // the target holds exactly its old records and the dropped ones, each once
    ensures forall t :: t in r.Get(target) <==> t in b.Get(target) || t in dropped
    ensures IdsOf(r.Get(target)) == IdsOf(b.Get(target)) + IdsOf(dropped)
    ensures Distinct(r.Get(target))
    // no record is invented
    ensures forall c, t :: t in r.Get(c) ==> t in b.Get(c) || (c == target && t in dropped)
  {
    var ids := IdsOf(dropped);
    var merged := Uniqued(b.Get(target) + dropped);
    IdsOfUniqued(b.Get(target), dropped);
    WithoutMembers(b.toDo, ids);
    WithoutMembers(b.inProgress, ids);
    WithoutMembers(b.done, ids);
    IdsOfWithout(b.toDo, ids);
    IdsOfWithout(b.inProgress, ids);
    IdsOfWithout(b.done, ids);
    var r :=
      match target
      case ToDo => BoardState(merged, Without(b.inProgress, ids), Without(b.done, ids))
      case InProgress => BoardState(Without(b.toDo, ids), merged, Without(b.done, ids))
      case Done => BoardState(Without(b.toDo, ids), Without(b.inProgress, ids), merged);
    assert r.Get(target) == merged;
    assert forall c :: c != target ==> r.Get(c) == Without(b.Get(c), ids);
    r
  }

  /** Deduplicating a concatenation keeps exactly the ids of both parts. */
  lemma IdsOfUniqued(a: seq<Task>, d: seq<Task>)
    ensures IdsOf(Uniqued(a + d)) == IdsOf(a) + IdsOf(d)
  {
  }

  /** A drop keeps no id in two columns, whatever the columns hold
      otherwise. */
  lemma StepPreservesPartitioned(b: BoardState, target: Column, dropped: seq<Task>)
    requires Partitioned(b)
    ensures Partitioned(Step(b, target, dropped))
  {
    var r := Step(b, target, dropped);
    var ids := IdsOf(dropped);
    assert r.Get(ToDo) == r.toDo && r.Get(InProgress) == r.inProgress && r.Get(Done) == r.done;
    assert b.Get(ToDo) == b.toDo && b.Get(InProgress) == b.inProgress && b.Get(Done) == b.done;
    match target {
      case ToDo =>
        assert IdsOf(r.toDo) == IdsOf(b.toDo) + ids;
        assert IdsOf(r.inProgress) == IdsOf(b.inProgress) - ids;
        assert IdsOf(r.done) == IdsOf(b.done) - ids;
      case InProgress =>
        assert IdsOf(r.toDo) == IdsOf(b.toDo) - ids;
        assert IdsOf(r.inProgress) == IdsOf(b.inProgress) + ids;
        assert IdsOf(r.done) == IdsOf(b.done) - ids;
      case Done =>
        assert IdsOf(r.toDo) == IdsOf(b.toDo) - ids;
        assert IdsOf(r.inProgress) == IdsOf(b.inProgress) - ids;
        assert IdsOf(r.done) == IdsOf(b.done) + ids;
    }
  }

  /** A drop keeps the board well formed. */
  lemma StepPreservesWellFormed(b: BoardState, target: Column, dropped: seq<Task>)
    requires WellFormed(b)
    ensures WellFormed(Step(b, target, dropped))
  {
    var r := Step(b, target, dropped);
    var ids := IdsOf(dropped);
    StepPreservesPartitioned(b, target, dropped);
    WithoutDistinct(b.toDo, ids);
    WithoutDistinct(b.inProgress, ids);
    WithoutDistinct(b.done, ids);
    assert r.Get(ToDo) == r.toDo && r.Get(InProgress) == r.inProgress && r.Get(Done) == r.done;
  }

  /** One drop event: the target column and the decoded payload. */
  datatype DropEvent = DropEvent(target: Column, tasks: seq<Task>)

  /** The board after a sequence of drops, applied in order. */
  function Run(b: BoardState, events: seq<DropEvent>): BoardState
    decreases |events|
  {
    if events == [] then b
    else Run(Step(b, events[0].target, events[0].tasks), events[1..])
  }

  /** Every sequence of drops keeps the board well formed; from the initial
      board, no id is ever shown in two columns. */
  lemma {:induction false} RunPreservesWellFormed(b: BoardState, events: seq<DropEvent>)
    requires WellFormed(b)
    ensures WellFormed(Run(b, events))
    decreases |events|
  {
    if events != [] {
      StepPreservesWellFormed(b, events[0].target, events[0].tasks);
      RunPreservesWellFormed(Step(b, events[0].target, events[0].tasks), events[1..]);
    }
  }

  /** Partition holds after any drops that start from the seeded board. */
  lemma ReachableBoardsArePartitioned(one: TaskId, two: TaskId, three: TaskId, events: seq<DropEvent>)
    ensures Partitioned(Run(InitialBoard(one, two, three), events))
  {
    RunPreservesWellFormed(InitialBoard(one, two, three), events);
  }

  /** The old target is a prefix of the new one, in its old order; after it
      come the dropped records not already there, in drop order, each once. */
  lemma StepKeepsTargetPrefix(b: BoardState, target: Column, dropped: seq<Task>)
    requires Distinct(b.Get(target))
    ensures Step(b, target, dropped).Get(target)
         == b.Get(target) + UniquedFrom(dropped, Elems(b.Get(target)))
  {
    UniquedExtends(b.Get(target), dropped);
  }

  /** Dropping `[t2, t3]` onto a column holding `[t1]` gives `[t1, t2, t3]`. */
  lemma StepAppendsInOrder(b: BoardState, target: Column, t1: Task, t2: Task, t3: Task)
    requires b.Get(target) == [t1]
    requires t1 != t2 && t1 != t3 && t2 != t3
    ensures Step(b, target, [t2, t3]).Get(target) == [t1, t2, t3]
  {
    assert [t1] + [t2, t3] == [t1, t2, t3];
    UniquedOfDistinct([t1, t2, t3]);
  }

  /** The non-target columns are filtered: what they keep is their old
      contents minus the dropped ids, in the old relative order, so a
      column assembled from two parts is filtered part by part. */
  lemma StepFiltersOthers(b: BoardState, target: Column, dropped: seq<Task>, c: Column, front: seq<Task>, back: seq<Task>)
    requires c != target
    requires b.Get(c) == front + back
    ensures Step(b, target, dropped).Get(c) == Without(front, IdsOf(dropped)) + Without(back, IdsOf(dropped))
  {
    WithoutAppend(front, back, IdsOf(dropped));
  }

  /** Dropping nothing changes no column, given the target holds no
      duplicate record. */
  lemma EmptyDropChangesNothing(b: BoardState, target: Column)
    requires Distinct(b.Get(target))
    ensures Step(b, target, []) == b
  {
    assert b.Get(target) + [] == b.Get(target);
    assert IdsOf([]) == {};
    UniquedOfDistinct(b.Get(target));
    WithoutNothing(b.toDo, {});
    WithoutNothing(b.inProgress, {});
    WithoutNothing(b.done, {});
  }

  /** Re-dropping records already shown in the target changes nothing: the
      target keeps its content and order, and on a well-formed board the
      other columns hold none of those ids. */
  lemma ReDropChangesNothing(b: BoardState, target: Column, dropped: seq<Task>)
    requires WellFormed(b)
    requires forall t :: t in dropped ==> t in b.Get(target)
    ensures Step(b, target, dropped) == b
  {
    var ids := IdsOf(dropped);
    UniquedAbsorbs(b.Get(target), dropped);
    assert ids <= IdsOf(b.Get(target));
    if target != ToDo { WithoutNothing(b.toDo, ids); }
    if target != InProgress { WithoutNothing(b.inProgress, ids); }
    if target != Done { WithoutNothing(b.done, ids); }
  }

  /** Dragging a card from column `source` to another column: no column but
      the target still shows its id, and the target shows it exactly once. */
  lemma CrossColumnMove(b: BoardState, source: Column, target: Column, t: Task)
    requires t in b.Get(source)
    requires source != target
    ensures t !in Step(b, target, [t]).Get(source)
    ensures forall c :: c != target ==> t.id !in IdsOf(Step(b, target, [t]).Get(c))
    ensures multiset(Step(b, target, [t]).Get(target))[t] == 1
  {
    var r := Step(b, target, [t]);
    assert t.id in IdsOf([t]);
    DistinctOccursOnce(r.Get(target), t);
  }

  /** A record that is distinct from every other one occurs once. */
  lemma {:induction false} DistinctOccursOnce(s: seq<Task>, t: Task)
    requires Distinct(s)
    requires t in s
    ensures multiset(s)[t] == 1
  {
    assert s == [s[0]] + s[1..];
    assert Distinct(s[1..]) by {
      forall i, j | 0 <= i < j < |s[1..]| ensures s[1..][i] != s[1..][j] {
        assert s[1..][i] == s[i + 1] && s[1..][j] == s[j + 1];
      }
    }
    if s[0] == t {
      assert t !in s[1..];
      assert multiset(s[1..])[t] == 0;
    } else {
      DistinctOccursOnce(s[1..], t);
    }
  }

  /** Deduplication compares whole records, not ids: a dropped record that
      shares its id with one already in the target but differs in another
      field is appended after it, and both are shown. */
  lemma SameIdDifferentRecordBothKept(b: BoardState, target: Column, s1: Task, s2: Task)
    requires b.Get(target) == [s1]
    requires s1.id == s2.id && s1 != s2
    ensures Step(b, target, [s2]).Get(target) == [s1, s2]
  {
    assert [s1] + [s2] == [s1, s2];
    UniquedOfDistinct([s1, s2]);
  }

  /** Records with equal ids are equal records. */
  predicate Coherent(s: seq<Task>) {
    forall i, j :: 0 <= i < |s| && 0 <= j < |s| && s[i].id == s[j].id ==> s[i] == s[j]
  }

  /** No id occurs twice. */
  predicate DistinctIds(s: seq<Task>) {
    forall i, j :: 0 <= i < j < |s| ==> s[i].id != s[j].id
  }

  /** When the target and the payload never carry two different records
      under one id (as with the app's immutable records), deduplicating by
      record is deduplicating by id: the new target shows each id once. */
  lemma CoherentDropHasDistinctIds(b: BoardState, target: Column, dropped: seq<Task>)
    requires Coherent(b.Get(target) + dropped)
    ensures DistinctIds(Step(b, target, dropped).Get(target))
  {
    var s := b.Get(target) + dropped;
    var r := Step(b, target, dropped).Get(target);
    forall i, j | 0 <= i < j < |r| ensures r[i].id != r[j].id {
      assert r[i] in s && r[j] in s;
      var p :| 0 <= p < |s| && s[p] == r[i];
      var q :| 0 <= q < |s| && s[q] == r[j];
    }
  }
}
