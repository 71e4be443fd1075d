/** The view's mutable state: the three task arrays and the three hover
    flags, with the drop handler and the hover handler that update them. */
module View {
  import opened Uniquing
  import opened Tasks
  import opened Board

  class ContentView {
    var toDoTasks: seq<Task>
    var inProgressTasks: seq<Task>
    var doneTasks: seq<Task>

    var isToDoTargeted: bool
    var isInProgressTargeted: bool
    var isDoneTargeted: bool

    /** The columns as a board value. */
    function State(): BoardState
      reads this
    {
      BoardState(toDoTasks, inProgressTasks, doneTasks)
    }

    /** The hover flag of column `c`. */
    function Targeted(c: Column): bool
      reads this
    {
      match c
      case ToDo => isToDoTargeted
      case InProgress => isInProgressTargeted
      case Done => isDoneTargeted
    }

    predicate Valid()
      reads this
    {
      WellFormed(State())
    }

    /** The view on launch, seeded with the three mock tasks. */
    constructor (one: TaskId, two: TaskId, three: TaskId)
      ensures Valid()
      ensures State() == InitialBoard(one, two, three)
      ensures !isToDoTargeted && !isInProgressTargeted && !isDoneTargeted
    {
      toDoTasks := MockTasks(one, two, three);
      inProgressTasks := [];
      doneTasks := [];
      isToDoTargeted := false;
      isInProgressTargeted := false;
      isDoneTargeted := false;
    }

    /** The drop handler of column `target`, one for all three columns:
        the dropped ids leave the other columns, then the target is
        replaced by its old contents followed by the dropped tasks,
        deduplicated. The drop is always accepted. */
    method Drop(target: Column, droppedTasks: seq<Task>) returns (accepted: bool)
      modifies this
      ensures accepted
      ensures State() == Step(old(State()), target, droppedTasks)
      ensures old(Valid()) ==> Valid()
      ensures isToDoTargeted == old(isToDoTargeted)
      ensures isInProgressTargeted == old(isInProgressTargeted)
      ensures isDoneTargeted == old(isDoneTargeted)
    {
      ghost var before := State();
      RemoveFromOthers(target, droppedTasks);
      match target {
        case ToDo =>
          var totalTasks := toDoTasks + droppedTasks;
          toDoTasks := Uniqued(totalTasks);
        case InProgress =>
          var totalTasks := inProgressTasks + droppedTasks;
          inProgressTasks := Uniqued(totalTasks);
        case Done =>
          var totalTasks := doneTasks + droppedTasks;
          doneTasks := Uniqued(totalTasks);
      }
      accepted := true;
      if WellFormed(before) {
        StepPreservesWellFormed(before, target, droppedTasks);
      }
    }

    /** The first half of a drop: for each dropped task in turn, every task
        with its id is removed from each column other than `target`. */
    method RemoveFromOthers(target: Column, droppedTasks: seq<Task>)
      modifies this
      ensures toDoTasks == if target == ToDo then old(toDoTasks) else Without(old(toDoTasks), IdsOf(droppedTasks))
      ensures inProgressTasks == if target == InProgress then old(inProgressTasks) else Without(old(inProgressTasks), IdsOf(droppedTasks))
      ensures doneTasks == if target == Done then old(doneTasks) else Without(old(doneTasks), IdsOf(droppedTasks))
      ensures isToDoTargeted == old(isToDoTargeted)
      ensures isInProgressTargeted == old(isInProgressTargeted)
      ensures isDoneTargeted == old(isDoneTargeted)
    {
      ghost var toDo0, inProgress0, done0 := toDoTasks, inProgressTasks, doneTasks;
      ghost var removed: set<TaskId> := {};
      WithoutNothing(toDo0, {});
      WithoutNothing(inProgress0, {});
      WithoutNothing(done0, {});
      var i := 0;
      while i < |droppedTasks|
        invariant 0 <= i <= |droppedTasks|
        invariant removed == IdsOf(droppedTasks[..i])
        invariant toDoTasks == if target == ToDo then toDo0 else Without(toDo0, removed)
        invariant inProgressTasks == if target == InProgress then inProgress0 else Without(inProgress0, removed)
        invariant doneTasks == if target == Done then done0 else Without(done0, removed)
        invariant isToDoTargeted == old(isToDoTargeted)
        invariant isInProgressTargeted == old(isInProgressTargeted)
        invariant isDoneTargeted == old(isDoneTargeted)
      {
        var task := droppedTasks[i];
        WithoutWithout(toDo0, removed, {task.id});
        WithoutWithout(inProgress0, removed, {task.id});
        WithoutWithout(done0, removed, {task.id});
        RemoveIdFromOthers(target, task.id);
        IdsOfLongerPrefix(droppedTasks, i);
        removed := removed + {task.id};
        i := i + 1;
      }
      assert droppedTasks[..i] == droppedTasks;
    }

    /** One pass of the removal loop: every task with id `id` is removed
        from each column other than `target`. */
    method RemoveIdFromOthers(target: Column, id: TaskId)
      modifies this
      ensures toDoTasks == if target == ToDo then old(toDoTasks) else Without(old(toDoTasks), {id})
      ensures inProgressTasks == if target == InProgress then old(inProgressTasks) else Without(old(inProgressTasks), {id})
      ensures doneTasks == if target == Done then old(doneTasks) else Without(old(doneTasks), {id})
      ensures isToDoTargeted == old(isToDoTargeted)
      ensures isInProgressTargeted == old(isInProgressTargeted)
      ensures isDoneTargeted == old(isDoneTargeted)
    {
      if target != ToDo {
        toDoTasks := Without(toDoTasks, {id});
      }
      if target != InProgress {
        inProgressTasks := Without(inProgressTasks, {id});
      }
      if target != Done {
        doneTasks := Without(doneTasks, {id});
      }
    }

    /** The hover handler of column `c`: stores the given flag. */
    method SetTargeted(c: Column, isTargeted: bool)
      modifies this
      ensures Targeted(c) == isTargeted
      ensures forall other :: other != c ==> Targeted(other) == old(Targeted(other))
      ensures State() == old(State())
    {
      match c {
        case ToDo => isToDoTargeted := isTargeted;
        case InProgress => isInProgressTargeted := isTargeted;
        case Done => isDoneTargeted := isTargeted;
      }
    }
  }
}
