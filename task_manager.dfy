/**
 * The task store: an ordered list of tasks plus the list of users it can
 * assign tasks to. Lookups act on the first task with the given id; ids are
 * derived from the current length of the list and can therefore repeat.
 */
module TaskManagement {
  import opened Wrappers
  import opened Sequences
  import opened Text
  import opened Entities

  /** The conditions the store filters its tasks by. The keyword is already lower-cased. */
  datatype Criterion = IsCompleted | IsPending | HasKeyword(lowerKeyword: string)

  /** Whether task `t` passes the filter `c`. */
  predicate Matches(t: Task, c: Criterion)
    reads t
  {
    match c
    case IsCompleted => t.completed
    case IsPending => !t.completed
    case HasKeyword(k) => Includes(Lower(t.title), k) || Includes(Lower(t.description), k)
  }

  /** `ts.filter(t => Matches(t, c))`: the tasks that pass, in their original order. */
  function Select(ts: seq<Task>, c: Criterion): (r: seq<Task>)
    reads ts
    ensures forall i :: 0 <= i < |r| ==> r[i] in ts && Matches(r[i], c)
    ensures forall i :: 0 <= i < |ts| && Matches(ts[i], c) ==> ts[i] in r
    ensures IsSubsequence(r, ts)
    ensures |r| <= |ts|
  {
    if ts == [] then []
    else
      var rest := Select(ts[1..], c);
      assert forall i :: 1 <= i < |ts| ==> ts[1..][i - 1] == ts[i];
      if Matches(ts[0], c) then
        assert ([ts[0]] + rest)[1..] == rest;
        [ts[0]] + rest
      else rest
  }

  /**
   * A filter keeps every copy of a task that passes and no copy of one that
   * does not: the multiplicities are those of `filter`.
   */
  lemma {:induction false} SelectCounts(ts: seq<Task>, c: Criterion)
    ensures forall t :: multiset(Select(ts, c))[t] == if Matches(t, c) then multiset(ts)[t] else 0
  {
    if ts != [] {
      SelectCounts(ts[1..], c);
      assert ts == [ts[0]] + ts[1..];
      assert multiset(ts) == multiset([ts[0]]) + multiset(ts[1..]);
      if Matches(ts[0], c) {
        var rest := Select(ts[1..], c);
        assert multiset([ts[0]] + rest) == multiset([ts[0]]) + multiset(rest);
      }
    }
  }

  /** A filter every task passes returns the whole list. */
  lemma {:induction false} SelectAll(ts: seq<Task>, c: Criterion)
    requires forall i :: 0 <= i < |ts| ==> Matches(ts[i], c)
    ensures Select(ts, c) == ts
  {
    if ts != [] {
      assert forall i :: 1 <= i < |ts| ==> ts[1..][i - 1] == ts[i];
      SelectAll(ts[1..], c);
    }
  }

  /** Every string includes the empty keyword, so filtering by it keeps every task. */
  lemma EmptyKeywordKeepsAll(ts: seq<Task>)
    ensures Select(ts, HasKeyword([])) == ts
  {
    SelectAll(ts, HasKeyword([]));
  }

  /**
   * The completed and the pending tasks partition the list: every task is in
   * exactly one of the two, and their lengths add up to the whole.
   */
  lemma {:induction false} CompletedPendingPartition(ts: seq<Task>)
    ensures |Select(ts, IsCompleted)| + |Select(ts, IsPending)| == |ts|
    ensures forall i :: 0 <= i < |ts| ==>
              (ts[i] in Select(ts, IsCompleted)) != (ts[i] in Select(ts, IsPending))
  {
    if ts != [] {
      CompletedPendingPartition(ts[1..]);
    }
  }

  class TaskManager {
    var tasks: seq<Task>
    /** The users tasks can be assigned to. Set to the empty list at construction and never written. */
    const users: seq<User>

    /** Every task object occurs in the list at most once. */
    ghost predicate Valid()
      reads this
    {
      Distinct(tasks)
    }

    /** A new store holds no tasks and no users. */
    constructor ()
      ensures Valid() && tasks == [] && users == []
    {
      tasks := [];
      users := [];
    }

    /** `getTasks()` hands out the live list itself. */
    function GetTasks(): (r: seq<Task>)
      reads this
      ensures r == tasks
    {
      tasks
    }

    /** `getTaskById(id)`: the first task with that id, or none if no task has it. */
    function GetTaskById(id: int): (r: Option<Task>)
      reads this
      ensures r.None? <==> forall i :: 0 <= i < |tasks| ==> tasks[i].id != id
      ensures r.Some? ==> exists i :: 0 <= i < |tasks| && tasks[i] == r.value && r.value.id == id &&
                                      forall j :: 0 <= j < i ==> tasks[j].id != id
    {
      Find(tasks, TaskId, id)
    }

    /** `this.users.find(u => u.id === userId)`. */
    function UserById(userId: int): (r: Option<User>)
      reads this
      ensures r.None? <==> forall i :: 0 <= i < |users| ==> users[i].id != userId
      ensures r.Some? ==> r.value in users && r.value.id == userId
    {
      Find(users, UserId, userId)
    }

    /**
     * `addTask(title, description, dueDate?)`: appends a fresh, not completed
     * task whose id is the old length plus one.
     */
    method AddTask(title: string, description: string, dueDate: Option<Date>) returns (t: Task)
      requires Valid()
      modifies this
      ensures Valid() && fresh(t)
      ensures tasks == old(tasks) + [t]
      ensures t.id == |old(tasks)| + 1
      ensures t.title == title && t.description == description && t.dueDate == dueDate
      ensures !t.completed && t.user == null
    {
      t := new Task(|tasks| + 1, title, description, false, dueDate);
      tasks := tasks + [t];
    }

    /**
     * `updateTask(id, title, description, dueDate?)`: overwrites title,
     * description and due date (an omitted due date becomes none) of the first
     * task with that id and returns it; nothing else changes.
     */
    method UpdateTask(id: int, title: string, description: string, dueDate: Option<Date>)
      returns (r: Option<Task>)
      requires Valid()
      modifies tasks
      ensures r == GetTaskById(id)
      ensures r.Some? ==> r.value.title == title && r.value.description == description &&
                          r.value.dueDate == dueDate
      ensures r.Some? ==> r.value.completed == old(r.value.completed) && r.value.user == old(r.value.user)
      ensures forall t :: t in tasks && r != Some(t) ==> unchanged(t)
    {
      var i := FirstIndex(tasks, TaskId, id);
      if i != -1 {
        tasks[i].title := title;
        tasks[i].description := description;
        tasks[i].dueDate := dueDate;
        r := Some(tasks[i]);
      } else {
        r := None;
      }
    }

    /** `completeTask(id)`: marks the first task with that id completed and returns it. */
    method CompleteTask(id: int) returns (r: Option<Task>)
      requires Valid()
      modifies tasks
      ensures r == GetTaskById(id)
      ensures r.Some? ==> r.value.completed
      ensures r.Some? ==> r.value.title == old(r.value.title) && r.value.description == old(r.value.description) &&
                          r.value.dueDate == old(r.value.dueDate) && r.value.user == old(r.value.user)
      ensures forall t :: t in tasks && r != Some(t) ==> unchanged(t)
    {
      var i := FirstIndex(tasks, TaskId, id);
      if i != -1 {
        tasks[i].completed := true;
        r := Some(tasks[i]);
      } else {
        r := None;
      }
    }

    /**
     * `deleteTask(id)`: drops every task with that id, keeping the others in
     * order, and reports whether the list got shorter.
     */
    method DeleteTask(id: int) returns (removed: bool)
      requires Valid()
      modifies this
      ensures Valid()
      ensures removed <==> exists i :: 0 <= i < |old(tasks)| && old(tasks)[i].id == id
      ensures forall i :: 0 <= i < |tasks| ==> tasks[i] in old(tasks) && tasks[i].id != id
      ensures forall i :: 0 <= i < |old(tasks)| && old(tasks)[i].id != id ==> old(tasks)[i] in tasks
      ensures IsSubsequence(tasks, old(tasks))
      ensures !removed ==> tasks == old(tasks)
      ensures GetTaskById(id) == None
    {
      var initialLength := |tasks|;
      RemoveKeyKeepsDistinct(tasks, TaskId, id);
      if !HasKey(tasks, TaskId, id) {
        RemoveKeyAbsent(tasks, TaskId, id);
      }
      tasks := RemoveKey(tasks, TaskId, id);
      removed := initialLength != |tasks|;
    }

    /** `getCompletedTasks()`: the completed tasks, in list order. */
    function GetCompletedTasks(): (r: seq<Task>)
      reads this, tasks
      ensures forall i :: 0 <= i < |r| ==> r[i] in tasks && r[i].completed
      ensures forall i :: 0 <= i < |tasks| && tasks[i].completed ==> tasks[i] in r
      ensures IsSubsequence(r, tasks)
    {
      Select(tasks, IsCompleted)
    }

    /**
     * `getPendingTasks()`: the tasks not completed, in list order; together
     * with the completed ones they make up the whole list.
     */
    function GetPendingTasks(): (r: seq<Task>)
      reads this, tasks
      ensures forall i :: 0 <= i < |r| ==> r[i] in tasks && !r[i].completed
      ensures forall i :: 0 <= i < |tasks| && !tasks[i].completed ==> tasks[i] in r
      ensures IsSubsequence(r, tasks)
      ensures |r| + |GetCompletedTasks()| == |tasks|
    {
      CompletedPendingPartition(tasks);
      Select(tasks, IsPending)
    }

    /**
     * `filterTasksByKeyword(keyword)`: the tasks whose lower-cased title or
     * description contains the lower-cased keyword, in list order. The empty
     * keyword keeps every task.
     */
    function FilterTasksByKeyword(keyword: string): (r: seq<Task>)
      reads this, tasks
      ensures forall i :: 0 <= i < |r| ==>
                && r[i] in tasks
                && (Includes(Lower(r[i].title), Lower(keyword)) || Includes(Lower(r[i].description), Lower(keyword)))
      ensures forall i ::
                && 0 <= i < |tasks|
                && (Includes(Lower(tasks[i].title), Lower(keyword)) || Includes(Lower(tasks[i].description), Lower(keyword)))
                ==> tasks[i] in r
      ensures IsSubsequence(r, tasks)
      ensures keyword == [] ==> r == tasks
    {
      var lowerKeyword := Lower(keyword);
      EmptyKeywordKeepsAll(tasks);
      Select(tasks, HasKeyword(lowerKeyword))
    }

    /**
     * `assignTaskToUser(taskId, userId)`: when both the task and the user are
     * found in this store's own lists, points the task at the user, appends the
     * task to the user's tasks and returns it; otherwise changes nothing.
     */
    method AssignTaskToUser(taskId: int, userId: int) returns (r: Option<Task>)
      requires Valid()
      modifies tasks, users
      ensures r.Some? <==> GetTaskById(taskId).Some? && UserById(userId).Some?
      ensures r.Some? ==> r == GetTaskById(taskId)
      ensures r.Some? ==> var u := UserById(userId).value;
                          r.value.user == u && u.tasks == old(u.tasks) + [r.value] && u.username == old(u.username)
      ensures r.Some? ==> r.value.title == old(r.value.title) && r.value.description == old(r.value.description) &&
                          r.value.completed == old(r.value.completed) && r.value.dueDate == old(r.value.dueDate)
      ensures forall t :: t in tasks && r != Some(t) ==> unchanged(t)
      ensures forall u :: u in users && (r.None? || UserById(userId) != Some(u)) ==> unchanged(u)
      ensures users == [] ==> r == None
    {
      var task := Find(tasks, TaskId, taskId);
      var user := Find(users, UserId, userId);
      if task.Some? && user.Some? {
        task.value.user := user.value;
        user.value.tasks := user.value.tasks + [task.value];
        r := task;
      } else {
        r := None;
      }
    }

    /** `getUserTasks(userId)`: the tasks of the user with that id in this store, or the empty list. */
    function GetUserTasks(userId: int): (r: seq<Task>)
      reads this, users
      ensures (forall i :: 0 <= i < |users| ==> users[i].id != userId) ==> r == []
      ensures UserById(userId).Some? ==> r == UserById(userId).value.tasks
      ensures users == [] ==> r == []
    {
      match UserById(userId)
      case Some(user) => user.tasks
      case None => []
    }
  }

  /**
   * Filtering by a keyword ignores the keyword's letter case: keywords that
   * lower-case alike select the same tasks, and a keyword selects what its
   * lower-cased form selects.
   */
  lemma KeywordCaseInsensitive(m: TaskManager, k1: string, k2: string)
    ensures Lower(k1) == Lower(k2) ==> m.FilterTasksByKeyword(k1) == m.FilterTasksByKeyword(k2)
    ensures m.FilterTasksByKeyword(k1) == m.FilterTasksByKeyword(Lower(k1))
  {
    LowerIdempotent(k1);
  }

  /**
   * `completeTask` is idempotent: two calls have exactly the effect of one.
   * Both return the first task with the id, and afterwards a task is completed
   * iff it was before or it is that task; no other field changes.
   */
  method CompleteTwice(m: TaskManager, id: int) returns (first: Option<Task>, second: Option<Task>)
    requires m.Valid()
    modifies m.tasks
    ensures first == second == m.GetTaskById(id)
    ensures forall t :: t in m.tasks ==> t.completed == (old(t.completed) || first == Some(t))
    ensures forall t :: t in m.tasks ==> t.title == old(t.title) && t.description == old(t.description) &&
                                         t.dueDate == old(t.dueDate) && t.user == old(t.user)
  {
    first := m.CompleteTask(id);
    second := m.CompleteTask(id);
  }
}
