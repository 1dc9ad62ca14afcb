/**
 * Runs of the two stores that pin down the behaviour end to end: the
 * add/complete/filter sequence, the reuse of task ids after a delete, the
 * user lifecycle, the shared user id counter, and assignment from a freshly
 * constructed task store.
 */
module Scenarios {
  import opened Wrappers
  import opened Sequences
  import opened Text
  import opened Entities
  import opened TaskManagement
  import opened UserManagement

  /**
   * The first user ever constructed gets id 1, and each later one the next
   * integer, so ids grow strictly in creation order.
   */
  method FirstUsers() returns (first: User, second: User)
    ensures first.id == 1 && second.id == 2
    ensures first.username == "first" && second.username == "second"
  {
    var counter := new IdCounter();
    first := new User("first", counter);
    second := new User("second", counter);
  }

  /** Two tasks get ids 1 and 2; completing the first splits them into [first] and [second]. */
  method CompleteFirstOfTwo() returns (a: Task, b: Task, completed: seq<Task>, pending: seq<Task>)
    ensures a.id == 1 && b.id == 2 && a != b
    ensures completed == [a] && pending == [b]
  {
    var m := new TaskManager();
    a := m.AddTask("A", "descA", None);
    b := m.AddTask("B", "descB", None);
    assert m.tasks == [a, b] && !b.completed;
    var done := m.CompleteTask(a.id);
    assert done == Some(a) by {
      assert m.tasks[0] == a && a.id == 1;
    }
    assert b in m.tasks && done != Some(b);
    assert m.tasks == [a, b] && a.completed && !b.completed;
    assert m.tasks[1..] == [b] && [b][1..] == [];
    assert Select([b], IsCompleted) == [] && Select([b], IsPending) == [b];
    completed := m.GetCompletedTasks();
    pending := m.GetPendingTasks();
  }

  /**
   * Ids come from the current length: after deleting task 1 of two, the next
   * task gets id 2 again, so two live tasks share an id and a lookup by that id
   * finds only the older one.
   */
  method TaskIdReuse() returns (survivor: Task, added: Task, found: Option<Task>)
    ensures survivor != added && survivor.id == 2 && added.id == 2
    ensures found == Some(survivor)
  {
    var m := new TaskManager();
    var first := m.AddTask("A", "descA", None);
    survivor := m.AddTask("B", "descB", None);
    ghost var before := m.tasks;
    assert before == [first, survivor];
    var removed := m.DeleteTask(1);
    assert forall i :: 0 <= i < |m.tasks| ==> m.tasks[i] == survivor;
    assert survivor in m.tasks by {
      assert before[1] == survivor && before[1].id != 1;
    }
    DistinctOnly(m.tasks, survivor);
    added := m.AddTask("C", "descC", None);
    found := m.GetTaskById(2);
    assert m.tasks[0] == survivor;
  }

  /**
   * A task store never learns of any user, so assigning from a fresh store
   * fails even when the user exists in a user store, and the user's task list
   * as seen by the task store stays empty.
   */
  method AssignFromFreshStore() returns (outcome: Option<Task>, userTasks: seq<Task>, user: User)
    ensures outcome == None && userTasks == [] && user.tasks == []
  {
    var counter := new IdCounter();
    var users := new UserManager(counter);
    var tasks := new TaskManager();
    user := users.AddUser("TestUser");
    var task := tasks.AddTask("Test Task", "This is a test task", None);
    outcome := tasks.AssignTaskToUser(task.id, user.id);
    userTasks := tasks.GetUserTasks(user.id);
  }

  /** Add, look up, remove and look up again a user. */
  method UserLifecycle() returns (alice: User, found: Option<User>, removed: bool, after: Option<User>)
    ensures alice.id == 1 && alice.username == "alice" && alice.tasks == []
    ensures found == Some(alice) && removed && after == None
  {
    var counter := new IdCounter();
    var m := new UserManager(counter);
    alice := m.AddUser("alice");
    found := m.GetUserById(1);
    removed := m.RemoveUser(1);
    after := m.GetUserById(1);
  }

  /**
   * Two user stores drawing on one counter never hand out the same id: ids go
   * up by one per user in creation order, whichever store creates it.
   */
  method UsersAcrossStores() returns (a: User, b: User, c: User, listed: seq<User>, listed2: seq<User>)
    ensures a.id == 1 && b.id == 2 && c.id == 3
    ensures listed == [a, c] && listed2 == [b]
  {
    var counter := new IdCounter();
    var m1 := new UserManager(counter);
    var m2 := new UserManager(counter);
    a := m1.AddUser("a");
    b := m2.AddUser("b");
    c := m1.AddUser("c");
    listed := m1.GetAllUsers();
    listed2 := m2.GetAllUsers();
  }

  /** A character of `needle` that `hay` lacks rules the match out. */
  lemma NotIncluded(hay: string, needle: string, c: char)
    requires c in needle && c !in hay
    ensures !Includes(hay, needle)
  {
    if Includes(hay, needle) {
      IncludesChar(hay, needle, c);
    }
  }

  /** The exact title of the first task occurs in it but in neither field of the second. */
  lemma ExactTitleFacts()
    ensures Includes(Lower("Test Task 1"), Lower("Test Task 1"))
    ensures !Includes(Lower("Test Task 2"), Lower("Test Task 1"))
    ensures !Includes(Lower("This is a test task 2"), Lower("Test Task 1"))
  {
    assert Lower("Test Task 1")[..11] == Lower("Test Task 1");
    assert Lower("Test Task 1")[10] == '1';
    NotIncluded(Lower("Test Task 2"), Lower("Test Task 1"), '1');
    NotIncluded(Lower("This is a test task 2"), Lower("Test Task 1"), '1');
  }

  /** "Test" and "test task" start both titles once lower-cased. */
  lemma PartialTitleFacts()
    ensures Includes(Lower("Test Task 1"), Lower("Test")) && Includes(Lower("Test Task 2"), Lower("Test"))
    ensures Includes(Lower("Test Task 1"), Lower("test task")) && Includes(Lower("Test Task 2"), Lower("test task"))
  {
    assert Lower("Test Task 1")[..4] == Lower("Test") && Lower("Test Task 2")[..4] == Lower("Test");
    assert Lower("Test Task 1")[..9] == Lower("test task") && Lower("Test Task 2")[..9] == Lower("test task");
  }

  /** "Non-Matching Keyword" holds a '-', so a text without one does not include it. */
  lemma MissingKeywordFacts(text: string)
    requires '-' !in text
    ensures !Includes(Lower(text), Lower("Non-Matching Keyword"))
  {
    assert Lower("Non-Matching Keyword")[3] == '-';
    assert '-' !in Lower(text);
    NotIncluded(Lower(text), Lower("Non-Matching Keyword"), '-');
  }

  /** A store holding the two tasks the keyword examples filter. */
  method TwoTestTasks() returns (m: TaskManager, t1: Task, t2: Task)
    ensures fresh(m) && m.tasks == [t1, t2] && t1 != t2
    ensures t1.title == "Test Task 1" && t1.description == "This is a test task 1"
    ensures t2.title == "Test Task 2" && t2.description == "This is a test task 2"
  {
    m := new TaskManager();
    t1 := m.AddTask("Test Task 1", "This is a test task 1", None);
    t2 := m.AddTask("Test Task 2", "This is a test task 2", None);
  }

  /** Filtering by the first task's exact title keeps only that task. */
  method FilterByExactTitle() returns (t1: Task, t2: Task, r: seq<Task>)
    ensures t1 != t2 && r == [t1]
  {
    var m;
    m, t1, t2 := TwoTestTasks();
    ExactTitleFacts();
    assert m.tasks[1..] == [t2] && [t2][1..] == [];
    r := m.FilterTasksByKeyword("Test Task 1");
  }

  /**
   * Filtering by "Test", or by "test task" in another letter case than the
   * titles, keeps both tasks, in order.
   */
  method FilterByPartialKeyword() returns (t1: Task, t2: Task, byPrefix: seq<Task>, byOtherCase: seq<Task>)
    ensures t1 != t2 && byPrefix == [t1, t2] && byOtherCase == [t1, t2]
  {
    var m;
    m, t1, t2 := TwoTestTasks();
    PartialTitleFacts();
    assert m.tasks[1..] == [t2] && [t2][1..] == [];
    assert Matches(t1, HasKeyword(Lower("Test"))) && Matches(t2, HasKeyword(Lower("Test")));
    byPrefix := m.FilterTasksByKeyword("Test");
    assert Select([t2], HasKeyword(Lower("Test"))) == [t2] + Select([], HasKeyword(Lower("Test")));
    assert Matches(t1, HasKeyword(Lower("test task"))) && Matches(t2, HasKeyword(Lower("test task")));
    byOtherCase := m.FilterTasksByKeyword("test task");
    assert Select([t2], HasKeyword(Lower("test task"))) == [t2] + Select([], HasKeyword(Lower("test task")));
  }

  /** A keyword found in no title or description keeps nothing. */
  method FilterByMissingKeyword() returns (t1: Task, t2: Task, r: seq<Task>)
    ensures t1 != t2 && r == []
  {
    var m;
    m, t1, t2 := TwoTestTasks();
    MissingKeywordFacts("Test Task 1");
    MissingKeywordFacts("This is a test task 1");
    MissingKeywordFacts("Test Task 2");
    MissingKeywordFacts("This is a test task 2");
    assert !Matches(t1, HasKeyword(Lower("Non-Matching Keyword")));
    assert !Matches(t2, HasKeyword(Lower("Non-Matching Keyword")));
    assert m.tasks[1..] == [t2] && [t2][1..] == [];
    r := m.FilterTasksByKeyword("Non-Matching Keyword");
  }
}
