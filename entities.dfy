/**
 * The two entities of the tracker. Both are objects whose fields the stores
 * update in place, and each refers to the other (a task's assignee, a user's
 * assigned tasks), so they share one module.
 */
module Entities {
  import opened Wrappers

  /** A due date. The stores only store and return it, never inspect it. */
  datatype Date = Date(epochMillis: int)

  /**
   * The process-wide user id counter (the static `User.counter`), made an
   * explicit object that every user construction is given.
   */
  class IdCounter {
    var value: nat

    /** The counter starts at 0. */
    constructor ()
      ensures value == 0
    {
      value := 0;
    }
  }

  /** One unit of work. Its id is fixed at construction; no code writes it later. */
  class Task {
    const id: int
    var title: string
    var description: string
    var completed: bool
    var dueDate: Option<Date>
    var user: User?

    /** `new Task(id, title, description, completed, dueDate)`; no user is assigned yet. */
    constructor (id: int, title: string, description: string, completed: bool, dueDate: Option<Date>)
      ensures this.id == id && this.title == title && this.description == description
      ensures this.completed == completed && this.dueDate == dueDate && user == null
    {
      this.id := id;
      this.title := title;
      this.description := description;
      this.completed := completed;
      this.dueDate := dueDate;
      user := null;
    }
  }

  /** One account, with the tasks assigned to it in assignment order. */
  class User {
    const id: int
    var username: string
    var tasks: seq<Task>

    /**
     * `new User(username)`: bumps the shared counter by one and takes its new
     * value as the id.
     */
    constructor (username: string, counter: IdCounter)
      modifies counter
      ensures counter.value == old(counter.value) + 1
      ensures id == counter.value
      ensures this.username == username && tasks == []
    {
      counter.value := counter.value + 1;
      id := counter.value;
      this.username := username;
      tasks := [];
    }
  }

  /** The key the stores look tasks up by. */
  function TaskId(t: Task): int {
    t.id
  }

  /** The key the stores look users up by. */
  function UserId(u: User): int {
    u.id
  }
}
