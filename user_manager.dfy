/**
 * The user store: an ordered list of users. Ids come from the shared counter,
 * so they are distinct within a store and no larger than the counter.
 */
module UserManagement {
  import opened Wrappers
  import opened Sequences
  import opened Entities

  class UserManager {
    var users: seq<User>
    /** The shared id counter every user this store creates draws from. */
    const counter: IdCounter

    /** User ids are pairwise distinct, positive and already handed out by the counter. */
    ghost predicate Valid()
      reads this, counter
    {
      && KeysDistinct(users, UserId)
      && forall i :: 0 <= i < |users| ==> 0 < users[i].id <= counter.value
    }

    /** A new store is empty. */
    constructor (counter: IdCounter)
      ensures Valid() && users == [] && this.counter == counter
    {
      users := [];
      this.counter := counter;
    }

    /**
     * `addUser(username)`: appends one new user with the next counter value as
     * its id, larger than every id already in the store, and returns it.
     */
    method AddUser(username: string) returns (u: User)
      requires Valid()
      modifies this, counter
      ensures Valid() && fresh(u)
      ensures users == old(users) + [u]
      ensures counter.value == old(counter.value) + 1 && u.id == counter.value
      ensures forall i :: 0 <= i < |old(users)| ==> old(users)[i].id < u.id
      ensures u.username == username && u.tasks == []
    {
      u := new User(username, counter);
      users := users + [u];
    }

    /**
     * `updateUser(userId, newUsername)`: renames the user with that id and
     * returns it; nothing else changes.
     */
    method UpdateUser(userId: int, newUsername: string) returns (r: Option<User>)
      requires Valid()
      modifies users
      ensures r == GetUserById(userId)
      ensures r.Some? ==> r.value.username == newUsername && r.value.tasks == old(r.value.tasks)
      ensures forall u :: u in users && r != Some(u) ==> unchanged(u)
    {
      r := Find(users, UserId, userId);
      if r.Some? {
        r.value.username := newUsername;
      }
    }

    /**
     * `removeUser(userId)`: drops the user with that id, keeping the others in
     * order, and reports whether one was there. Since ids are distinct, at most
     * one user goes.
     */
    method RemoveUser(userId: int) returns (removed: bool)
      requires Valid()
      modifies this
      ensures Valid()
      ensures removed <==> exists i :: 0 <= i < |old(users)| && old(users)[i].id == userId
      ensures removed ==> |users| == |old(users)| - 1
      ensures forall i :: 0 <= i < |users| ==> users[i] in old(users) && users[i].id != userId
      ensures forall i :: 0 <= i < |old(users)| && old(users)[i].id != userId ==> old(users)[i] in users
      ensures IsSubsequence(users, old(users))
      ensures !removed ==> users == old(users)
      ensures GetUserById(userId) == None
    {
      var initialLength := |users|;
      RemoveKeyKeepsKeysDistinct(users, UserId, userId);
      RemoveKeyAtMostOne(users, UserId, userId);
      if !HasKey(users, UserId, userId) {
        RemoveKeyAbsent(users, UserId, userId);
      }
      users := RemoveKey(users, UserId, userId);
      removed := initialLength != |users|;
    }

    /** `getAllUsers()` hands out the live list itself, in insertion order. */
    function GetAllUsers(): (r: seq<User>)
      reads this
      ensures r == users
    {
      users
    }

    /** `getUserById(userId)`: the user with that id, or none. */
    function GetUserById(userId: int): (r: Option<User>)
      reads this
      ensures r.None? <==> forall i :: 0 <= i < |users| ==> users[i].id != userId
      ensures r.Some? ==> r.value in users && r.value.id == userId
      ensures r.Some? && KeysDistinct(users, UserId) ==>
                forall i :: 0 <= i < |users| && users[i].id == userId ==> users[i] == r.value
    {
      Find(users, UserId, userId)
    }
  }

  /**
   * Two stores on one shared counter: a user added to the first gets an id
   * that no user of the second has, and the second stays valid.
   */
  method AddUserAcrossStores(m1: UserManager, m2: UserManager, username: string) returns (u: User)
    requires m1 != m2 && m1.counter == m2.counter
    requires m1.Valid() && m2.Valid()
    modifies m1, m1.counter
    ensures m1.Valid() && m2.Valid() && m1.users == old(m1.users) + [u] && m2.users == old(m2.users)
    ensures forall i :: 0 <= i < |m2.users| ==> m2.users[i].id != u.id
  {
    u := m1.AddUser(username);
  }
}
