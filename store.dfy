/**
 * The service's shared store: the ordered list `users` and the dictionary
 * `userDictionary` (here `index`) over the same records, changed in place
 * by the POST, PUT and DELETE handlers.
 */
module UserStore {
  import opened Users
  import opened Http
  import opened StoreSpec
  import opened StoreLaws

  /**
   * users.Max(u => u.Id): one pass over the list from the front, keeping
   * the largest id seen so far.
   */
  method ScanMaxId(users: seq<User>) returns (max: Int32)
    requires |users| > 0
    ensures max == MaxId(users)
  {
    max := users[0].id;
    var i := 1;
    while i < |users|
      invariant 1 <= i <= |users|
      invariant exists j :: 0 <= j < i && users[j].id == max
      invariant forall j :: 0 <= j < i ==> users[j].id <= max
    {
      if users[i].id > max {
        max := users[i].id;
      }
      i := i + 1;
    }
  }

  /**
   * `users.Count > 0 ? users.Max(u => u.Id) + 1 : 1` with the increment
   * checked: None where the largest id is already int.MaxValue.
   */
  method AssignId(users: seq<User>) returns (next: Option<Int32>)
    ensures next == NextId(users)
  {
    if |users| == 0 {
      return Some(1);
    }
    var max := ScanMaxId(users);
    if max == MaxInt32 {
      return None;
    }
    return Some(max + 1);
  }

  class Store {
    var users: seq<User>
    var index: map<int, User>

    /** The two structures hold the same records, under unique positive ids. */
    ghost predicate Valid()
      reads this
    {
      ValidUsers(users) && index == IndexOf(users)
    }

    constructor ()
      ensures Valid() && users == []
    {
      users := [];
      index := map[];
    }

    /** GET /api/users. */
    function List(): (r: Response)
      reads this
      ensures Status(r) == 200 && r.UserList? && r.users == users
    {
      UserList(users)
    }

    /** GET /api/users/{id}: answered from the dictionary; the same answer a scan of the list gives. */
    function Get(id: int): (r: Response)
      reads this
      requires Valid()
      ensures r == StoreSpec.Get(users, id)
    {
      IndexAgreesWithList(users, id);
      if id <= 0 then BadRequest(InvalidIdMessage)
      else if id in index then Found(index[id])
      else NotFound
    }

    /** POST /api/users. */
    method Create(body: User, parses: string -> bool) returns (reply: Reply)
      requires Valid()
      modifies this
      ensures Valid()
      ensures Step(reply, users) == StoreSpec.Create(old(users), body, parses)
    {
      var refusal := Validate(body, parses);
      if refusal.Some? {
        return refusal.value;
      }
      var next := AssignId(users);
      if next.None? {
        return Threw(OverflowMessage);
      }
      var user := User(next.value, body.name, body.email);
      Append(user);
      reply := Returned(Created(user));
    }

    /** `users.Add(user); userDictionary[user.Id] = user` for a user whose id is above every stored one. */
    method Append(user: User)
      requires Valid()
      requires user.id > 0 && forall i :: 0 <= i < |users| ==> users[i].id < user.id
      modifies this
      ensures Valid() && users == old(users) + [user]
    {
      IndexOfAppend(users, user);
      users := users + [user];
      index := index[user.id := user];
    }

    /**
     * PUT /api/users/{id}. In the service the list and the dictionary share
     * one object, whose name and email are overwritten; here both copies are.
     */
    method Update(id: int, body: User) returns (reply: Reply)
      requires Valid()
      modifies this
      ensures Valid()
      ensures Step(reply, users) == StoreSpec.Update(old(users), id, body)
    {
      IndexAgreesWithList(users, id);
      if id in index {
        var user := index[id];
        var updated := user.(name := body.name, email := body.email);
        var k := FindIndex(users, id).value;
        UpdatePreservesValid(users, id, body);
        IndexOfReplace(users, k, updated);
        users := users[k := updated];
        index := index[id := updated];
        return Returned(NoContent);
      }
      return Returned(NotFound);
    }

    /**
     * DELETE /api/users/{id}. `users.Remove(user)` scans the list for the
     * first element equal to the stored record and removes it there.
     */
    method Delete(id: int) returns (reply: Reply)
      requires Valid()
      modifies this
      ensures Valid()
      ensures Step(reply, users) == StoreSpec.Delete(old(users), id)
    {
      IndexAgreesWithList(users, id);
      if id in index {
        var user := index[id];
        ghost var target := FindIndex(users, id).value;
        var k := 0;
        while k < |users| && users[k] != user
          invariant k <= target
          invariant forall j :: 0 <= j < k ==> users[j] != user
        {
          k := k + 1;
        }
        assert k == target;
        DeleteOutcome(users, id);
        IndexOfRemove(users, k);
        users := users[..k] + users[k + 1..];
        index := index - {id};
        return Returned(NoContent);
      }
      return Returned(NotFound);
    }
  }
}
