/**
 * Laws of the store: how the dictionary follows the list through each
 * handler, and what a client observes across several requests.
 */
module StoreLaws {
  import opened Users
  import opened Http
  import opened StoreSpec

  /** Under unique ids, a dictionary lookup and a scan of the list agree. */
  lemma IndexAgreesWithList(users: seq<User>, id: int)
    requires DistinctIds(users)
    ensures id in IndexOf(users) <==> FindIndex(users, id).Some?
    ensures FindIndex(users, id).Some? ==> IndexOf(users)[id] == users[FindIndex(users, id).value]
  {
    if id in IndexOf(users) {
      var i :| 0 <= i < |users| && users[i].id == id;
    }
  }

  /** Under unique ids, a dictionary that holds every user under its id and nothing else is IndexOf. */
  lemma IndexDetermined(users: seq<User>, index: map<int, User>)
    requires DistinctIds(users)
    requires index.Keys == Ids(users)
    requires forall i :: 0 <= i < |users| ==> index[users[i].id] == users[i]
    ensures index == IndexOf(users)
  {
    var built := IndexOf(users);
    forall x | x in index ensures index[x] == built[x] {
      var i :| 0 <= i < |users| && users[i].id == x;
      assert built[users[i].id] == users[i];
    }
  }

  /** POST: `users.Add(user); userDictionary[user.Id] = user` keeps the dictionary in step. */
  lemma IndexOfAppend(users: seq<User>, u: User)
    ensures IndexOf(users + [u]) == IndexOf(users)[u.id := u]
  {
    assert (users + [u])[..|users|] == users;
  }

  /** PUT: overwriting the record in the list is overwriting its dictionary entry. */
  lemma IndexOfReplace(users: seq<User>, k: nat, u: User)
    requires DistinctIds(users) && k < |users| && u.id == users[k].id
    ensures IndexOf(users[k := u]) == IndexOf(users)[u.id := u]
  {
    var after := users[k := u];
    assert DistinctIds(after);
    assert Ids(after) == Ids(users) by {
      forall x | x in Ids(users) ensures x in Ids(after) {
        var i :| 0 <= i < |users| && users[i].id == x;
        assert after[i].id == x;
      }
      forall x | x in Ids(after) ensures x in Ids(users) {
        var i :| 0 <= i < |after| && after[i].id == x;
        assert users[i].id == x;
      }
    }
    var expected := IndexOf(users)[u.id := u];
    forall i | 0 <= i < |after| ensures expected[after[i].id] == after[i] {
      if i != k {
        assert after[i] == users[i];
      }
    }
    IndexDetermined(after, expected);
  }

  /** DELETE: removing the record from the list is removing its key from the dictionary. */
  lemma IndexOfRemove(users: seq<User>, k: nat)
    requires DistinctIds(users) && k < |users|
    ensures IndexOf(users[..k] + users[k + 1..]) == IndexOf(users) - {users[k].id}
  {
    var rest := users[..k] + users[k + 1..];
    RemoveAtFacts(users, k);
    var expected := IndexOf(users) - {users[k].id};
    forall j | 0 <= j < |rest| ensures expected[rest[j].id] == rest[j] {
      var i := if j < k then j else j + 1;
      assert rest[j] == users[i] && users[i].id != users[k].id;
    }
    IndexDetermined(rest, expected);
  }

  /** Round trip: GET of the id a POST returned yields the created user. */
  lemma CreateThenGet(users: seq<User>, body: User, parses: string -> bool)
    requires ValidUsers(users)
    ensures var s := Create(users, body, parses);
      s.reply.Returned? && s.reply.response.Created? ==>
        Get(s.users, s.reply.response.user.id) == Found(s.reply.response.user)
  {
    var s := Create(users, body, parses);
    CreateOutcome(users, body, parses);
    if s.reply.Returned? && s.reply.response.Created? {
      var u := s.reply.response.user;
      assert s.users[|users|] == u;
      var k := FindIndex(s.users, u.id).value;
      assert k == |users|;
    }
  }

  /** GET after a PUT on a stored id yields the new name and email under the same id. */
  lemma GetAfterUpdate(users: seq<User>, id: int, body: User)
    requires ValidUsers(users) && id in Ids(users)
    ensures Get(Update(users, id, body).users, id) == Found(User(id, body.name, body.email))
  {
    UpdateOutcome(users, id, body);
    var after := Update(users, id, body).users;
    var i :| 0 <= i < |users| && users[i].id == id;
    var k := FindIndex(after, id).value;
    assert k == i;
  }

  /** GET after a DELETE of the same id is NotFound. */
  lemma GetAfterDelete(users: seq<User>, id: int)
    requires ValidUsers(users) && id > 0
    ensures Get(Delete(users, id).users, id) == NotFound
  {
    DeleteOutcome(users, id);
  }

  /** One POST as a transition on the list. */
  function Post(parses: string -> bool): (seq<User>, User) -> seq<User> {
    (users, body) => Create(users, body, parses).users
  }

  /** The list after `post` has been applied to each body in turn. */
  function Fold(post: (seq<User>, User) -> seq<User>, users: seq<User>, bodies: seq<User>): seq<User>
    decreases |bodies|
  {
    if |bodies| == 0 then users else Fold(post, post(users, bodies[0]), bodies[1..])
  }

  /** A sequence of POSTs with no other request in between. */
  function CreateAll(users: seq<User>, bodies: seq<User>, parses: string -> bool): seq<User> {
    Fold(Post(parses), users, bodies)
  }

  /** Ids 1, 2, ..., n in list order: what creates alone produce from an empty store. */
  predicate Consecutive(users: seq<User>) {
    forall i :: 0 <= i < |users| ==> users[i].id == i + 1
  }

  /** The users that accepted bodies become when they receive the ids first, first + 1, ... */
  function Numbered(first: int, bodies: seq<User>): seq<User>
    requires 0 < first && first + |bodies| <= MaxInt32 + 1
  {
    seq(|bodies|, i requires 0 <= i < |bodies| => User(first + i, bodies[i].name, bodies[i].email))
  }

  lemma NumberedCons(first: int, bodies: seq<User>)
    requires 0 < first && first + |bodies| <= MaxInt32 + 1 && |bodies| > 0
    ensures Numbered(first, bodies)
            == [User(first, bodies[0].name, bodies[0].email)] + Numbered(first + 1, bodies[1..])
  {
    var whole, tail := Numbered(first, bodies), Numbered(first + 1, bodies[1..]);
    var joined := [User(first, bodies[0].name, bodies[0].email)] + tail;
    assert |whole| == |joined|;
    forall i | 0 <= i < |whole| ensures whole[i] == joined[i] {
      if i > 0 {
        assert joined[i] == tail[i - 1];
        assert bodies[1..][i - 1] == bodies[i];
      }
    }
  }

  /** One accepted create on a store holding ids 1..n appends the body under id n + 1. */
  lemma CreateOnConsecutive(users: seq<User>, body: User, parses: string -> bool)
    requires Consecutive(users) && Acceptable(body, parses) && |users| < MaxInt32
    ensures Create(users, body, parses).users == users + [User(|users| + 1, body.name, body.email)]
  {
    if |users| > 0 {
      assert users[|users| - 1].id == |users|;
      assert MaxId(users) == |users|;
    }
  }

  /**
   * Creates without deletes assign consecutive ids: starting from a store
   * holding ids 1..n, accepted bodies are appended in order under n+1, n+2, ...
   */
  lemma ConsecutiveIds(users: seq<User>, bodies: seq<User>, parses: string -> bool)
    requires Consecutive(users)
    requires forall i :: 0 <= i < |bodies| ==> Acceptable(bodies[i], parses)
    requires |users| + |bodies| <= MaxInt32
    ensures CreateAll(users, bodies, parses) == users + Numbered(|users| + 1, bodies)
  {
    var post := Post(parses);
    forall us: seq<User>, i | Consecutive(us) && |us| < MaxInt32 && 0 <= i < |bodies|
      ensures post(us, bodies[i]) == us + [User(|us| + 1, bodies[i].name, bodies[i].email)]
    {
      CreateOnConsecutive(us, bodies[i], parses);
    }
    FoldNumbered(post, users, bodies);
  }

  /**
   * Any step that appends the next consecutive id to a store holding ids
   * 1..n, folded over the bodies, numbers them from n + 1 on.
   */
  lemma {:induction false} FoldNumbered(post: (seq<User>, User) -> seq<User>, users: seq<User>, bodies: seq<User>)
    requires Consecutive(users)
    requires |users| + |bodies| <= MaxInt32
    requires forall us: seq<User>, i {:trigger post(us, bodies[i])}
               | Consecutive(us) && |us| < MaxInt32 && 0 <= i < |bodies| ::
               post(us, bodies[i]) == us + [User(|us| + 1, bodies[i].name, bodies[i].email)]
    ensures Fold(post, users, bodies) == users + Numbered(|users| + 1, bodies)
    decreases |bodies|
  {
    if |bodies| > 0 {
      var u := User(|users| + 1, bodies[0].name, bodies[0].email);
      var next := users + [u];
      assert post(users, bodies[0]) == next;
      assert forall i :: 0 <= i < |next| ==> next[i].id == i + 1 by {
        assert forall i :: 0 <= i < |users| ==> next[i] == users[i];
      }
      var tail := bodies[1..];
      forall us: seq<User>, i | Consecutive(us) && |us| < MaxInt32 && 0 <= i < |tail|
        ensures post(us, tail[i]) == us + [User(|us| + 1, tail[i].name, tail[i].email)]
      {
        assert tail[i] == bodies[i + 1];
      }
      FoldNumbered(post, next, tail);
      var later := Numbered(|next| + 1, bodies[1..]);
      NumberedCons(|users| + 1, bodies);
      AppendAssociative(users, [u], later);
    } else {
      assert Numbered(|users| + 1, bodies) == [];
    }
  }

  lemma AppendAssociative(a: seq<User>, b: seq<User>, c: seq<User>)
    ensures (a + b) + c == a + (b + c)
  {
  }

  /** Ids are reused: with ids 1, 2 and 3 stored, deleting 3 and then creating hands out 3 again. */
  lemma IdReusedAfterDelete(body: User, parses: string -> bool)
    requires Acceptable(body, parses)
    ensures var users := [User(1, body.name, body.email), User(2, body.name, body.email), User(3, body.name, body.email)];
      var rest := Delete(users, 3);
      && rest.reply == Returned(NoContent)
      && Create(rest.users, body, parses).reply == Returned(Created(User(3, body.name, body.email)))
  {
    var users := [User(1, body.name, body.email), User(2, body.name, body.email), User(3, body.name, body.email)];
    assert users[0].id == 1 && users[1].id == 2 && users[2].id == 3;
    assert FindIndex(users, 3).Some?;
    assert FindIndex(users, 3) == Some(2);
    var rest := users[..2] + users[3..];
    assert Delete(users, 3).users == rest;
    assert MaxId(rest) == 2;
  }

  /**
   * Deleting the user with the largest id m and then creating: the new id
   * is the largest remaining id plus one (1 when nobody remains), so it
   * never exceeds m, and it is m again exactly when m - 1 is stored or m is 1.
   */
  lemma DeleteMaxThenCreate(users: seq<User>, body: User, parses: string -> bool)
    requires ValidUsers(users) && |users| > 0 && Acceptable(body, parses)
    ensures var m := MaxId(users);
      var d := Delete(users, m);
      var s := Create(d.users, body, parses);
      && d.reply == Returned(NoContent)
      && s.reply.Returned? && s.reply.response.Created?
      && var id := s.reply.response.user.id;
      && (forall i :: 0 <= i < |d.users| ==> d.users[i].id < id)
      && (if |d.users| == 0 then id == 1 else id - 1 in Ids(d.users))
      && id <= m
      && (id == m <==> m - 1 in Ids(users) || m == 1)
  {
    var m := MaxId(users);
    var rest := Delete(users, m).users;
    DeleteMaxFacts(users);
    var id := AcceptedCreate(rest, body, parses);
    ReuseBound(Ids(users), Ids(rest), m, id, |rest| == 0);
  }

  /**
   * The arithmetic behind DeleteMaxThenCreate, on id sets: when the
   * remaining ids are the old ones without their maximum m, and id is
   * one above a remaining id (or 1 with none remaining) and above all of
   * them, then id <= m, with equality exactly when m - 1 was an id or m is 1.
   */
  lemma ReuseBound(ids: set<int>, rest: set<int>, m: int, id: int, none: bool)
    requires m in ids && rest == ids - {m}
    requires forall x :: x in ids ==> 0 < x <= m
    requires m == 1 ==> none
    requires forall x :: x in rest ==> x < id
    requires if none then id == 1 && m - 1 !in rest else id - 1 in rest
    ensures id <= m
    ensures id == m <==> m - 1 in ids || m == 1
  {
    if m - 1 in ids {
      assert m - 1 in rest;
    }
  }

  /** An accepted create on a store without int.MaxValue answers 201 with an id above all others. */
  lemma AcceptedCreate(users: seq<User>, body: User, parses: string -> bool) returns (id: int)
    requires Acceptable(body, parses) && MaxInt32 !in Ids(users)
    ensures var s := Create(users, body, parses);
      && s.reply.Returned? && s.reply.response.Created?
      && id == s.reply.response.user.id
      && (forall i :: 0 <= i < |users| ==> users[i].id < id)
      && (forall x :: x in Ids(users) ==> x < id)
      && (if |users| == 0 then id == 1 else id - 1 in Ids(users))
  {
    CreateOutcome(users, body, parses);
    id := Create(users, body, parses).reply.response.user.id;
  }

  /** What deleting the largest id leaves: the other ids, all below it, and nobody exactly when it was 1. */
  lemma DeleteMaxFacts(users: seq<User>)
    requires ValidUsers(users) && |users| > 0
    ensures var m := MaxId(users);
      var d := Delete(users, m);
      && d.reply == Returned(NoContent)
      && m in Ids(users)
      && Ids(d.users) == Ids(users) - {m}
      && (forall x :: x in Ids(users) ==> 0 < x <= m)
      && MaxInt32 !in Ids(d.users)
      && (m == 1 ==> |d.users| == 0)
      && (|d.users| == 0 ==> Ids(d.users) == {})
  {
    var m := MaxId(users);
    MaxIdBounds(users);
    DeleteOutcome(users, m);
    var rest := Delete(users, m).users;
    if |rest| > 0 {
      assert rest[0].id in Ids(rest);
    }
  }

  /** In a valid non-empty store, MaxId is one of the ids and every id lies between 1 and it. */
  lemma MaxIdBounds(users: seq<User>)
    requires ValidUsers(users) && |users| > 0
    ensures MaxId(users) in Ids(users)
    ensures forall x :: x in Ids(users) ==> 0 < x <= MaxId(users)
  {
    var m := MaxId(users);
    var k :| 0 <= k < |users| && users[k].id == m;
    assert users[k].id in Ids(users);
    forall x | x in Ids(users) ensures 0 < x <= m {
      var j :| 0 <= j < |users| && users[j].id == x;
    }
  }

  /** From an empty store, n accepted creates yield exactly the ids 1..n. */
  lemma CreatesFromEmpty(bodies: seq<User>, parses: string -> bool)
    requires forall i :: 0 <= i < |bodies| ==> Acceptable(bodies[i], parses)
    requires |bodies| <= MaxInt32
    ensures var r := CreateAll([], bodies, parses);
      && |r| == |bodies|
      && forall i :: 0 <= i < |r| ==>
           r[i].id == i + 1 && r[i].name == bodies[i].name && r[i].email == bodies[i].email
  {
    ConsecutiveIds([], bodies, parses);
    assert [] + Numbered(1, bodies) == Numbered(1, bodies);
  }
}
