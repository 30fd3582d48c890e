/**
 * The user store as a value: the ordered list of users. The id-keyed
 * dictionary the service keeps beside the list is a function of it
 * (IndexOf), and each handler is a transition from one list to the next.
 */
module StoreSpec {
  import opened Users
  import opened Http

  /** A handler's reply together with the list it leaves behind. */
  datatype Step = Step(reply: Reply, users: seq<User>)

  function Ids(users: seq<User>): set<int> {
    set i | 0 <= i < |users| :: users[i].id
  }

  predicate DistinctIds(users: seq<User>) {
    forall i, j :: 0 <= i < j < |users| ==> users[i].id != users[j].id
  }

  /** What every reachable store satisfies: ids are positive and no two users share one. */
  predicate ValidUsers(users: seq<User>) {
    DistinctIds(users) && forall i :: 0 <= i < |users| ==> users[i].id > 0
  }

  /**
   * The dictionary beside the list: one entry per id, mapping to the user
   * with that id. Built as the service builds it, one assignment per
   * appended user, so a later user with a repeated id would win.
   */
  function IndexOf(users: seq<User>): (index: map<int, User>)
    ensures index.Keys == Ids(users)
    ensures DistinctIds(users) ==> forall i :: 0 <= i < |users| ==> index[users[i].id] == users[i]
  {
    if |users| == 0 then map[]
    else
      var prefix, last := users[..|users| - 1], users[|users| - 1];
      IdsOfSnoc(users);
      assert forall i :: 0 <= i < |prefix| ==> prefix[i] == users[i];
      IndexOf(prefix)[last.id := last]
  }

  /** The ids of a non-empty list are those of all but its last user, plus the last user's. */
  lemma IdsOfSnoc(users: seq<User>)
    requires |users| > 0
    ensures Ids(users) == Ids(users[..|users| - 1]) + {users[|users| - 1].id}
  {
    var prefix := users[..|users| - 1];
    forall x | x in Ids(users) ensures x in Ids(prefix) + {users[|users| - 1].id} {
      var i :| 0 <= i < |users| && users[i].id == x;
      if i < |users| - 1 { assert prefix[i] == users[i]; }
    }
    forall x | x in Ids(prefix) ensures x in Ids(users) {
      var i :| 0 <= i < |prefix| && prefix[i].id == x;
      assert users[i] == prefix[i];
    }
  }

  /** users.Max(u => u.Id): the largest id in a non-empty list. */
  function MaxId(users: seq<User>): (m: Int32)
    requires |users| > 0
    ensures exists i :: 0 <= i < |users| && users[i].id == m
    ensures forall i :: 0 <= i < |users| ==> users[i].id <= m
  {
    if |users| == 1 then users[0].id
    else
      var rest := MaxId(users[1..]);
      assert forall i :: 1 <= i < |users| ==> users[i] == users[1..][i - 1];
      if users[0].id > rest then users[0].id else rest
  }

  /**
   * The id a successful create assigns: 1 for an empty list, otherwise one
   * more than the largest id, computed with overflow checking, so that at
   * int.MaxValue there is no next id (None).
   */
  function NextId(users: seq<User>): (r: Option<Int32>)
    ensures r.Some? ==> forall i :: 0 <= i < |users| ==> users[i].id < r.value
    ensures r.Some? && (forall i :: 0 <= i < |users| ==> users[i].id > 0) ==> r.value > 0
    ensures r.None? <==> exists i :: 0 <= i < |users| && users[i].id == MaxInt32
    ensures |users| == 0 ==> r == Some(1)
    ensures r.Some? && |users| > 0 ==> r.value - 1 in Ids(users)
  {
    if |users| == 0 then Some(1)
    else
      var m := MaxId(users);
      if m < MaxInt32 then Some(m + 1) else None
  }

  /** The position of the first user with the given id, if any. */
  function FindIndex(users: seq<User>, id: int): (r: Option<nat>)
    ensures r.Some? ==> r.value < |users| && users[r.value].id == id
    ensures r.Some? ==> forall j :: 0 <= j < r.value ==> users[j].id != id
    ensures r.None? <==> forall j :: 0 <= j < |users| ==> users[j].id != id
  {
    if |users| == 0 then None
    else if users[0].id == id then Some(0)
    else
      match FindIndex(users[1..], id)
      case None => (assert forall j :: 1 <= j < |users| ==> users[j] == users[1..][j - 1]; None)
      case Some(k) => (assert forall j :: 1 <= j <= k + 1 ==> users[j] == users[1..][j - 1]; Some(k + 1))
  }

  /** GET /api/users/{id}. */
  function Get(users: seq<User>, id: int): (r: Response)
    ensures r == BadRequest(InvalidIdMessage) <==> id <= 0
    ensures r.Found? ==> r.user in users && r.user.id == id
    ensures r == NotFound <==> id > 0 && id !in Ids(users)
    ensures r == BadRequest(InvalidIdMessage) || r.Found? || r == NotFound
  {
    if id <= 0 then BadRequest(InvalidIdMessage)
    else
      match FindIndex(users, id)
      case Some(k) => Found(users[k])
      case None => NotFound
  }

  /** A body a create accepts: a name that is not blank and an address the parser accepts. */
  predicate Acceptable(body: User, parses: string -> bool) {
    !IsNullOrWhiteSpace(body.name) && IsValidEmail(body.email, parses)
  }

  /**
   * The POST handler's checks on the body, in order: the refusal it
   * answers with, or None when the body is accepted.
   */
  function Validate(body: User, parses: string -> bool): (refusal: Option<Reply>)
    ensures refusal.None? <==> Acceptable(body, parses)
    ensures refusal == Some(Returned(BadRequest(NameRequiredMessage))) <==> IsNullOrWhiteSpace(body.name)
    ensures refusal.Some? ==>
              refusal.value == Returned(BadRequest(NameRequiredMessage))
              || refusal.value == Returned(BadRequest(InvalidEmailMessage))
  {
    if IsNullOrWhiteSpace(body.name) then Some(Returned(BadRequest(NameRequiredMessage)))
    else if !IsValidEmail(body.email, parses) then Some(Returned(BadRequest(InvalidEmailMessage)))
    else None
  }

  /** POST /api/users: validate the body, then append it under the next id. */
  function Create(users: seq<User>, body: User, parses: string -> bool): Step {
    var refusal := Validate(body, parses);
    if refusal.Some? then Step(refusal.value, users)
    else
      match NextId(users)
      case None => Step(Threw(OverflowMessage), users)
      case Some(id) =>
        var u := User(id, body.name, body.email);
        Step(Returned(Created(u)), users + [u])
  }

  /** PUT /api/users/{id}: overwrite name and email of the stored user, without validating them. */
  function Update(users: seq<User>, id: int, body: User): Step {
    match FindIndex(users, id)
    case None => Step(Returned(NotFound), users)
    case Some(k) => Step(Returned(NoContent), users[k := users[k].(name := body.name, email := body.email)])
  }

  /** DELETE /api/users/{id}: remove the stored user, keeping the order of the rest. */
  function Delete(users: seq<User>, id: int): Step {
    match FindIndex(users, id)
    case None => Step(Returned(NotFound), users)
    case Some(k) => Step(Returned(NoContent), users[..k] + users[k + 1..])
  }

  /**
   * What a create answers and does: 400 exactly for a blank name or an
   * address the parser refuses, a thrown overflow exactly when the id
   * int.MaxValue is taken, otherwise 201 with the body appended under an
   * id above every existing one. Only the 201 changes the list.
   */
  lemma CreateOutcome(users: seq<User>, body: User, parses: string -> bool)
    ensures var s := Create(users, body, parses);
      && (s.reply.Returned? && s.reply.response.BadRequest?
          <==> !Acceptable(body, parses))
      && (s.reply == Returned(BadRequest(NameRequiredMessage)) <==> IsNullOrWhiteSpace(body.name))
      && (s.reply == Returned(BadRequest(InvalidEmailMessage))
          <==> !IsNullOrWhiteSpace(body.name) && !IsValidEmail(body.email, parses))
      && (s.reply.Threw?
          <==> Acceptable(body, parses) && MaxInt32 in Ids(users))
      && (s.reply.Threw? || s.reply.response.BadRequest? || s.reply.response.Created?)
      && (!(s.reply.Returned? && s.reply.response.Created?) ==> s.users == users)
      && (s.reply.Returned? && s.reply.response.Created? ==>
            var u := s.reply.response.user;
            && s.users == users + [u]
            && u.name == body.name && u.email == body.email
            && (forall i :: 0 <= i < |users| ==> users[i].id < u.id)
            && (if |users| == 0 then u.id == 1 else u.id - 1 in Ids(users)))
  {
    if Acceptable(body, parses) {
      if MaxInt32 in Ids(users) {
        var i :| 0 <= i < |users| && users[i].id == MaxInt32;
      }
    }
  }

  /** A create keeps ids positive and unique. */
  lemma CreatePreservesValid(users: seq<User>, body: User, parses: string -> bool)
    requires ValidUsers(users)
    ensures ValidUsers(Create(users, body, parses).users)
  {
    CreateOutcome(users, body, parses);
  }

  /**
   * What an update answers and does: 404 with no change exactly when no
   * user has the id; otherwise 204, and the user with that id gets the
   * body's name and email (validated or not) while its id, its position
   * and every other user stay as they were.
   */
  lemma UpdateOutcome(users: seq<User>, id: int, body: User)
    ensures var s := Update(users, id, body);
      && (s.reply == Returned(NoContent) || s.reply == Returned(NotFound))
      && (s.reply == Returned(NotFound) <==> id !in Ids(users))
      && (s.reply == Returned(NotFound) ==> s.users == users)
      && |s.users| == |users|
      && (forall i :: 0 <= i < |users| ==> s.users[i].id == users[i].id)
      && (forall i :: 0 <= i < |users| && users[i].id != id ==> s.users[i] == users[i])
      && (DistinctIds(users) ==>
            forall i :: 0 <= i < |users| && users[i].id == id ==>
              s.users[i].name == body.name && s.users[i].email == body.email)
      && Ids(s.users) == Ids(users)
  {
    var s := Update(users, id, body);
    if id in Ids(users) {
      var i :| 0 <= i < |users| && users[i].id == id;
    }
    forall x | x in Ids(users) ensures x in Ids(s.users) {
      var i :| 0 <= i < |users| && users[i].id == x;
      assert s.users[i].id == x;
    }
    forall x | x in Ids(s.users) ensures x in Ids(users) {
      var i :| 0 <= i < |s.users| && s.users[i].id == x;
      assert users[i].id == x;
    }
  }

  /** An update keeps ids positive and unique. */
  lemma UpdatePreservesValid(users: seq<User>, id: int, body: User)
    requires ValidUsers(users)
    ensures ValidUsers(Update(users, id, body).users)
  {
    UpdateOutcome(users, id, body);
  }

  /**
   * What a delete answers and does: 404 with no change exactly when no
   * user has the id; otherwise 204 and the list without that user, the
   * others in their old order.
   */
  lemma DeleteOutcome(users: seq<User>, id: int)
    ensures var s := Delete(users, id);
      && (s.reply == Returned(NoContent) || s.reply == Returned(NotFound))
      && (s.reply == Returned(NotFound) <==> id !in Ids(users))
      && (s.reply == Returned(NotFound) ==> s.users == users)
      && (s.reply == Returned(NoContent) ==>
            exists k :: 0 <= k < |users| && users[k].id == id && s.users == users[..k] + users[k + 1..])
      && (DistinctIds(users) ==> Ids(s.users) == Ids(users) - {id})
      && (ValidUsers(users) ==> ValidUsers(s.users))
  {
    if id in Ids(users) {
      var i :| 0 <= i < |users| && users[i].id == id;
      RemoveAtFacts(users, FindIndex(users, id).value);
    }
  }

  /** What removing position k from a list does to its ids. */
  lemma RemoveAtFacts(users: seq<User>, k: nat)
    requires k < |users|
    ensures var rest := users[..k] + users[k + 1..];
      && |rest| == |users| - 1
      && (forall j :: 0 <= j < |rest| ==> rest[j] == users[if j < k then j else j + 1])
      && (DistinctIds(users) ==> DistinctIds(rest) && Ids(rest) == Ids(users) - {users[k].id})
      && (ValidUsers(users) ==> ValidUsers(rest))
  {
    var rest := users[..k] + users[k + 1..];
    assert forall j :: 0 <= j < |rest| ==> rest[j] == users[if j < k then j else j + 1];
    if DistinctIds(users) {
      forall x | x in Ids(users) - {users[k].id} ensures x in Ids(rest) {
        var i :| 0 <= i < |users| && users[i].id == x;
        assert rest[if i < k then i else i - 1] == users[i];
      }
    }
  }
}
