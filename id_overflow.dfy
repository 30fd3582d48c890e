/**
 * The id assignment as written: `users.Max(u => u.Id) + 1` in C#'s default
 * unchecked context wraps from int.MaxValue to int.MinValue. This module
 * models that expression, shows that the limit is reachable from an empty
 * store, and shows what the wrap does to the store. The rest of the model
 * uses the checked increment (StoreSpec.NextId), which throws instead.
 */
module IdOverflow {
  import opened Users
  import opened Http
  import opened StoreSpec

  /** Two's-complement 32-bit wrap-around of an integer result. */
  function Wrap32(x: int): (r: Int32)
    ensures (r - x) % 0x1_0000_0000 == 0
    ensures MinInt32 <= x <= MaxInt32 ==> r == x
  {
    (x + 0x8000_0000) % 0x1_0000_0000 - 0x8000_0000
  }

  /** `users.Count > 0 ? users.Max(u => u.Id) + 1 : 1`, unchecked. */
  function NextIdAsWritten(users: seq<User>): Int32 {
    if |users| == 0 then 1 else Wrap32(MaxId(users) + 1)
  }

  /** POST /api/users as written: the same checks, then the unchecked id. */
  function CreateAsWritten(users: seq<User>, body: User, parses: string -> bool): Step {
    var refusal := Validate(body, parses);
    if refusal.Some? then Step(refusal.value, users)
    else
      var u := User(NextIdAsWritten(users), body.name, body.email);
      Step(Returned(Created(u)), users + [u])
  }

  /** Below the limit the code as written and the checked model agree. */
  lemma AsWrittenAgreesBelowLimit(users: seq<User>, body: User, parses: string -> bool)
    requires MaxInt32 !in Ids(users)
    ensures CreateAsWritten(users, body, parses) == Create(users, body, parses)
  {
    if |users| > 0 {
      var m := MaxId(users);
      assert m != MaxInt32;
    }
  }

  /** One round of churn as the service runs it: create a user, then delete the one that was first. */
  function Round(users: seq<User>, body: User, parses: string -> bool): seq<User> {
    if |users| == 0 then users
    else Delete(CreateAsWritten(users, body, parses).users, users[0].id).users
  }

  /** A step applied `rounds` times. */
  function Iterate(step: seq<User> -> seq<User>, users: seq<User>, rounds: nat): seq<User>
    decreases rounds
  {
    if rounds == 0 then users else Iterate(step, step(users), rounds - 1)
  }

  /** One round on a store holding only id k appends id k + 1 and removes id k. */
  lemma ChurnRound(k: int, body: User, parses: string -> bool)
    requires Acceptable(body, parses)
    requires 0 < k < MaxInt32
    ensures Round([User(k, body.name, body.email)], body, parses) == [User(k + 1, body.name, body.email)]
  {
    var one := [User(k, body.name, body.email)];
    assert MaxId(one) == k;
    var created := one + [User(k + 1, body.name, body.email)];
    assert CreateAsWritten(one, body, parses).users == created;
    assert FindIndex(created, k) == Some(0);
  }

  /** A step that raises the id of a one-user store by one, repeated, raises it by the number of rounds. */
  lemma {:induction false} IterateRaisesId(step: seq<User> -> seq<User>, k: int, name: Option<string>,
                                           email: Option<string>, rounds: nat)
    requires forall j :: 0 < j < MaxInt32 ==> step([User(j, name, email)]) == [User(j + 1, name, email)]
    requires 0 < k && k + rounds <= MaxInt32
    ensures Iterate(step, [User(k, name, email)], rounds) == [User(k + rounds, name, email)]
    decreases rounds
  {
    if rounds > 0 {
      IterateRaisesId(step, k + 1, name, email, rounds - 1);
    }
  }

  /**
   * The limit is reachable by the service as written: from an empty store,
   * one create and then 2^31 - 2 rounds of churn leave a single user whose
   * id is int.MaxValue.
   */
  lemma LimitReachable(body: User, parses: string -> bool)
    requires Acceptable(body, parses)
    ensures CreateAsWritten([], body, parses).users == [User(1, body.name, body.email)]
    ensures Iterate(users => Round(users, body, parses), CreateAsWritten([], body, parses).users, MaxInt32 - 1)
            == [User(MaxInt32, body.name, body.email)]
  {
    var step := users => Round(users, body, parses);
    forall j | 0 < j < MaxInt32
      ensures step([User(j, body.name, body.email)]) == [User(j + 1, body.name, body.email)]
    {
      ChurnRound(j, body, parses);
    }
    IterateRaisesId(step, 1, body.name, body.email, MaxInt32 - 1);
  }

  /**
   * At the limit the code as written breaks the store: the first create
   * after it hands out int.MinValue, which GET refuses as an invalid id,
   * and the second hands it out again, so the list holds two users with one
   * id while the dictionary keeps only the later of them.
   */
  lemma AsWrittenBreaksStore(first: User, second: User, parses: string -> bool)
    requires Acceptable(first, parses)
    requires Acceptable(second, parses)
    requires first.name != second.name
    ensures var s0 := [User(MaxInt32, first.name, first.email)];
      var c1 := CreateAsWritten(s0, first, parses);
      var c2 := CreateAsWritten(c1.users, second, parses);
      && c1.reply == Returned(Created(User(MinInt32, first.name, first.email)))
      && Get(c1.users, MinInt32) == BadRequest(InvalidIdMessage)
      && |c2.users| == 3 && c2.users[1].id == c2.users[2].id == MinInt32
      && !ValidUsers(c2.users)
      && IndexOf(c2.users)[MinInt32] == c2.users[2] != c2.users[1]
  {
    var s0 := [User(MaxInt32, first.name, first.email)];
    assert MaxId(s0) == MaxInt32;
    var c1 := CreateAsWritten(s0, first, parses);
    assert MaxId(c1.users) == MaxInt32;
    var c2 := CreateAsWritten(c1.users, second, parses);
    assert c2.users[..2] == c1.users;
  }
}
