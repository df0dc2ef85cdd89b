/**
 * `User`: a rider or driver. The static counter `ID` hands out ids; it is an
 * object of its own here, shared by everyone who creates users.
 */
module Users {
  import opened Common
  import opened JavaHash

  /** The static field `User.ID`: the last id handed out, 0 before the first. */
  class IdCounter {
    var last: int

    constructor ()
      ensures last == 0
    {
      last := 0;
    }
  }

  class User {
    const id: int
    var name: string
    var balance: real

    /** `new User(name, balance)`: takes the next id, `++ID`. */
    constructor (counter: IdCounter, name: string, balance: real)
      modifies counter
      ensures counter.last == old(counter.last) + 1
      ensures id == counter.last && this.name == name && this.balance == balance
    {
      counter.last := counter.last + 1;
      id := counter.last;
      this.name := name;
      this.balance := balance;
    }

    /** `new User(name)`: a balance of 0. */
    constructor WithName(counter: IdCounter, name: string)
      modifies counter
      ensures counter.last == old(counter.last) + 1
      ensures id == counter.last && this.name == name && balance == 0.0
    {
      counter.last := counter.last + 1;
      id := counter.last;
      this.name := name;
      balance := 0.0;
    }

    method SetName(name: string)
      modifies this
      ensures this.name == name && balance == old(balance)
    {
      this.name := name;
    }

    method SetBalance(balance: real)
      modifies this
      ensures this.balance == balance && name == old(name)
    {
      this.balance := balance;
    }
  }

  /** Ids come from the counter, so a user created later has a larger id. */
  method CreateTwo(counter: IdCounter, first: string, second: string) returns (a: User, b: User)
    modifies counter
    ensures a.id < b.id && b.id == counter.last && a.id == old(counter.last) + 1
    ensures a.name == first && b.name == second && a != b
  {
    a := new User.WithName(counter, first);
    b := new User.WithName(counter, second);
  }

  /** `User.equals`: the same id and the same name; the balance does not take part. */
  predicate UserEquals(a: User, b: User)
    reads a, b
  {
    a.id == b.id && a.name == b.name
  }

  /** `equals` is an equivalence and identity implies it. */
  lemma UserEqualsIsEquivalence(a: User, b: User, c: User)
    ensures UserEquals(a, a)
    ensures UserEquals(a, b) ==> UserEquals(b, a)
    ensures UserEquals(a, b) && UserEquals(b, c) ==> UserEquals(a, c)
  {
  }

  /** `User.hashCode`: `31 * id + hash(name)`. */
  function HashCode(u: User, stringHash: string -> int): int
    reads u
  {
    FieldsHash(u.id, [stringHash(u.name)])
  }

  /** Equal users hash equally. */
  lemma EqualUsersHashEqually(a: User, b: User, stringHash: string -> int)
    requires UserEquals(a, b)
    ensures HashCode(a, stringHash) == HashCode(b, stringHash)
  {
  }

  /**
   * The first user of the collection, in iteration order, with the given id.
   * Ids are `final`, so the search reads no mutable state.
   */
  function FirstUserWithId(users: seq<User>, id: int): (r: Option<User>)
    ensures r.Some? <==> exists i :: 0 <= i < |users| && users[i].id == id
    ensures r.Some? ==>
      exists i :: 0 <= i < |users| && users[i] == r.value && r.value.id == id
        && forall j :: 0 <= j < i ==> users[j].id != id
    decreases |users|
  {
    if users == [] then None
    else if users[0].id == id then Some(users[0])
    else
      var r := FirstUserWithId(users[1..], id);
      assert forall i :: 1 <= i < |users| ==> users[i] == users[1..][i - 1];
      if r.Some? then
        var i :| 0 <= i < |users[1..]| && users[1..][i] == r.value && r.value.id == id
          && forall j :: 0 <= j < i ==> users[1..][j].id != id;
        assert users[i + 1] == r.value;
        r
      else r
  }

  /** `User.getUserById`: the for-each loop with an early return. */
  method GetUserById(users: seq<User>, id: int) returns (r: Option<User>)
    ensures r == FirstUserWithId(users, id)
  {
    for i := 0 to |users|
      invariant FirstUserWithId(users, id) == FirstUserWithId(users[i..], id)
      invariant forall j :: 0 <= j < i ==> users[j].id != id
    {
      if users[i].id == id {
        return Some(users[i]);
      }
      assert users[i..][1..] == users[i + 1..];
    }
    return None;
  }

  /** `User.hasUserById`: `getUserById` found someone. */
  function HasUserById(users: seq<User>, id: int): (b: bool)
    ensures b <==> exists u :: u in users && u.id == id
  {
    var r := FirstUserWithId(users, id);
    assert r.Some? ==> r.value in users;
    r.Some?
  }

  /** The first user, in iteration order, called `name`. */
  function FirstUserNamed(users: seq<User>, name: string): (r: Option<User>)
    reads set u | u in users
    ensures r.Some? <==> exists i :: 0 <= i < |users| && users[i].name == name
    ensures r.Some? ==> r.value in users && r.value.name == name
    decreases |users|
  {
    if users == [] then None
    else if users[0].name == name then Some(users[0])
    else
      assert forall i :: 1 <= i < |users| ==> users[i] == users[1..][i - 1];
      FirstUserNamed(users[1..], name)
  }
}
