/**
 * The in-memory `User` of src/user.class.ts: every construction takes its id
 * from the class-wide counter and stamps both dates with the current time.
 */
module UserClass {
  import opened Ids

  class User {
    var id: int
    var firstname: string
    var lastname: string
    var email: string
    var password: string
    var isAdmin: bool
    /** `new Date()`, as milliseconds since the epoch; the clock is the parameter `now`. */
    var createdAt: int
    var updatedAt: int

    /** `new User(firstname, lastname, email, password, isAdmin = false)`. */
    constructor(ids: Counter, now: int, firstname: string, lastname: string,
                email: string, password: string, isAdmin: bool := false)
      modifies ids
      ensures id == old(ids.nextId) && ids.nextId == old(ids.nextId) + 1
      ensures this.firstname == firstname && this.lastname == lastname
      ensures this.email == email && this.password == password
      ensures this.isAdmin == isAdmin
      ensures createdAt == now && updatedAt == now
    {
      var issued := ids.Take();
      id := issued;
      this.firstname := firstname;
      this.lastname := lastname;
      this.email := email;
      this.password := password;
      this.isAdmin := isAdmin;
      createdAt := now;
      updatedAt := now;
    }
  }

  /** The four string arguments of one construction. */
  datatype Names = Names(firstname: string, lastname: string, email: string, password: string)

  /**
   * Constructs one user per entry, in order, leaving `isAdmin` to its default:
   * the ids are consecutive from the counter's value, hence distinct and
   * strictly increasing in construction order, and every user is not an admin.
   */
  method ConstructAll(ids: Counter, now: int, entries: seq<Names>) returns (users: seq<User>)
    modifies ids
    ensures |users| == |entries|
    ensures ids.nextId == old(ids.nextId) + |entries|
    ensures forall i :: 0 <= i < |users| ==> users[i].id == old(ids.nextId) + i
    ensures forall i, j :: 0 <= i < j < |users| ==> users[i].id < users[j].id
    ensures forall i :: 0 <= i < |users| ==>
      && users[i].firstname == entries[i].firstname && users[i].lastname == entries[i].lastname
      && users[i].email == entries[i].email && users[i].password == entries[i].password
      && !users[i].isAdmin
    ensures forall i :: 0 <= i < |users| ==> fresh(users[i])
  {
    users := [];
    var k := 0;
    while k < |entries|
      invariant 0 <= k <= |entries| && |users| == k
      invariant ids.nextId == old(ids.nextId) + k
      invariant forall i :: 0 <= i < k ==> users[i].id == old(ids.nextId) + i
      invariant forall i :: 0 <= i < k ==>
        && users[i].firstname == entries[i].firstname && users[i].lastname == entries[i].lastname
        && users[i].email == entries[i].email && users[i].password == entries[i].password
        && !users[i].isAdmin
      invariant forall i :: 0 <= i < k ==> fresh(users[i])
    {
      var e := entries[k];
      var u := new User(ids, now, e.firstname, e.lastname, e.email, e.password);
      users := users + [u];
      k := k + 1;
    }
  }
}
