/**
 * The user repository of tnt-server/src/repo/user.rs: one validated insert into the user
 * space, whose ids come from the space's auto-increment sequence and whose names are unique.
 */
module UserRepo {
  import opened Base
  import opened Engine

  datatype User = User(id: U32, name: string)

  /** A field of a stored user tuple: the unsigned key or the name. */
  datatype Field = Unsigned(n: U32) | Text(s: string)

  /** The tuple the space stores (and the insert returns) for a user. */
  function Tuple(u: User): seq<Field>
  {
    [Unsigned(u.id), Text(u.name)]
  }

  /**
   * Field 0 reads as an id and field 1 as a name wherever they exist: reading a field of
   * another type fails to decode, which the source does not handle.
   */
  predicate Decodable(t: seq<Field>)
  {
    (|t| > 0 ==> t[0].Unsigned?) && (|t| > 1 ==> t[1].Text?)
  }

  /**
   * The user read from the tuple an insert returns: field 0 is the id, field 1 the name, and
   * a missing field is reported by name, the id first.
   */
  function UserFromTuple(t: seq<Field>): (r: Result<User, RepoErr>)
    requires Decodable(t)
    ensures r.Ok? <==> |t| >= 2
    ensures r.Err? ==> r.error == FieldNotExsist(if t == [] then "id" else "name")
    ensures r.Ok? ==> Tuple(r.value) == t[..2]
  {
    if |t| == 0 then Err(FieldNotExsist("id"))
    else if |t| == 1 then Err(FieldNotExsist("name"))
    else Ok(User(t[0].n, t[1].s))
  }

  /** Reading back the tuple stored for a user gives that user. */
  lemma ReadBack(u: User)
    ensures UserFromTuple(Tuple(u)) == Ok(u)
  {
  }

  /** Fields after the first two are not read. */
  lemma ExtraFieldsIgnored(t: seq<Field>, more: seq<Field>)
    requires Decodable(t) && |t| >= 2
    ensures Decodable(t + more) && UserFromTuple(t + more) == UserFromTuple(t)
  {
    assert (t + more)[..2] == t[..2];
  }

  /** Whether a user already holds `name`: the space's unique name index refuses a second. */
  predicate NameTaken(users: seq<User>, name: string)
  {
    exists i :: 0 <= i < |users| && users[i].name == name
  }

  class UserSpace {
    /** The rows of the user space in primary-key order. */
    var users: seq<User>
    /** The next value of the space's auto-increment sequence. */
    var nextId: nat

    /** Keys ascend and were handed out by the sequence; names are unique. */
    ghost predicate Valid()
      reads this
    {
      nextId <= MaxU32 + 1 &&
      (forall i :: 0 <= i < |users| ==> users[i].id < nextId) &&
      (forall i, j :: 0 <= i < j < |users| ==> users[i].id < users[j].id) &&
      (forall i, j :: 0 <= i < j < |users| ==> users[i].name != users[j].name)
    }

    /** An empty space whose sequence starts at 1. */
    constructor ()
      ensures Valid() && users == [] && nextId == 1
    {
      users := [];
      nextId := 1;
    }

    /**
     * create_user: an empty name is refused before the space is touched; otherwise one insert
     * (request 0) with an engine-assigned id, which a used name, an engine failure or an
     * exhausted u32 sequence makes fail; the user is then read from the inserted tuple.
     */
    method CreateUser(name: string, f: Fault) returns (r: Result<User, RepoErr>)
      requires Valid()
      modifies this
      ensures r == Err(EmptyUserName) <==> name == ""
      ensures r.Ok? <==>
        name != "" && !Rejects(f, 0) && !NameTaken(old(users), name) && old(nextId) <= MaxU32
      ensures r.Err? ==> r.error in {EmptyUserName, EngineError} && unchanged(this)
      ensures r.Ok? ==>
        r.value == User(old(nextId), name) &&
        users == old(users) + [r.value] && nextId == old(nextId) + 1
      ensures Valid()
    {
      if name == "" {
        return Err(EmptyUserName);
      }
      if Rejects(f, 0) || NameTaken(users, name) || nextId > MaxU32 {
        return Err(EngineError);
      }
      var user := User(nextId, name);
      users := users + [user];
      nextId := nextId + 1;
      var inserted := Tuple(user);
      r := UserFromTuple(inserted);
    }
  }

  /**
   * A name can be registered once: creating a user with a fresh name succeeds and returns
   * that name, and creating another with the same name fails.
   */
  method SameNameTwice(name: string) returns (first: Result<User, RepoErr>, second: Result<User, RepoErr>)
    requires name != ""
    ensures first.Ok? && first.value.name == name
    ensures second == Err(EngineError)
  {
    var space := new UserSpace();
    first := space.CreateUser(name, NoFault);
    assert space.users[0].name == name;
    second := space.CreateUser(name, NoFault);
  }
}
