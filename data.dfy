/** The user table the registration handler reads and writes through its
    database context: committed rows, rows staged by AddAsync, and a ghost log
    of the context operations in the order they happen. */
module Data {
  import opened Wrappers

  /** A row of the Users table (the store-generated key column is not modelled). */
  datatype User = User(UserName: string, Email: string, PasswordHash: string)

  /** The table's unique constraint: no two rows share a user name. */
  predicate UniqueUserNames(users: seq<User>) {
    forall i, j :: 0 <= i < j < |users| ==> users[i].UserName != users[j].UserName
  }

  predicate HasUserName(users: seq<User>, name: string) {
    exists i :: 0 <= i < |users| && users[i].UserName == name
  }

  /** The position of the first row whose UserName equals name exactly. */
  function FirstIndexWithUserName(users: seq<User>, name: string): (r: Option<nat>)
    ensures r.None? <==> !HasUserName(users, name)
    ensures r.Some? ==> r.value < |users| && users[r.value].UserName == name &&
                        forall j :: 0 <= j < r.value ==> users[j].UserName != name
  {
    if users == [] then None
    else if users[0].UserName == name then Some(0)
    else match FirstIndexWithUserName(users[1..], name)
      case None => None
      case Some(k) => Some(k + 1)
  }

  /** Users.FirstOrDefaultAsync(u => u.UserName == name), read as a plain query. */
  function FirstOrDefault(users: seq<User>, name: string): (r: Option<User>)
    ensures r.None? <==> !HasUserName(users, name)
    ensures r.Some? ==> r.value in users && r.value.UserName == name
  {
    match FirstIndexWithUserName(users, name)
    case None => None
    case Some(i) => Some(users[i])
  }

  /** In a table that keeps its unique constraint, looking a row's name up
      returns that very row. */
  lemma LookupFindsTheRow(users: seq<User>, i: nat)
    requires UniqueUserNames(users)
    requires i < |users|
    ensures FirstOrDefault(users, users[i].UserName) == Some(users[i])
  {
    assert HasUserName(users, users[i].UserName);
  }

  /** Appending a row whose name is not yet taken keeps the unique constraint. */
  lemma AppendFreshNameKeepsUnique(users: seq<User>, u: User)
    requires UniqueUserNames(users)
    requires !HasUserName(users, u.UserName)
    ensures UniqueUserNames(users + [u])
  {
    var t := users + [u];
    forall i, j | 0 <= i < j < |t| ensures t[i].UserName != t[j].UserName {
      if j == |users| {
        assert t[i] == users[i];
      } else {
        assert t[i] == users[i] && t[j] == users[j];
      }
    }
  }

  /** One operation on the context, as the handler issues them. Query and
      Commit reach the database; Stage only starts tracking the row in the
      context and is no round trip to the store. */
  datatype Operation = Query(userName: string) | Stage(user: User) | Commit

  /** The database context, reduced to its Users collection. */
  class MiniTwitContext {
    var Users: seq<User>
    var Staged: seq<User>
    ghost var Log: seq<Operation>

    /** Between requests nothing is staged and the unique constraint holds. */
    ghost predicate Valid()
      reads this
    {
      Staged == [] && UniqueUserNames(Users)
    }

    constructor (users: seq<User>)
      requires UniqueUserNames(users)
      ensures Valid() && Users == users && Log == []
    {
      Users := users;
      Staged := [];
      Log := [];
    }

    /** FirstOrDefaultAsync on Users: reads the committed rows only. */
    method FirstOrDefaultAsync(name: string) returns (user: Option<User>)
      modifies this`Log
      ensures user == FirstOrDefault(Users, name)
      ensures Log == old(Log) + [Query(name)]
    {
      user := FirstOrDefault(Users, name);
      Log := Log + [Query(name)];
    }

    /** AddAsync: stages a row; nothing is written until SaveChangesAsync. */
    method AddAsync(user: User)
      modifies this`Staged, this`Log
      ensures Staged == old(Staged) + [user]
      ensures Log == old(Log) + [Stage(user)]
    {
      Staged := Staged + [user];
      Log := Log + [Stage(user)];
    }

    /** SaveChangesAsync: commits the staged rows in the order they were added. */
    method SaveChangesAsync()
      modifies this`Users, this`Staged, this`Log
      ensures Users == old(Users) + old(Staged) && Staged == []
      ensures Log == old(Log) + [Commit]
    {
      Users := Users + Staged;
      Staged := [];
      Log := Log + [Commit];
    }
  }
}
