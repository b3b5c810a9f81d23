/** `getUserCount` as written, where `$users` is PHP null until the first
    record is stored in it. With a WordPress query that returns no rows,
    `cacheAllUsers` leaves it null, and `count(null)` raises a TypeError
    in PHP 8 instead of giving 0. The plugin class starts its cache as an
    empty array instead, and counts 0 there. */
module NullUsers {
  import opened Records
  import UserCache
  import AuthWordPress

  /** `$users` as PHP holds it: `None` is null. */
  type PhpUsers = Option<UserCache.Store>

  datatype CountResult = Counted(n: nat) | TypeError

  /** PHP 8 `count($value)` on the users array. */
  function PhpCount(users: PhpUsers): CountResult
  {
    match users
    case None => TypeError
    case Some(s) => Counted(|s.users|)
  }

  /** `cacheAllUsers` on a fresh object, as written: the array comes into
      being only when `cacheUser` stores the first row. */
  function LoadFreshAsWritten(rows: seq<Row>, conf: Config, keys: CapabilityKeys): PhpUsers
  {
    if rows == [] then None
    else
      Some(UserCache.RememberRows(UserCache.Empty, rows, conf, keys))
  }

  /** `getUserCount()` with no criteria on a fresh object, as written. */
  function CountAllAsWritten(rows: seq<Row>, conf: Config, keys: CapabilityKeys): CountResult
  {
    PhpCount(LoadFreshAsWritten(rows, conf, keys))
  }

  /** On a WordPress query with no rows the count as written fails. */
  lemma EmptyTableCountFails(conf: Config, keys: CapabilityKeys)
    ensures CountAllAsWritten([], conf, keys) == TypeError
  {
  }

  /** With at least one row the array exists and the count is its size. */
  lemma NonEmptyTableCounts(rows: seq<Row>, conf: Config, keys: CapabilityKeys)
    requires rows != []
    ensures CountAllAsWritten(rows, conf, keys) ==
            Counted(|UserCache.RememberRows(UserCache.Empty, rows, conf, keys).users|)
  {
  }

  /** The plugin class on the same query: a fresh object counts 0 users. */
  method EmptyTableCountsZero(conf: Config, db: AuthWordPress.Database, rt: AuthWordPress.Runtime)
    returns (n: nat)
    requires db.fetchAll(AuthWordPress.UserDataSql(conf.prefix)) == []
    ensures n == 0
  {
    var plugin := new AuthWordPress.AuthPlugin(conf, db, rt, true);
    n := plugin.GetUserCount([]);
  }
}
