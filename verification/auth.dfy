/** The DokuWiki auth plugin that reads users from a WordPress database:
    password checks, the user cache, and the filtered bulk listing. The
    database, PHP's `unserialize`, PCRE and the password hashers are given
    to the plugin as functions. */
module AuthWordPress {
  import opened Records
  import opened PhpStrings
  import UserCache
  import Password
  import Filter
  import Paging

  /** What executing the single-user statement and fetching one row gives. */
  datatype QueryResult = ExecuteFailed | NoRow | Fetched(row: Row)

  /** The WordPress database seen through the PDO connection. */
  datatype Database = Database(
    selectUser: (string, string) -> QueryResult, // (statement, value bound to :user)
    fetchAll: string -> seq<Row>                  // rows of a statement without parameters
  )

  /** The library calls the plugin makes. */
  datatype Runtime = Runtime(
    capabilityKeys: CapabilityKeys,   // array_keys(unserialize($blob))
    pregMatch: Filter.Matcher,        // preg_match, also used by preg_grep
    hasher: Password.Hasher
  )

  // The user query, cut at its three `%prefix%` placeholders, each part
  // written as short pieces so that the verifier can scan them for `%`.
  const SqlHead :=
    "SELECT\n" + "            " + "id, user_login, " + "user_pass, " + "user_email, " + "display_name,\n"
    + "            " + "meta_value AS grps\n" + "        FROM "
  const SqlUsers := "users u\n        JOIN "
  const SqlUsermeta := "usermeta m ON " + "u.id = m.user_id " + "AND meta_key = '"
  const SqlCapabilities := "capabilities'"
  const Placeholder := "%prefix%"

  lemma SqlHeadHasNoPercent()
    ensures '%' !in SqlHead
  {
    assert '%' !in "SELECT\n" && '%' !in "            " && '%' !in "id, user_login, ";
    assert '%' !in "user_pass, " && '%' !in "user_email, " && '%' !in "display_name,\n";
    assert '%' !in "meta_value AS grps\n" && '%' !in "        FROM ";
  }

  lemma SqlTailHasNoPercent()
    ensures '%' !in SqlUsers && '%' !in SqlUsermeta && '%' !in SqlCapabilities
  {
    assert '%' !in "usermeta m ON " && '%' !in "u.id = m.user_id " && '%' !in "AND meta_key = '";
  }

  /** One placeholder substituted: text free of the placeholder's first
      character is copied, then the placeholder is replaced. */
  lemma SubstituteOne(a: string, t: string, p: string, prefix: string)
    requires p != [] && p[0] !in a
    ensures ReplaceAll(a + (p + t), p, prefix) == a + (prefix + ReplaceAll(t, p, prefix))
  {
    ReplaceAllSkips(a, p + t, p, prefix);
    ReplaceAllFront(t, p, prefix);
  }

  /** Substituting a prefix into a query whose text between the
      placeholders holds no `%`. */
  lemma SubstitutePrefix(head: string, users: string, usermeta: string, caps: string, p: string, prefix: string)
    requires p != [] && p[0] !in head && p[0] !in users && p[0] !in usermeta && p[0] !in caps
    ensures ReplaceAll(head + (p + (users + (p + (usermeta + (p + caps))))), p, prefix)
            == head + (prefix + (users + (prefix + (usermeta + (prefix + caps)))))
  {
    SubstituteOne(head, users + (p + (usermeta + (p + caps))), p, prefix);
    SubstituteOne(users, usermeta + (p + caps), p, prefix);
    SubstituteOne(usermeta, caps, p, prefix);
    ReplaceAllSkips(caps, [], p, prefix);
    assert caps + [] == caps;
  }

  /** The user query as declared, before the prefix is substituted. */
  const SqlTemplate := SqlHead + (Placeholder + (SqlUsers + (Placeholder + (SqlUsermeta + (Placeholder + SqlCapabilities)))))

  /** Appended to the user query to look up one login. */
  const WhereLogin := "WHERE user_login = :user"

  /** The constructor's `str_replace('%prefix%', $prefix, ...)`: the table
      prefix lands in front of `users`, `usermeta` and `capabilities`, and
      nowhere else; a prefix that itself holds `%prefix%` is not expanded
      again. */
  function UserDataSql(prefix: string): (sql: string)
    ensures sql == SqlHead + (prefix + (SqlUsers + (prefix + (SqlUsermeta + (prefix + SqlCapabilities)))))
  {
    SqlHeadHasNoPercent();
    SqlTailHasNoPercent();
    SubstitutePrefix(SqlHead, SqlUsers, SqlUsermeta, SqlCapabilities, Placeholder, prefix);
    ReplaceAll(SqlTemplate, Placeholder, prefix)
  }

  /** The plugin object. `users` and `order` together are the PHP array
      `$users`: its entries and the order `foreach` visits them in. After a
      failed connection the PDO handle stays null and any method that
      reaches the database raises an `Error`, so those methods require
      `success`. */
  class AuthPlugin {
    const conf: Config
    const db: Database
    const rt: Runtime

    var success: bool
    var sqlUserData: string
    var users: map<string, UserInfo>
    var order: seq<string>
    var usersCached: bool
    var filter: Filter.Patterns

    /** Every statement sent to the database, in order. */
    ghost var queries: seq<string>

    function Store(): UserCache.Store
      reads this`order, this`users
    {
      UserCache.Store(order, users)
    }

    ghost predicate Valid()
      reads this`order, this`users
    {
      UserCache.Valid(Store())
    }

    /** The cached records in `foreach` order. */
    function Entries(): seq<UserInfo>
      reads this`order, this`users
      requires Valid()
    {
      UserCache.Entries(Store())
    }

    /** The statement `getUserData` prepares. */
    function UserSql(): string
      reads this`sqlUserData
    {
      sqlUserData + WhereLogin
    }

    /** What `getUserData($user)` returns in the current state. */
    function Fetch(user: string): Option<UserInfo>
      reads this`order, this`users, this`sqlUserData
    {
      if user in users then Some(users[user])
      else match db.selectUser(UserSql(), user)
        case Fetched(row) =>
          var info := ToUserInfo(row, conf, rt.capabilityKeys);
          Some(UserCache.Remember(Store(), info).users[info.user])
        case _ => None
    }

    /** The cache after `getUserData($user)`. */
    function StoreAfterFetch(user: string): UserCache.Store
      reads this`order, this`users, this`sqlUserData
    {
      if user in users then Store()
      else match db.selectUser(UserSql(), user)
        case Fetched(row) => UserCache.Remember(Store(), ToUserInfo(row, conf, rt.capabilityKeys))
        case _ => Store()
    }

    /** The cache after `cacheAllUsers()`. */
    function StoreAfterLoad(): UserCache.Store
      reads this`order, this`users, this`usersCached, this`sqlUserData
    {
      if usersCached then Store()
      else UserCache.RememberRows(Store(), db.fetchAll(sqlUserData), conf, rt.capabilityKeys)
    }

    /** The constructor. `connected` says whether opening the database
        connection succeeded; when it did not, the plugin is unusable and
        the query keeps its placeholders. */
    constructor (conf: Config, db: Database, rt: Runtime, connected: bool)
      ensures this.conf == conf && this.db == db && this.rt == rt
      ensures success == connected
      ensures sqlUserData == if connected then UserDataSql(conf.prefix) else SqlTemplate
      ensures Store() == UserCache.Empty && !usersCached && filter == [] && queries == []
      ensures Valid()
    {
      this.conf := conf;
      this.db := db;
      this.rt := rt;
      users := map[];
      order := [];
      usersCached := false;
      filter := [];
      queries := [];
      sqlUserData := SqlTemplate;
      if !connected {
        success := false;
      } else {
        sqlUserData := ReplaceAll(SqlTemplate, Placeholder, conf.prefix);
        success := true;
      }
    }

    /** `checkPass`: an unknown user, or a failed lookup, is rejected;
        otherwise the answer is that of the hasher the stored hash selects. */
    method CheckPass(user: string, pass: string) returns (ok: bool)
      requires Valid()
      requires success
      modifies this`users, this`order, this`queries
      ensures Valid()
      ensures ok == match old(Fetch(user))
                    case None => false
                    case Some(info) => Password.Verify(pass, info.pass, rt.hasher)
      ensures Store() == old(StoreAfterFetch(user))
      ensures queries == if user in old(users) then old(queries) else old(queries) + [UserSql()]
    {
      var data := GetUserData(user);
      if data.None? {
        return false;
      }
      var stored := data.value.pass;
      Password.VerifyDispatch(pass, stored, rt.hasher);
      if StartsWith(stored, Password.ModernMarker) {
        var candidate := rt.hasher.base64Encode(rt.hasher.hmacSha384(pass, Password.HmacKey));
        ok := rt.hasher.passwordVerify(candidate, stored[3..]);
      } else {
        ok := rt.hasher.checkPassword(Password.PhpassIterationCountLog2, Password.PhpassPortableHashes,
                                      AddSlashes(pass), stored);
      }
    }

    /** `getUserData`: a cached login is answered from the cache without a
        query; otherwise the row is looked up, and a failed query or a
        missing row gives nothing and leaves the cache as it was. */
    method GetUserData(user: string) returns (r: Option<UserInfo>)
      requires Valid()
      requires success
      modifies this`users, this`order, this`queries
      ensures Valid()
      ensures r == old(Fetch(user))
      ensures Store() == old(StoreAfterFetch(user))
      ensures user in old(users) ==> users == old(users) && order == old(order) && queries == old(queries)
      ensures user !in old(users) ==> queries == old(queries) + [UserSql()]
      ensures user !in old(users) && !db.selectUser(UserSql(), user).Fetched? ==>
                r == None && users == old(users) && order == old(order)
    {
      if user in users {
        return Some(users[user]);
      }
      var sql := sqlUserData + WhereLogin;
      queries := queries + [sql];
      var result := db.selectUser(sql, user);
      match result {
        case ExecuteFailed =>
          return None;
        case NoRow =>
          return None;
        case Fetched(row) =>
          var info := CacheUser(row);
          return Some(info);
      }
    }

    /** `cacheUser`: a login already cached keeps its record, which is
        returned; otherwise exactly one entry, keyed by the row's login, is
        added and every other entry stays as it was. */
    method CacheUser(row: Row) returns (info: UserInfo)
      requires Valid()
      modifies this`users, this`order
      ensures Valid()
      ensures Store() == UserCache.Remember(old(Store()), ToUserInfo(row, conf, rt.capabilityKeys))
      ensures row.userLogin in old(users) ==>
                info == old(users[row.userLogin]) && users == old(users) && order == old(order)
      ensures row.userLogin !in old(users) ==>
                && info == ToUserInfo(row, conf, rt.capabilityKeys)
                && users == old(users)[row.userLogin := info]
                && order == old(order) + [row.userLogin]
    {
      var login := row.userLogin;
      if login in users {
        return users[login];
      }
      var groups := rt.capabilityKeys(row.grps);
      if conf.useDefaultGroup {
        groups := groups + [conf.defaultGroup];
      }
      info := UserInfo(login, row.displayName, row.userPass, row.userEmail, groups);
      assert groups == Groups(row.grps, conf, rt.capabilityKeys);
      UserCache.RememberKeepsValid(Store(), info);
      users := users[login := info];
      order := order + [login];
    }

    /** `cacheAllUsers`: loads every row once; once `usersCached` is set it
        issues no query and changes nothing. */
    method CacheAllUsers()
      requires Valid()
      requires success
      modifies this`users, this`order, this`usersCached, this`queries
      ensures Valid() && usersCached
      ensures Store() == old(StoreAfterLoad())
      ensures queries == if old(usersCached) then old(queries) else old(queries) + [sqlUserData]
    {
      if usersCached {
        return;
      }
      ghost var before := Store();
      queries := queries + [sqlUserData];
      var rows := db.fetchAll(sqlUserData);
      for j := 0 to |rows|
        invariant Valid()
        invariant Store() == UserCache.RememberRows(before, rows[..j], conf, rt.capabilityKeys)
        invariant queries == old(queries) + [sqlUserData]
      {
        UserCache.RememberRowsSnoc(before, rows, j, conf, rt.capabilityKeys);
        var info := CacheUser(rows[j]);
      }
      assert rows[..|rows|] == rows;
      usersCached := true;
    }

    /** `setFilter`: the earlier filter is discarded, and each criterion
        becomes a pattern under the same field name, in the same order. */
    method SetFilter(criteria: seq<(string, string)>)
      modifies this`filter
      ensures filter == Filter.Compile(criteria)
    {
      filter := [];
      for j := 0 to |criteria|
        invariant |filter| == j
        invariant forall i :: 0 <= i < j ==> filter[i] == (criteria[i].0, Filter.ToPattern(criteria[i].1))
      {
        filter := filter + [(criteria[j].0, Filter.ToPattern(criteria[j].1))];
      }
    }

    /** `retrieveUsers`: loads all users, installs the filter, and returns
        the page of the filtered users that `start` and `limit` select. */
    method RetrieveUsers(start: int, limit: int, criteria: seq<(string, string)>) returns (list: seq<UserInfo>)
      requires Valid()
      requires success
      modifies this`users, this`order, this`usersCached, this`queries, this`filter
      ensures Valid() && usersCached
      ensures Store() == old(StoreAfterLoad())
      ensures queries == if old(usersCached) then old(queries) else old(queries) + [sqlUserData]
      ensures filter == Filter.Compile(criteria)
      ensures list == Paging.Window(Filter.Select(Entries(), filter, rt.pregMatch), start, limit)
      ensures criteria == [] ==> list == Paging.Window(Entries(), start, limit)
    {
      CacheAllUsers();
      list := PageLoaded(start, limit, criteria);
    }

    /** `retrieveUsers` once the users are loaded. */
    method PageLoaded(start: int, limit: int, criteria: seq<(string, string)>) returns (list: seq<UserInfo>)
      requires Valid()
      modifies this`filter
      ensures filter == Filter.Compile(criteria)
      ensures list == Paging.Window(Filter.Select(Entries(), filter, rt.pregMatch), start, limit)
      ensures criteria == [] ==> list == Paging.Window(Entries(), start, limit)
    {
      SetFilter(criteria);
      list := Page(Entries(), filter, rt.pregMatch, start, limit);
      if criteria == [] {
        Filter.SelectNoFilter(Entries(), rt.pregMatch);
      }
    }

    /** `getUserCount`: loads all users; with no criteria the count is the
        size of the cache, otherwise the number of cached users the
        criteria accept. */
    method GetUserCount(criteria: seq<(string, string)>) returns (count: nat)
      requires Valid()
      requires success
      modifies this`users, this`order, this`usersCached, this`queries, this`filter
      ensures Valid() && usersCached
      ensures Store() == old(StoreAfterLoad())
      ensures queries == if old(usersCached) then old(queries) else old(queries) + [sqlUserData]
      ensures filter == if criteria == [] then old(filter) else Filter.Compile(criteria)
      ensures count == |Filter.Select(Entries(), Filter.Compile(criteria), rt.pregMatch)|
      ensures count <= |users| && (criteria == [] ==> count == |users|)
    {
      CacheAllUsers();
      count := CountLoaded(criteria);
    }

    /** `getUserCount` once the users are loaded: with no criteria the
        filter is left alone and the size of the cache is returned. */
    method CountLoaded(criteria: seq<(string, string)>) returns (count: nat)
      requires Valid()
      modifies this`filter
      ensures filter == if criteria == [] then old(filter) else Filter.Compile(criteria)
      ensures count == |Filter.Select(Entries(), Filter.Compile(criteria), rt.pregMatch)|
      ensures count <= |users| && (criteria == [] ==> count == |users|)
    {
      if criteria == [] {
        count := |users|;
        Filter.SelectNoFilter(Entries(), rt.pregMatch);
        assert Filter.Compile(criteria) == [];
      } else {
        SetFilter(criteria);
        count := CountAccepted(Entries(), filter, rt.pregMatch);
      }
      Filter.SelectSound(Entries(), Filter.Compile(criteria), rt.pregMatch);
    }

  }

  /** Two bulk loads in a row send the full query at most once. */
  method LoadTwice(p: AuthPlugin)
    requires p.Valid() && p.success
    modifies p`users, p`order, p`usersCached, p`queries
    ensures p.Valid() && p.usersCached
    ensures |p.queries| <= |old(p.queries)| + 1
    ensures p.Store() == old(p.StoreAfterLoad())
  {
    p.CacheAllUsers();
    p.CacheAllUsers();
  }

  /** The loop of `retrieveUsers`: walks the users in order, counts those
      the filter accepts, keeps them from position `start` on, and stops
      once `limit` are kept. */
  method Page(es: seq<UserInfo>, filter: Filter.Patterns, m: Filter.Matcher, start: int, limit: int)
    returns (list: seq<UserInfo>)
    ensures list == Paging.Window(Filter.Select(es, filter, m), start, limit)
  {
    ghost var all := Filter.Select(es, filter, m);
    ghost var seen: seq<UserInfo> := [];  // the accepted users so far
    list := [];
    var count, i := 0, 0;
    var k := 0;
    while k < |es|
      invariant 0 <= k <= |es|
      invariant seen == Filter.Select(es[..k], filter, m)
      invariant i == |seen| && list == seen[Paging.Skipped(i, start)..]
      invariant count == |list|
      invariant limit > 0 ==> count < limit
    {
      var info := es[k];
      Filter.SelectSnoc(es, k, filter, m);
      if Filter.ApplyFilter(filter, info, m) {
        Paging.TailStep(seen, info, start);
        seen := seen + [info];
        if i >= start {
          list := list + [info];
          count := count + 1;
          if limit > 0 && count >= limit {
            Filter.SelectPrefix(es, k + 1, filter, m);
            Paging.TailOfPrefixIsWindow(all, seen, start, limit);
            break;
          }
        }
        i := i + 1;
      }
      k := k + 1;
    }
    if k == |es| {
      assert es[..k] == es;
      Paging.ShortTailIsWindow(all, start, limit);
    }
  }

  /** The loop of `getUserCount`: the number of users the filter accepts. */
  method CountAccepted(es: seq<UserInfo>, filter: Filter.Patterns, m: Filter.Matcher) returns (count: nat)
    ensures count == |Filter.Select(es, filter, m)|
  {
    count := 0;
    for k := 0 to |es|
      invariant count == |Filter.Select(es[..k], filter, m)|
    {
      Filter.SelectSnoc(es, k, filter, m);
      count := count + if Filter.ApplyFilter(filter, es[k], m) then 1 else 0;
    }
    assert es[..|es|] == es;
  }
}
