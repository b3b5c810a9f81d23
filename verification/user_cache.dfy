/** The plugin's user cache as a value: a PHP array keyed by login, kept
    in insertion order, to which `cacheUser` writes each login at most once. */
module UserCache {
  import opened Records

  /** `order` lists the keys of `users` in the order they were inserted,
      which is the order `foreach` visits them. */
  datatype Store = Store(order: seq<string>, users: map<string, UserInfo>)

  const Empty := Store([], map[])

  /** The shape every reachable cache has: each login listed once, the
      listed logins are exactly the keys, and each entry's `user` field is
      its own key. */
  ghost predicate Valid(s: Store)
  {
    && (forall i, j :: 0 <= i < j < |s.order| ==> s.order[i] != s.order[j])
    && (forall l :: l in s.users <==> l in s.order)
    && (forall l :: l in s.users ==> s.users[l].user == l)
  }

  /** The cached records in insertion order. */
  function Entries(s: Store): (es: seq<UserInfo>)
    requires Valid(s)
    ensures |es| == |s.order| == |s.users|
    ensures forall i :: 0 <= i < |es| ==> es[i] == s.users[s.order[i]] && es[i].user == s.order[i]
  {
    DistinctSize(s.order, s.users.Keys);
    seq(|s.order|, i requires 0 <= i < |s.order| => s.users[s.order[i]])
  }

  /** A sequence of distinct elements is as long as the set of its elements. */
  lemma {:induction false} DistinctSize(xs: seq<string>, keys: set<string>)
    requires forall i, j :: 0 <= i < j < |xs| ==> xs[i] != xs[j]
    requires forall x :: x in keys <==> x in xs
    ensures |xs| == |keys|
  {
    if xs != [] {
      var last := xs[|xs| - 1];
      var init := xs[..|xs| - 1];
      assert last !in init by {
        forall i | 0 <= i < |init| ensures init[i] != last {
          assert init[i] == xs[i];
        }
      }
      forall x ensures x in keys - {last} <==> x in init {
        if x in xs && x != last {
          var i :| 0 <= i < |xs| && xs[i] == x;
          assert i < |xs| - 1 && init[i] == x;
        }
      }
      DistinctSize(init, keys - {last});
    }
  }

  /** `cacheUser`'s write: a login already present keeps its record,
      otherwise the record is appended under its login. */
  function Remember(s: Store, info: UserInfo): (r: Store)
    ensures info.user in r.users
    ensures r.users.Keys == s.users.Keys + {info.user}
    ensures forall l :: l in s.users ==> r.users[l] == s.users[l]
    ensures info.user !in s.users ==> r.users[info.user] == info && r.order == s.order + [info.user]
    ensures info.user in s.users ==> r == s
  {
    if info.user in s.users then s
    else Store(s.order + [info.user], s.users[info.user := info])
  }

  /** One write keeps the cache's shape. */
  lemma RememberKeepsValid(s: Store, info: UserInfo)
    requires Valid(s)
    ensures Valid(Remember(s, info))
  {
  }

  /** The set of logins of some rows. */
  function Logins(rows: seq<Row>): (ls: set<string>)
    ensures forall i :: 0 <= i < |rows| ==> rows[i].userLogin in ls
    ensures forall l :: l in ls ==> exists i :: 0 <= i < |rows| && rows[i].userLogin == l
  {
    set i | 0 <= i < |rows| :: rows[i].userLogin
  }

  /** `cacheAllUsers`' loop: every row is passed to `cacheUser` in turn. */
  function RememberRows(s: Store, rows: seq<Row>, conf: Config, keys: CapabilityKeys): Store
    decreases |rows|
  {
    if rows == [] then s
    else Remember(RememberRows(s, rows[..|rows| - 1], conf, keys), ToUserInfo(rows[|rows| - 1], conf, keys))
  }

  /** The logins of some rows and one more. */
  lemma LoginsSnoc(rows: seq<Row>)
    requires rows != []
    ensures Logins(rows) == Logins(rows[..|rows| - 1]) + {rows[|rows| - 1].userLogin}
  {
    var init := rows[..|rows| - 1];
    forall l | l in Logins(rows) ensures l in Logins(init) + {rows[|rows| - 1].userLogin} {
      var i :| 0 <= i < |rows| && rows[i].userLogin == l;
      if i < |rows| - 1 { assert init[i] == rows[i]; }
    }
    forall l | l in Logins(init) ensures l in Logins(rows) {
      var i :| 0 <= i < |init| && init[i].userLogin == l;
      assert rows[i] == init[i];
    }
  }

  /** Loading rows adds exactly their logins and keeps every entry that
      was there. */
  lemma {:induction false} RememberRowsGrows(s: Store, rows: seq<Row>, conf: Config, keys: CapabilityKeys)
    ensures var r := RememberRows(s, rows, conf, keys);
      && r.users.Keys == s.users.Keys + Logins(rows)
      && (forall l :: l in s.users ==> r.users[l] == s.users[l])
    decreases |rows|
  {
    if rows != [] {
      RememberRowsGrows(s, rows[..|rows| - 1], conf, keys);
      LoginsSnoc(rows);
    }
  }

  /** Loading rows only appends to the order. */
  lemma {:induction false} RememberRowsAppends(s: Store, rows: seq<Row>, conf: Config, keys: CapabilityKeys)
    ensures var r := RememberRows(s, rows, conf, keys);
      |s.order| <= |r.order| && r.order[..|s.order|] == s.order
    decreases |rows|
  {
    if rows != [] {
      var init := rows[..|rows| - 1];
      RememberRowsAppends(s, init, conf, keys);
      var prev := RememberRows(s, init, conf, keys);
      var r := Remember(prev, ToUserInfo(rows[|rows| - 1], conf, keys));
      assert r.order[..|prev.order|] == prev.order;
      assert r.order[..|s.order|] == r.order[..|prev.order|][..|s.order|];
    }
  }

  /** Loading rows keeps the cache's shape. */
  lemma {:induction false} RememberRowsKeepsValid(s: Store, rows: seq<Row>, conf: Config, keys: CapabilityKeys)
    requires Valid(s)
    ensures Valid(RememberRows(s, rows, conf, keys))
    decreases |rows|
  {
    if rows != [] {
      var init := rows[..|rows| - 1];
      RememberRowsKeepsValid(s, init, conf, keys);
      RememberKeepsValid(RememberRows(s, init, conf, keys), ToUserInfo(rows[|rows| - 1], conf, keys));
    }
  }

  /** Loading one more row is one more `cacheUser`. */
  lemma RememberRowsSnoc(s: Store, rows: seq<Row>, j: nat, conf: Config, keys: CapabilityKeys)
    requires j < |rows|
    ensures RememberRows(s, rows[..j + 1], conf, keys)
            == Remember(RememberRows(s, rows[..j], conf, keys), ToUserInfo(rows[j], conf, keys))
  {
    assert rows[..j + 1][..j] == rows[..j];
  }

  /** A login that appears in none of some rows is not among their logins. */
  lemma NotInLogins(rows: seq<Row>, l: string)
    requires forall i :: 0 <= i < |rows| ==> rows[i].userLogin != l
    ensures l !in Logins(rows)
  {
  }

  /** When several rows share a login, the first of them wins: a login
      that was not cached before holds the record of its first row. */
  lemma {:induction false} RememberRowsFirstWins(s: Store, rows: seq<Row>, conf: Config, keys: CapabilityKeys, j: int)
    requires 0 <= j < |rows| && rows[j].userLogin !in s.users
    requires forall i :: 0 <= i < j ==> rows[i].userLogin != rows[j].userLogin
    ensures var r := RememberRows(s, rows, conf, keys);
      rows[j].userLogin in r.users && r.users[rows[j].userLogin] == ToUserInfo(rows[j], conf, keys)
    decreases |rows|
  {
    var init := rows[..|rows| - 1];
    var prev := RememberRows(s, init, conf, keys);
    var last := ToUserInfo(rows[|rows| - 1], conf, keys);
    assert RememberRows(s, rows, conf, keys) == Remember(prev, last);
    var l := rows[j].userLogin;
    if j < |rows| - 1 {
      assert init[j] == rows[j];
      RememberRowsFirstWins(s, init, conf, keys, j);
      RememberRowsGrows(s, init, conf, keys);
      assert l in prev.users;
    } else {
      forall i | 0 <= i < |init| ensures init[i].userLogin != l {
        assert init[i] == rows[i];
      }
      NotInLogins(init, l);
      RememberRowsGrows(s, init, conf, keys);
      assert l !in prev.users;
    }
  }

  /** Rows whose logins are all cached change nothing. */
  lemma {:induction false} RememberRowsCached(s: Store, rows: seq<Row>, conf: Config, keys: CapabilityKeys)
    requires forall i :: 0 <= i < |rows| ==> rows[i].userLogin in s.users
    ensures RememberRows(s, rows, conf, keys) == s
    decreases |rows|
  {
    if rows != [] {
      var init := rows[..|rows| - 1];
      forall i | 0 <= i < |init| ensures init[i].userLogin in s.users {
        assert init[i] == rows[i];
      }
      RememberRowsCached(s, init, conf, keys);
    }
  }

  /** Loading the same rows twice gives the cache loading them once gave. */
  lemma RememberRowsIdempotent(s: Store, rows: seq<Row>, conf: Config, keys: CapabilityKeys)
    ensures var r := RememberRows(s, rows, conf, keys);
      RememberRows(r, rows, conf, keys) == r
  {
    RememberRowsGrows(s, rows, conf, keys);
    RememberRowsCached(RememberRows(s, rows, conf, keys), rows, conf, keys);
  }
}
