# authwordpress: a Dafny model

This project models the core of the DokuWiki auth plugin `authwordpress`.
The plugin authenticates DokuWiki users against the user tables of a
WordPress MySQL database. The model covers the class
`auth_plugin_authwordpress` in `auth.php`:

- the constructor's substitution of the table prefix into the user query;
- `checkPass`, which checks a password against the stored hash;
- `getUserData` and `cacheUser`, the per-user lookup and the write-once
  user cache;
- `cacheAllUsers`, the bulk load;
- `setFilter` and `applyFilter`, which build and apply the listing filter;
- `retrieveUsers` and `getUserCount`, which list and count users.

Modules:

- `PhpStrings`: the PHP string functions the core relies on
  (`str_starts_with`, `str_replace`, `addslashes`, `stripslashes`).
- `Records`: the WordPress row, DokuWiki's user info array, the
  configuration, and how a row becomes a user record.
- `UserCache`: the users array as a value. It is an insertion-ordered
  map from login to record, to which each login is written at most once.
- `Password`: how `checkPass` picks the WordPress 6.8+ bcrypt check or
  the legacy phpass check, and what it passes to each.
- `Filter`: the PCRE patterns built from search criteria, and the
  acceptance test for a record.
- `Paging`: the skip-then-take window of `retrieveUsers`.
- `AuthWordPress`: the plugin object, as a class with the source's fields
  and methods.
- `NullUsers`: the count of users as written, which fails on an empty
  WordPress table (see Findings).

The PHP array `$users` is two fields, `users` (login to record) and `order`
(the order `foreach` visits them in). A ghost field `queries` logs every
statement sent to the database, so contracts can say when no query is
issued. The database, PHP's `unserialize`, PCRE and the password hashers
are given to the plugin as function values (`Database`, `Runtime`,
`Password.Hasher`). The contracts hold for every choice of them.

## Model

| member | source | states |
|---|---|---|
| PhpStrings.ReplaceAllAbsent | auth.php:108-112 | `PhpStrings.ReplaceAll`, the model of `str_replace`, leaves a string with no occurrence of the search string unchanged. |
| PhpStrings.ReplaceAllSkips | auth.php:108-112 | `str_replace` copies a leading stretch that holds no first character of the search string, and continues on the rest. |
| PhpStrings.ReplaceAllFront | auth.php:108-112 | `str_replace` on a string that starts with the search string puts the replacement there and continues after it. |
| AuthWordPress.UserDataSql | auth.php:107-112 | Substituting the configured prefix gives the template with the prefix in front of `users`, `usermeta` and `capabilities`, and nowhere else. A prefix that itself contains `%prefix%` is not expanded again. |
| AuthWordPress.SubstitutePrefix | auth.php:55-59 | Replacing the placeholder in the three-placeholder query, when the text between placeholders has no `%`, puts the prefix at each placeholder and copies the text between. |
| AuthWordPress.AuthPlugin.constructor | auth.php:89-115 | On a failed connection `success` is false and the query keeps its placeholders. Otherwise `success` is true and the query has the prefix substituted. The cache starts empty, no bulk load has happened, and no query was sent. |
| AuthWordPress.AuthPlugin.CheckPass | auth.php:137-155 | On a connected plugin, an unknown user or a failed lookup gives false. Otherwise the answer is that of the hasher the stored hash selects. The cache and the query log change exactly as for `getUserData`. |
| Password.Route | auth.php:143-151 | A stored hash for which `PhpStrings.StartsWith` (the model of `str_starts_with` at auth.php:144) holds with `$wp` is checked with bcrypt against the base64 HMAC-SHA384 (key `wp-sha384`) of the password, with the three-character marker dropped. Every other stored hash, the empty one included, goes whole to `PasswordHash(8, true)` with a password that `stripslashes` maps back to the original. |
| Password.VerifyDispatch | auth.php:143-151 | `Password.Verify`, the answer `checkPass` gives for a known user, equals `password_verify(base64(hmac(pass)), stored[3..])` on the modern branch, and `CheckPassword(8, true, addslashes(pass), stored)` on the legacy branch. |
| Password.ModernSeesOnlyDigest | auth.php:145-146 | On the modern branch two passwords with the same HMAC digest produce the same check and the same answer. The raw password never reaches bcrypt. |
| Password.LegacyKeepsPasswordsApart | auth.php:148-150 | On the legacy branch distinct passwords produce distinct questions to phpass. |
| Password.BareMarker | auth.php:144-146 | A stored hash equal to `$wp` gives bcrypt an empty hash. |
| PhpStrings.StripAddSlashes | auth.php:149-150 | `stripslashes(addslashes(p)) == p` for every password. |
| PhpStrings.AddSlashesInjective | auth.php:150 | `addslashes` maps distinct passwords to distinct strings. |
| PhpStrings.AddSlashesLength | auth.php:150 | `addslashes` adds one character per quote, backslash or NUL, and leaves a string with none of them unchanged. |
| PhpStrings.AddSlashesEscapes | auth.php:150 | The output of `addslashes` has no NUL, and every quote in it has a backslash right before it. |
| AuthWordPress.AuthPlugin.GetUserData | auth.php:224-252 | On a connected plugin, a cached login is answered from the cache, with no query and no change. Otherwise one lookup statement is sent: a fetched row is cached and its record returned, while a failed execution or a missing row gives nothing and leaves the cache unchanged. The cache keeps its shape. |
| AuthWordPress.AuthPlugin.CacheUser | auth.php:295-322 | A login that is already cached keeps its record, which is returned, and nothing changes. Otherwise exactly one entry, keyed by the row's login, is appended, holding the record built from the row. |
| Records.GroupsShape | auth.php:306-310 | `Records.Groups`, the group derivation, keeps the capability keys in their order and adds one entry, the default group at the end, exactly when `usedefaultgroup` is set; without it the groups are the keys. |
| Records.ToUserInfoFields | auth.php:306-318 | The record `Records.ToUserInfo` builds from a row carries the row's login, and its display name, password hash and e-mail are copied from the row. The group list starts with the capability keys in their order. It has one more entry, the default group at the end, exactly when `usedefaultgroup` is set. |
| Records.GroupsEmpty | auth.php:307-310 | A record built by `Records.ToUserInfo` has no groups exactly when the capabilities decode to no keys and no default group is configured. |
| UserCache.Remember | auth.php:299-320 | One write adds the written login to the keys and keeps every old entry. A new login is appended to the order with its record. A login already present leaves the cache equal to what it was. |
| UserCache.RememberKeepsValid | auth.php:299-320 | One write keeps the cache's shape: each login listed once, the listed logins are the keys, and each record's login is its key. |
| UserCache.Entries | auth.php:176 | The records in `foreach` order: one per listed login, and as many as there are keys. |
| UserCache.RememberRowsSnoc | auth.php:338-340 | `UserCache.RememberRows`, the loop of `cacheAllUsers`, passes the rows to `cacheUser`'s write one at a time, in order: one more row is one more write. |
| UserCache.RememberRowsGrows | auth.php:338-340 | Loading rows adds exactly the rows' logins to the keys and keeps every entry that was there. |
| UserCache.RememberRowsAppends | auth.php:338-340 | Loading rows only appends to the order. |
| UserCache.RememberRowsKeepsValid | auth.php:338-340 | Loading rows keeps the cache's shape. |
| UserCache.RememberRowsFirstWins | auth.php:301-304 | When several rows share a login that was not cached, the login holds the record of its first row. |
| UserCache.RememberRowsCached | auth.php:301-304 | Rows whose logins are all cached change nothing. |
| UserCache.RememberRowsIdempotent | auth.php:329-343 | Loading the same rows a second time leaves the cache as the first load left it. |
| AuthWordPress.AuthPlugin.CacheAllUsers | auth.php:329-343 | On a connected plugin: once `usersCached` is set, nothing changes and no query is sent. Otherwise exactly the bulk statement is sent once, every row is passed to `cacheUser` in order, and `usersCached` becomes true. |
| AuthWordPress.LoadTwice | auth.php:329-343 | On a connected plugin, two bulk loads in a row send the full query at most once and leave the cache the first load produced. |
| AuthWordPress.AuthPlugin.SetFilter | auth.php:352-359 | The earlier filter is discarded. The new filter has one pattern per criterion, under the same field name and in the same order. |
| Filter.Compile | auth.php:354-358 | One pattern per criterion, with the same field name and in the same order. Each pattern starts with the `/` delimiter and ends with `/ui`, and its body unescapes back to the criterion's value. |
| Filter.EscapeRoundTrip | auth.php:357 | In the body of a pattern built by `Filter.ToPattern`, replacing `\/` by `/` gives back the value, also for values that already contain backslashes. |
| Filter.EscapeGuardsDelimiter | auth.php:357 | Every `/` in the value `Filter.ToPattern` escapes with `str_replace` has a backslash right before it. |
| Filter.PregGrepMatches | auth.php:374 | `preg_grep` returns only matching entries of its input, and returns nothing exactly when no entry matches. |
| Filter.ApplyFilterAll | auth.php:370-384 | `Filter.ApplyFilter`, the early-return loop of `applyFilter`, accepts a record exactly when every criterion holds for it. A criterion on a field other than `grps` matches `Filter.FieldValue`, the model of `$info[$elem]` at auth.php:378, where a field the record lacks reads as the empty string. |
| Filter.GroupsCriterion | auth.php:373-376 | A `grps` criterion holds exactly when at least one of the record's groups matches the pattern. |
| Filter.SelectSnoc | auth.php:176-177 | `Filter.Select`, the filtered walk over the cache in `foreach` order, takes one more record exactly when `ApplyFilter` accepts it. |
| Filter.SelectSound | auth.php:176-187 | Every selected record comes from the input and passes the filter, and there are never more selected records than input records. |
| Filter.SelectComplete | auth.php:176-187 | Every record that passes the filter is selected. |
| Filter.SelectNoFilter | auth.php:203-204 | With no criteria every record is selected, in order. |
| Paging.Window | auth.php:178-183 | The page has at most `limit` entries when `limit` is positive. It consists of consecutive entries starting at `max(start, 0)`. An entry at position `j` is on it exactly when `j >= start` and, for positive `limit`, `j < max(start, 0) + limit`. |
| Paging.WindowAll | auth.php:166 | With the default `start` 0 and `limit` 0 the page is the whole list. |
| Paging.WindowSplit | auth.php:174-187 | The skipped entries, the page, and the entries after it make up the list again. |
| Paging.WindowTwoOfFive | auth.php:178-183 | Of five accepted users, `start` 2 and `limit` 2 return the third and the fourth. |
| AuthWordPress.AuthPlugin.RetrieveUsers | auth.php:166-190 | On a connected plugin: loads all users, installs the filter for the criteria, and returns the page that `start` and `limit` cut from the accepted users in cache order. With no criteria the page is cut from all users. |
| AuthWordPress.AuthPlugin.PageLoaded | auth.php:173-189 | With the users loaded: installs the filter and returns the page of the accepted users. |
| AuthWordPress.Page | auth.php:174-187 | The loop of `retrieveUsers` returns exactly the window of the accepted users. |
| AuthWordPress.AuthPlugin.GetUserCount | auth.php:199-213 | On a connected plugin: loads all users. The count is the number of cached users the criteria accept, which is at most the number of users. With no criteria it is the size of the cache and the old filter is kept. |
| AuthWordPress.AuthPlugin.CountLoaded | auth.php:203-211 | With the users loaded: the count of accepted users, and the size of the cache for no criteria. |
| AuthWordPress.CountAccepted | auth.php:207-210 | The loop of `getUserCount` counts exactly the accepted users. |
| NullUsers.EmptyTableCountFails | auth.php:203-204 | On a fresh object whose bulk query returns no rows, `NullUsers.LoadFreshAsWritten` (the bulk load of auth.php:329-343 on a null array) leaves the array null. `NullUsers.CountAllAsWritten`, through `NullUsers.PhpCount` (PHP 8 `count` at auth.php:204), is then a TypeError instead of a number. |
| NullUsers.NonEmptyTableCounts | auth.php:203-204 | With at least one row, `NullUsers.LoadFreshAsWritten` creates the array and `NullUsers.CountAllAsWritten` is its number of keys. |
| NullUsers.EmptyTableCountsZero | auth.php:199-213 | A fresh plugin whose bulk query returns no rows counts 0 users. |

## Left out

- The PDO connection (`connectWordpressDb`, the DSN, the credentials) is not modelled. The constructor receives whether connecting succeeded; the `PDOException` message and `msg` are left out.
- The database is given as two functions: the answer of the lookup statement for a bound login, and the rows of the bulk statement. MySQL itself, including its case-insensitive collation, is not modelled. The lookup's row is therefore not required to carry exactly the requested login, and the record is cached under the row's login, as the code does.
- PHP 8's PDO error mode throws on a failed statement, so the `!$stmt->execute()` branch of `getUserData` is rarely taken in practice. It is modelled as written, as `ExecuteFailed`. A failing bulk statement in `cacheAllUsers` is not modelled: its result is not checked by the code.
- HMAC-SHA384, base64, bcrypt and phpass's `CheckPassword` are left abstract as functions of `Password.Hasher`. Their internals are not modelled, so properties such as "an empty stored hash never verifies" are out of reach.
- `unserialize` and `array_keys` are one abstract function from the serialized blob to a list of keys. A blob that does not unserialize to an array (a PHP error in `array_keys`) is not modelled.
- PHP strings are byte strings, and the model's `string` is a sequence of chars, one char per byte. Nothing depends on this. Every concrete string operation here touches only ASCII characters, which never occur inside a multibyte UTF-8 sequence: the `$wp` prefix test, `substr(…, 3)`, `addslashes`, and both `str_replace` calls.
- PCRE matching is an abstract predicate. A PCRE error reads as no match, as it does under `!`.
- Filter.EscapeGuardsDelimiter: this is weaker than what PCRE needs. `str_replace` does not double a backslash the criterion already has, so a criterion `\/` becomes `\\/`, and PCRE may read that `/` as the closing delimiter. The lemma only says every `/` has a backslash before it.
- `applyFilter`'s lookup `$info[$elem]` for a field the record lacks is null, which PCRE matches as the empty string. The model reads such a field as `""` and does not model the deprecation notice.
- `retrieveUsers` returns an array keyed by login. The model returns the records in order; each key is the record's `user` field.
- The filter argument is a PHP array, whose keys are unique. The model takes a sequence of (field, value) pairs and does not require unique fields.
- Numeric logins, which PHP turns into integer array keys, behave the same as string keys for these operations and are not distinguished.
- The `id` column of the user query and the `$requireGroups` parameter of `getUserData` are not used by the code and are not modelled.
- Logging (`logDebug`, `Logger`, `dbglog`), `msg` and the language strings are left out. So is the `cando` capability table set in the constructor.
- A failed connection leaves the PDO handle null, and any later `$this->db->prepare` (auth.php:233, auth.php:335) raises an `Error`; through them so do `checkPass`, `retrieveUsers` and `getUserCount`. The model does not capture that `Error` as an outcome: `CheckPass`, `GetUserData`, `CacheAllUsers`, `RetrieveUsers` and `GetUserCount` require `success`, which only a successful connection sets.
- AuthWordPress.AuthPlugin.CheckPass: "no hasher runs for an unknown user" is not stated; the hashers are pure functions here and no log of hasher calls is kept. The contract says only that the answer is false whatever the hashers would say.
- The users array starts as PHP null in the code, but as an empty cache in the class model. The null case is modelled separately in `NullUsers` (see Findings).

## Findings

| source | as written | input that shows it | evidently intended | confidence | as-written member | corrected member |
|---|---|---|---|---|---|---|
| auth.php:71 and auth.php:203-204 | `$users` is never initialised, so it stays null until `cacheUser` stores a row. `getUserCount()` without criteria then calls `count($this->users)` on null, which is a TypeError in PHP 8 (PHP 7 only warns and returns 0). | A fresh plugin whose WordPress query returns no rows, then `getUserCount()`. | The count of an empty user table is 0. | not executed | NullUsers.EmptyTableCountFails | NullUsers.EmptyTableCountsZero |
