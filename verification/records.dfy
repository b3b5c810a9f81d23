/** The user record DokuWiki receives, the WordPress row it is built from,
    and the plugin's configuration. */
module Records {

  datatype Option<+T> = None | Some(value: T)

  /** DokuWiki's user info array: login, display name, password hash,
      e-mail address and group list. */
  datatype UserInfo = UserInfo(user: string, name: string, pass: string, mail: string, grps: seq<string>)

  /** One row of the user query: a `users` row joined with the
      `capabilities` entry of `usermeta`. `grps` is the serialized PHP
      array stored as the meta value. The `id` column is not used. */
  datatype Row = Row(userLogin: string, userPass: string, userEmail: string, displayName: string, grps: string)

  /** The plugin settings the core reads: the table prefix, the
      `usedefaultgroup` flag, and DokuWiki's global `defaultgroup`. */
  datatype Config = Config(prefix: string, useDefaultGroup: bool, defaultGroup: string)

  /** PHP `array_keys(unserialize($blob))`, left abstract: the keys of the
      decoded capabilities array, in order. */
  type CapabilityKeys = string -> seq<string>

  /** The group list of a row: the capability keys, then the default
      group when the configuration asks for it. */
  function Groups(blob: string, conf: Config, keys: CapabilityKeys): seq<string>
  {
    keys(blob) + if conf.useDefaultGroup then [conf.defaultGroup] else []
  }

  /** The group list keeps the capability keys in their order, and adds
      one entry, the default group at the end, exactly when
      `usedefaultgroup` is set. */
  lemma GroupsShape(blob: string, conf: Config, keys: CapabilityKeys)
    ensures var g := Groups(blob, conf, keys);
      && g[..|keys(blob)|] == keys(blob)
      && |g| == |keys(blob)| + (if conf.useDefaultGroup then 1 else 0)
      && (conf.useDefaultGroup ==> g[|g| - 1] == conf.defaultGroup)
      && (!conf.useDefaultGroup ==> g == keys(blob))
  {
  }

  /** The record `cacheUser` builds from a row. */
  function ToUserInfo(row: Row, conf: Config, keys: CapabilityKeys): UserInfo
  {
    UserInfo(row.userLogin, row.displayName, row.userPass, row.userEmail, Groups(row.grps, conf, keys))
  }

  /** The four text fields are copied from the row unchanged; the group
      list starts with the capability keys in their order and holds exactly
      one more entry, the default group, precisely when `usedefaultgroup`
      is set. */
  lemma ToUserInfoFields(row: Row, conf: Config, keys: CapabilityKeys)
    ensures var info := ToUserInfo(row, conf, keys);
      && info.user == row.userLogin && info.name == row.displayName
      && info.pass == row.userPass && info.mail == row.userEmail
      && info.grps[..|keys(row.grps)|] == keys(row.grps)
      && |info.grps| == |keys(row.grps)| + (if conf.useDefaultGroup then 1 else 0)
      && (conf.useDefaultGroup <==> |info.grps| > |keys(row.grps)|)
      && (conf.useDefaultGroup ==> info.grps[|info.grps| - 1] == conf.defaultGroup)
  {
  }

  /** A record has no groups exactly when the capabilities decode to no
      keys and no default group is configured. */
  lemma GroupsEmpty(row: Row, conf: Config, keys: CapabilityKeys)
    ensures ToUserInfo(row, conf, keys).grps == [] <==> keys(row.grps) == [] && !conf.useDefaultGroup
  {
    var g := ToUserInfo(row, conf, keys).grps;
    if conf.useDefaultGroup {
      assert g[|g| - 1] == conf.defaultGroup;
    }
  }
}
