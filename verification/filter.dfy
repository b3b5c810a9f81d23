/** User filters of the bulk listing: the PCRE patterns `setFilter` builds
    from search criteria, and the test `applyFilter` makes of a record.
    PCRE matching itself is left abstract. */
module Filter {
  import opened Records
  import opened PhpStrings

  /** `preg_match($pattern, $subject)` reporting a match; a non-match and
      a PCRE error both read as false, as they do under `!`. */
  type Matcher = (string, string) -> bool

  /** A filter: (field, pattern) pairs in the order of the PHP array. */
  type Patterns = seq<(string, string)>

  const Delimiter: char := '/'
  const EscapedDelimiter: string := [Backslash, Delimiter]
  /** Closing delimiter and modifiers: UTF-8 and case-insensitive. */
  const Modifiers: string := "/ui"

  /** `str_replace('/', '\/', $value)`. */
  function EscapeDelimiter(value: string): string
  {
    ReplaceAll(value, [Delimiter], EscapedDelimiter)
  }

  /** The inverse replacement, `str_replace('\/', '/', $body)`. */
  function UnescapeDelimiter(body: string): string
  {
    ReplaceAll(body, EscapedDelimiter, [Delimiter])
  }

  /** The PCRE pattern `setFilter` builds from one criterion. */
  function ToPattern(value: string): string
  {
    [Delimiter] + EscapeDelimiter(value) + Modifiers
  }

  lemma EscapeStep(c: char, rest: string)
    ensures EscapeDelimiter([c] + rest) ==
            (if c == Delimiter then EscapedDelimiter else [c]) + EscapeDelimiter(rest)
  {
    var s := [c] + rest;
    assert s[..1] == [c] && s[1..] == rest;
  }

  /** Escaping never yields a string that starts with the delimiter. */
  lemma EscapeHead(v: string)
    ensures EscapeDelimiter(v) == [] <==> v == []
    ensures EscapeDelimiter(v) != [] ==> EscapeDelimiter(v)[0] != Delimiter
  {
    if v != [] {
      EscapeStep(v[0], v[1..]);
      assert v == [v[0]] + v[1..];
    }
  }

  lemma UnescapeSkip(c: char, t: string)
    requires c != Backslash || t == [] || t[0] != Delimiter
    ensures UnescapeDelimiter([c] + t) == [c] + UnescapeDelimiter(t)
  {
    var s := [c] + t;
    if |s| >= 2 {
      assert s[..2] != EscapedDelimiter by {
        assert s[..2][0] == c && s[..2][1] == t[0];
      }
      assert s[1..] == t;
    } else {
      assert t == [];
    }
  }

  /** Unescaping recovers the criterion: the escaping loses nothing, even
      for values that already hold backslashes. */
  lemma {:induction false} EscapeRoundTrip(v: string)
    ensures UnescapeDelimiter(EscapeDelimiter(v)) == v
  {
    if v != [] {
      var c, rest := v[0], v[1..];
      assert v == [c] + rest;
      EscapeStep(c, rest);
      EscapeRoundTrip(rest);
      var e := EscapeDelimiter(rest);
      if c == Delimiter {
        ReplaceAllFront(e, EscapedDelimiter, [Delimiter]);
      } else {
        EscapeHead(rest);
        UnescapeSkip(c, e);
      }
    }
  }

  /** Every delimiter left in an escaped value has a backslash right before
      it. (A backslash the criterion already had in front of a `/` is not
      doubled, so PCRE may still read that `/` as the closing delimiter.) */
  lemma {:induction false} EscapeGuardsDelimiter(v: string)
    ensures forall k :: 0 <= k < |EscapeDelimiter(v)| && EscapeDelimiter(v)[k] == Delimiter ==>
              0 < k && EscapeDelimiter(v)[k - 1] == Backslash
  {
    if v != [] {
      var c, rest := v[0], v[1..];
      assert v == [c] + rest;
      EscapeStep(c, rest);
      EscapeGuardsDelimiter(rest);
      var e, r := EscapeDelimiter(v), EscapeDelimiter(rest);
      var d := if c == Delimiter then 2 else 1;
      assert e == e[..d] + r;
      forall k | 0 <= k < |e| && e[k] == Delimiter ensures 0 < k && e[k - 1] == Backslash {
        if k >= d {
          assert e[k] == r[k - d];
          if k > d { assert e[k - 1] == r[k - d - 1]; }
        }
      }
    }
  }

  /** The filter `setFilter` builds: one pattern per criterion, under the
      same field name and in the same order; each pattern is framed by the
      `/` delimiter and `/ui`, and its body unescapes back to its criterion. */
  function Compile(criteria: seq<(string, string)>): (f: Patterns)
    ensures |f| == |criteria|
    ensures forall i :: 0 <= i < |f| ==> f[i].0 == criteria[i].0
    ensures forall i :: 0 <= i < |f| ==>
              && 4 <= |f[i].1|
              && f[i].1[0] == Delimiter && f[i].1[|f[i].1| - 3..] == Modifiers
              && UnescapeDelimiter(f[i].1[1..|f[i].1| - 3]) == criteria[i].1
  {
    EscapeRoundTripAll(criteria);
    seq(|criteria|, i requires 0 <= i < |criteria| => (criteria[i].0, ToPattern(criteria[i].1)))
  }

  lemma EscapeRoundTripAll(criteria: seq<(string, string)>)
    ensures forall i :: 0 <= i < |criteria| ==> UnescapeDelimiter(EscapeDelimiter(criteria[i].1)) == criteria[i].1
  {
    forall i | 0 <= i < |criteria| {
      EscapeRoundTrip(criteria[i].1);
    }
  }

  /** The record field a filter names; `$info[$elem]` for a key the
      record lacks is null, which PCRE matches as the empty string. */
  function FieldValue(info: UserInfo, field: string): string
  {
    if field == "user" then info.user
    else if field == "name" then info.name
    else if field == "pass" then info.pass
    else if field == "mail" then info.mail
    else ""
  }

  /** PHP `preg_grep($pattern, $xs)`: the entries that match, in order. */
  function PregGrep(m: Matcher, pattern: string, xs: seq<string>): seq<string>
  {
    if xs == [] then []
    else (if m(pattern, xs[0]) then [xs[0]] else []) + PregGrep(m, pattern, xs[1..])
  }

  /** `preg_grep` keeps only matching entries of its input, and comes back
      empty exactly when none of them matches. */
  lemma {:induction false} PregGrepMatches(m: Matcher, pattern: string, xs: seq<string>)
    ensures var r := PregGrep(m, pattern, xs);
      && |r| <= |xs|
      && (forall k :: 0 <= k < |r| ==> m(pattern, r[k]) && r[k] in xs)
      && (r == [] <==> forall k :: 0 <= k < |xs| ==> !m(pattern, xs[k]))
  {
    if xs != [] {
      PregGrepMatches(m, pattern, xs[1..]);
      var r, t := PregGrep(m, pattern, xs), PregGrep(m, pattern, xs[1..]);
      var d := if m(pattern, xs[0]) then 1 else 0;
      forall k | 0 <= k < |r| ensures m(pattern, r[k]) && r[k] in xs {
        if k >= d {
          assert r[k] == t[k - d];
          assert t[k - d] in xs[1..];
        }
      }
      if r == [] {
        forall k | 0 <= k < |xs| ensures !m(pattern, xs[k]) {
          if k > 0 { assert xs[k] == xs[1..][k - 1]; }
        }
      }
      if forall k :: 0 <= k < |xs| ==> !m(pattern, xs[k]) {
        forall k | 0 <= k < |xs[1..]| ensures !m(pattern, xs[1..][k]) {
          assert xs[1..][k] == xs[k + 1];
        }
      }
    }
  }

  /** One criterion of `applyFilter`: for `grps`, some group matches; for
      any other field, the field's value matches. */
  predicate Holds(m: Matcher, field: string, pattern: string, info: UserInfo)
  {
    if field == "grps" then PregGrep(m, pattern, info.grps) != []
    else m(pattern, FieldValue(info, field))
  }

  /** `applyFilter`: walks the criteria and stops at the first that fails. */
  function ApplyFilter(filter: Patterns, info: UserInfo, m: Matcher): bool
  {
    if filter == [] then true
    else if !Holds(m, filter[0].0, filter[0].1, info) then false
    else ApplyFilter(filter[1..], info, m)
  }

  /** A record passes the filter exactly when every criterion holds. */
  lemma {:induction false} ApplyFilterAll(filter: Patterns, info: UserInfo, m: Matcher)
    ensures ApplyFilter(filter, info, m) <==> forall i :: 0 <= i < |filter| ==> Holds(m, filter[i].0, filter[i].1, info)
  {
    if filter != [] {
      ApplyFilterAll(filter[1..], info, m);
      if Holds(m, filter[0].0, filter[0].1, info) && ApplyFilter(filter[1..], info, m) {
        forall i | 0 <= i < |filter| ensures Holds(m, filter[i].0, filter[i].1, info) {
          if i > 0 { assert filter[i] == filter[1..][i - 1]; }
        }
      }
      if forall i :: 0 <= i < |filter| ==> Holds(m, filter[i].0, filter[i].1, info) {
        forall i | 0 <= i < |filter[1..]| ensures Holds(m, filter[1..][i].0, filter[1..][i].1, info) {
          assert filter[1..][i] == filter[i + 1];
        }
      }
    }
  }

  /** The `grps` criterion holds exactly when one of the groups matches. */
  lemma GroupsCriterion(m: Matcher, pattern: string, info: UserInfo)
    ensures Holds(m, "grps", pattern, info) <==> exists k :: 0 <= k < |info.grps| && m(pattern, info.grps[k])
  {
    PregGrepMatches(m, pattern, info.grps);
  }

  /** The records the filter accepts, in their order. */
  function Select(infos: seq<UserInfo>, filter: Patterns, m: Matcher): seq<UserInfo>
  {
    if infos == [] then []
    else
      var last := infos[|infos| - 1];
      Select(infos[..|infos| - 1], filter, m) + (if ApplyFilter(filter, last, m) then [last] else [])
  }

  /** Every selected record is accepted and comes from the input, and
      there are never more of them than input records. */
  lemma {:induction false} SelectSound(infos: seq<UserInfo>, filter: Patterns, m: Matcher)
    ensures |Select(infos, filter, m)| <= |infos|
    ensures forall k :: 0 <= k < |Select(infos, filter, m)| ==>
              Select(infos, filter, m)[k] in infos && ApplyFilter(filter, Select(infos, filter, m)[k], m)
  {
    if infos != [] {
      var init := infos[..|infos| - 1];
      SelectSound(init, filter, m);
      var s := Select(infos, filter, m);
      var t := Select(init, filter, m);
      forall k | 0 <= k < |s| ensures s[k] in infos && ApplyFilter(filter, s[k], m) {
        if k < |t| {
          assert s[k] == t[k];
          assert t[k] in init;
          var j :| 0 <= j < |init| && init[j] == t[k];
          assert infos[j] == init[j];
        } else {
          assert s[k] == infos[|infos| - 1];
        }
      }
    }
  }

  /** Every accepted record is selected. */
  lemma {:induction false} SelectComplete(infos: seq<UserInfo>, filter: Patterns, m: Matcher, j: int)
    requires 0 <= j < |infos| && ApplyFilter(filter, infos[j], m)
    ensures infos[j] in Select(infos, filter, m)
  {
    var init := infos[..|infos| - 1];
    if j < |infos| - 1 {
      assert init[j] == infos[j];
      SelectComplete(init, filter, m, j);
    }
  }

  /** With no criteria everything is selected. */
  lemma {:induction false} SelectNoFilter(infos: seq<UserInfo>, m: Matcher)
    ensures Select(infos, [], m) == infos
  {
    if infos != [] {
      SelectNoFilter(infos[..|infos| - 1], m);
    }
  }

  /** Selecting from a prefix gives a prefix of the selection. */
  lemma {:induction false} SelectPrefix(infos: seq<UserInfo>, k: nat, filter: Patterns, m: Matcher)
    requires k <= |infos|
    ensures var p := Select(infos[..k], filter, m);
      |p| <= |Select(infos, filter, m)| && Select(infos, filter, m)[..|p|] == p
    decreases |infos| - k
  {
    if k < |infos| {
      var init := infos[..|infos| - 1];
      assert init[..k] == infos[..k];
      SelectPrefix(init, k, filter, m);
    } else {
      assert infos[..k] == infos;
    }
  }

  /** One more record selects one more exactly when the filter accepts it. */
  lemma SelectSnoc(infos: seq<UserInfo>, k: nat, filter: Patterns, m: Matcher)
    requires k < |infos|
    ensures Select(infos[..k + 1], filter, m) ==
            Select(infos[..k], filter, m) + (if ApplyFilter(filter, infos[k], m) then [infos[k]] else [])
  {
    assert infos[..k + 1][..k] == infos[..k];
  }
}
