/** The PHP string builtins the plugin relies on: `str_starts_with`,
    `str_replace` with a single search string, and `addslashes`, with
    `stripslashes` as the inverse that shows `addslashes` loses nothing. */
module PhpStrings {

  /** PHP `str_starts_with($haystack, $needle)`. */
  predicate StartsWith(s: string, prefix: string)
  {
    |prefix| <= |s| && s[..|prefix|] == prefix
  }

  /** True when `search` occurs in `s` at position `k`. */
  predicate OccursAt(s: string, search: string, k: int)
  {
    0 <= k && k + |search| <= |s| && s[k..k + |search|] == search
  }

  /** PHP `str_replace($search, $rep, $s)` for one non-array search string:
      scans left to right and replaces every non-overlapping occurrence;
      the replacement text is never rescanned. An empty search string
      leaves the subject unchanged (PHP 8). */
  function ReplaceAll(s: string, search: string, rep: string): string
    decreases |s|
  {
    if search == [] || |s| < |search| then s
    else if s[..|search|] == search then rep + ReplaceAll(s[|search|..], search, rep)
    else [s[0]] + ReplaceAll(s[1..], search, rep)
  }

  /** A subject in which the search string never occurs comes back unchanged. */
  lemma {:induction false} ReplaceAllAbsent(s: string, search: string, rep: string)
    requires forall k :: 0 <= k <= |s| - |search| ==> !OccursAt(s, search, k)
    ensures ReplaceAll(s, search, rep) == s
    decreases |s|
  {
    if search == [] || |s| < |search| {
    } else {
      assert !OccursAt(s, search, 0);
      assert s[..|search|] != search;
      forall k | 0 <= k <= |s[1..]| - |search|
        ensures !OccursAt(s[1..], search, k)
      {
        assert !OccursAt(s, search, k + 1);
        assert s[1..][k..k + |search|] == s[k + 1..k + 1 + |search|];
      }
      ReplaceAllAbsent(s[1..], search, rep);
    }
  }

  /** A leading run of text that cannot start the search string is copied
      as it is, and the rest is replaced on its own. */
  lemma {:induction false} ReplaceAllSkips(a: string, t: string, search: string, rep: string)
    requires search != []
    requires forall k :: 0 <= k < |a| ==> a[k] != search[0]
    ensures ReplaceAll(a + t, search, rep) == a + ReplaceAll(t, search, rep)
    decreases |a|
  {
    if a == [] {
      assert a + t == t;
    } else if |a + t| < |search| {
      ReplaceAllAbsent(t, search, rep);
    } else {
      assert (a + t)[..|search|][0] == a[0];
      assert (a + t)[1..] == a[1..] + t;
      ReplaceAllSkips(a[1..], t, search, rep);
      assert [a[0]] + (a[1..] + ReplaceAll(t, search, rep)) == a + ReplaceAll(t, search, rep);
    }
  }

  /** An occurrence at the very front is replaced and scanning resumes after it. */
  lemma ReplaceAllFront(t: string, search: string, rep: string)
    requires search != []
    ensures ReplaceAll(search + t, search, rep) == rep + ReplaceAll(t, search, rep)
  {
    assert (search + t)[..|search|] == search;
    assert (search + t)[|search|..] == t;
  }

  // ---------------------------------------------------------------------
  // addslashes / stripslashes

  const Backslash: char := '\\'
  const Nul: char := 0 as char

  /** The characters `addslashes` escapes. */
  predicate NeedsSlash(c: char)
  {
    c == Backslash || c == '\'' || c == '"' || c == Nul
  }

  /** PHP `addslashes`: a backslash goes before every backslash, single
      quote and double quote; the NUL character becomes a backslash
      followed by the digit `0`. */
  function AddSlashes(s: string): string
  {
    if s == [] then []
    else if s[0] == Nul then [Backslash, '0'] + AddSlashes(s[1..])
    else if NeedsSlash(s[0]) then [Backslash, s[0]] + AddSlashes(s[1..])
    else [s[0]] + AddSlashes(s[1..])
  }

  /** PHP `stripslashes`: a backslash followed by `0` gives NUL, a backslash
      followed by any other character gives that character, and a lone
      trailing backslash is dropped. */
  function StripSlashes(s: string): string
  {
    if s == [] then []
    else if s[0] != Backslash then [s[0]] + StripSlashes(s[1..])
    else if |s| == 1 then []
    else if s[1] == '0' then [Nul] + StripSlashes(s[2..])
    else [s[1]] + StripSlashes(s[2..])
  }

  /** Number of characters of `s` that `addslashes` escapes. */
  function SlashCount(s: string): nat
  {
    if s == [] then 0 else (if NeedsSlash(s[0]) then 1 else 0) + SlashCount(s[1..])
  }

  /** `stripslashes` undoes `addslashes`, so `addslashes` is injective:
      two different passwords never reach the legacy hasher as the same text. */
  lemma {:induction false} StripAddSlashes(s: string)
    ensures StripSlashes(AddSlashes(s)) == s
  {
    if s != [] {
      StripAddSlashes(s[1..]);
      var e := AddSlashes(s);
      if s[0] == Nul {
        assert e[0] == Backslash && e[1] == '0' && e[2..] == AddSlashes(s[1..]);
      } else if NeedsSlash(s[0]) {
        assert e[0] == Backslash && e[1] == s[0] && e[2..] == AddSlashes(s[1..]);
      } else {
        assert e[0] == s[0] && e[1..] == AddSlashes(s[1..]);
      }
    }
  }

  lemma AddSlashesInjective(p: string, q: string)
    requires AddSlashes(p) == AddSlashes(q)
    ensures p == q
  {
    StripAddSlashes(p);
    StripAddSlashes(q);
  }

  /** `addslashes` adds exactly one character per escaped character, and
      leaves a string without such characters as it is. */
  lemma {:induction false} AddSlashesLength(s: string)
    ensures |AddSlashes(s)| == |s| + SlashCount(s)
    ensures SlashCount(s) == 0 ==> AddSlashes(s) == s
  {
    if s != [] {
      AddSlashesLength(s[1..]);
    }
  }

  /** In the output of `addslashes` no quote or NUL appears unescaped:
      every quote character is preceded by a backslash, and the output
      contains no NUL at all. */
  lemma {:induction false} AddSlashesEscapes(s: string)
    ensures Nul !in AddSlashes(s)
    ensures forall k :: 0 <= k < |AddSlashes(s)| && AddSlashes(s)[k] in {'\'', '"'} ==>
              0 < k && AddSlashes(s)[k - 1] == Backslash
  {
    if s != [] {
      AddSlashesEscapes(s[1..]);
      var e, r := AddSlashes(s), AddSlashes(s[1..]);
      if s[0] == Nul || NeedsSlash(s[0]) {
        assert e == [e[0], e[1]] + r;
        forall k | 2 <= k < |e| && e[k] in {'\'', '"'} ensures e[k - 1] == Backslash {
          assert e[k] == r[k - 2];
          if k > 2 { assert e[k - 1] == r[k - 3]; }
        }
      } else {
        assert e == [s[0]] + r;
        forall k | 1 <= k < |e| && e[k] in {'\'', '"'} ensures e[k - 1] == Backslash {
          assert e[k] == r[k - 1];
          if k > 1 { assert e[k - 1] == r[k - 2]; }
        }
      }
    }
  }
}
