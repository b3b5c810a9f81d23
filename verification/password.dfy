/** How `checkPass` picks a password check for a stored WordPress hash and
    what it hands to it. The cryptography itself (HMAC-SHA384 of RFC 2104
    over FIPS 180-4, base64 of section 4 of RFC 4648, bcrypt through PHP's
    `password_verify`, and the phpass `PasswordHash::CheckPassword`) is
    left abstract: the model fixes the routing and the arguments. */
module Password {
  import opened PhpStrings

  type Bytes = seq<bv8>

  /** The primitives `checkPass` calls, as given functions. */
  datatype Hasher = Hasher(
    hmacSha384: (string, string) -> Bytes,            // (data, key), raw binary output
    base64Encode: Bytes -> string,
    passwordVerify: (string, string) -> bool,         // (password, bcrypt hash)
    checkPassword: (int, bool, string, string) -> bool // PasswordHash(log2, portable)->CheckPassword(password, stored)
  )

  /** Marker of the WordPress 6.8+ stored hash format. */
  const ModernMarker := "$wp"
  /** Key of the HMAC pre-hash of the WordPress 6.8+ format. */
  const HmacKey := "wp-sha384"
  /** Arguments of `new PasswordHash(8, true)`. */
  const PhpassIterationCountLog2 := 8
  const PhpassPortableHashes := true

  /** The one call `checkPass` makes to a hasher, with its arguments. */
  datatype HashCheck =
    | Bcrypt(password: string, hash: string)
    | Phpass(iterationCountLog2: int, portableHashes: bool, password: string, storedHash: string)

  /** The candidate the modern path verifies: the base64 text of the raw
      HMAC-SHA384 digest of the password. */
  function ModernCandidate(pass: string, h: Hasher): string
  {
    h.base64Encode(h.hmacSha384(pass, HmacKey))
  }

  /** The routing of `checkPass`: a stored hash that starts with `$wp` is a
      bcrypt hash behind a three-character marker and is checked against
      the HMAC candidate; every other stored hash, the empty one included,
      goes whole to phpass with the password passed through `addslashes`.
      There is no third case. */
  function Route(pass: string, stored: string, h: Hasher): (c: HashCheck)
    ensures c.Bcrypt? <==> StartsWith(stored, ModernMarker)
    ensures c.Bcrypt? ==> ModernMarker + c.hash == stored && c.password == ModernCandidate(pass, h)
    ensures c.Phpass? ==>
              (c.storedHash == stored && StripSlashes(c.password) == pass
               && c.iterationCountLog2 == 8 && c.portableHashes)
  {
    if StartsWith(stored, ModernMarker) then
      assert stored == ModernMarker + stored[3..];
      Bcrypt(ModernCandidate(pass, h), stored[3..])
    else
      StripAddSlashes(pass);
      Phpass(PhpassIterationCountLog2, PhpassPortableHashes, AddSlashes(pass), stored)
  }

  /** The answer of the hasher a check is routed to. */
  function Run(c: HashCheck, h: Hasher): bool
  {
    match c
    case Bcrypt(password, hash) => h.passwordVerify(password, hash)
    case Phpass(log2, portable, password, storedHash) => h.checkPassword(log2, portable, password, storedHash)
  }

  /** `checkPass` once the stored hash of a known user is at hand. */
  function Verify(pass: string, stored: string, h: Hasher): bool
  {
    Run(Route(pass, stored, h), h)
  }

  /** The answer for a known user is exactly the answer of the one hasher
      its stored hash selects. */
  lemma VerifyDispatch(pass: string, stored: string, h: Hasher)
    ensures StartsWith(stored, ModernMarker) ==>
      Verify(pass, stored, h) == h.passwordVerify(h.base64Encode(h.hmacSha384(pass, HmacKey)), stored[3..])
    ensures !StartsWith(stored, ModernMarker) ==>
      Verify(pass, stored, h) == h.checkPassword(8, true, AddSlashes(pass), stored)
  {
    var c := Route(pass, stored, h);
    if c.Bcrypt? {
      assert stored[3..] == c.hash by {
        assert stored == ModernMarker + c.hash;
      }
    }
  }

  /** On the modern path the raw password never reaches bcrypt: two
      passwords with the same HMAC digest get the same answer. */
  lemma ModernSeesOnlyDigest(p: string, q: string, stored: string, h: Hasher)
    requires StartsWith(stored, ModernMarker)
    requires h.hmacSha384(p, HmacKey) == h.hmacSha384(q, HmacKey)
    ensures Route(p, stored, h) == Route(q, stored, h)
    ensures Verify(p, stored, h) == Verify(q, stored, h)
  {
    var cp, cq := Route(p, stored, h), Route(q, stored, h);
    assert cp.hash == cq.hash by {
      assert ModernMarker + cp.hash == ModernMarker + cq.hash;
      assert cp.hash == (ModernMarker + cp.hash)[3..];
      assert cq.hash == (ModernMarker + cq.hash)[3..];
    }
  }

  /** On the legacy path distinct passwords stay distinct: phpass is never
      asked the same question for two different passwords. */
  lemma LegacyKeepsPasswordsApart(p: string, q: string, stored: string, h: Hasher)
    requires !StartsWith(stored, ModernMarker)
    requires p != q
    ensures Route(p, stored, h) != Route(q, stored, h)
  {
    var cp, cq := Route(p, stored, h), Route(q, stored, h);
    assert StripSlashes(cp.password) == p && StripSlashes(cq.password) == q;
  }

  /** A stored hash that is exactly the marker leaves bcrypt an empty hash. */
  lemma BareMarker(pass: string, h: Hasher)
    ensures Route(pass, ModernMarker, h) == Bcrypt(ModernCandidate(pass, h), "")
  {
    var c := Route(pass, ModernMarker, h);
    assert ModernMarker + c.hash == ModernMarker;
    assert |c.hash| == 0;
  }
}
