/**
 * The SQLAlchemy-backed account helpers (backend/auth.py): the password hash
 * `sha256(plain.encode()).hexdigest()`, its check, and the `users` table that
 * `create_user` adds to and `get_user_by_email` reads.
 *
 * SHA-256 itself is a parameter `sha` of type Sha256 and nothing is assumed
 * about it beyond its 32-byte result; the UTF-8 encoding and the hexadecimal
 * rendering around it are modelled.
 */
module Auth {
  import opened Wrappers

  type byte = b: int | 0 <= b < 256

  /** A SHA-256 digest: 32 bytes. */
  type Digest = d: seq<byte> | |d| == 32 witness seq(32, _ => 0)

  /** `hashlib.sha256(data).digest()`, uninterpreted. */
  type Sha256 = seq<byte> -> Digest

  // ---------------------------------------------------------------------------
  // str.encode(): UTF-8
  // ---------------------------------------------------------------------------

  /** The UTF-8 encoding of one Unicode scalar value: six bits per continuation byte, low bits last. */
  function EncodeChar(c: char): (bs: seq<byte>)
    ensures 1 <= |bs| <= 4
    ensures c as int < 0x80 ==> bs == [c as int]
  {
    var n := c as int;
    var q1 := n / 64;
    var q2 := q1 / 64;
    var q3 := q2 / 64;
    if n < 0x80 then [n]
    else if n < 0x800 then [0xC0 + q1, 0x80 + n % 64]
    else if n < 0x10000 then [0xE0 + q2, 0x80 + q1 % 64, 0x80 + n % 64]
    else [0xF0 + q3, 0x80 + q2 % 64, 0x80 + q1 % 64, 0x80 + n % 64]
  }

  /** `s.encode()` (UTF-8, the default codec). */
  function Utf8(s: string): (bs: seq<byte>)
    ensures |bs| >= |s|
  {
    if s == [] then [] else EncodeChar(s[0]) + Utf8(s[1..])
  }

  /** The length of a UTF-8 sequence, read off its first byte. */
  function SequenceLength(lead: byte): nat {
    if lead < 0x80 then 1 else if lead < 0xE0 then 2 else if lead < 0xF0 then 3 else 4
  }

  /** The scalar value of a UTF-8 sequence of one to four bytes. */
  function DecodeScalar(bs: seq<byte>): int
    requires 1 <= |bs| <= 4
  {
    var b0: int := bs[0];
    if |bs| == 1 then b0
    else
      var b1: int := bs[1] as int - 0x80;
      if |bs| == 2 then (b0 - 0xC0) * 64 + b1
      else
        var b2: int := bs[2] as int - 0x80;
        if |bs| == 3 then ((b0 - 0xE0) * 64 + b1) * 64 + b2
        else (((b0 - 0xF0) * 64 + b1) * 64 + b2) * 64 + (bs[3] as int - 0x80)
  }

  /** The first byte of a character's encoding gives its length, and decoding gives the character back. */
  lemma EncodeCharDecodes(c: char)
    ensures SequenceLength(EncodeChar(c)[0]) == |EncodeChar(c)|
    ensures DecodeScalar(EncodeChar(c)) == c as int
  {
    var n := c as int;
    var q1 := n / 64;
    var q2 := q1 / 64;
    assert n == q1 * 64 + n % 64;
    assert q1 == q2 * 64 + q1 % 64;
    assert q2 == (q2 / 64) * 64 + q2 % 64;
  }

  /** Different strings have different encodings. */
  lemma {:induction false} Utf8Injective(s: string, t: string)
    requires Utf8(s) == Utf8(t)
    ensures s == t
  {
    if s != [] && t != [] {
      var es, et := EncodeChar(s[0]), EncodeChar(t[0]);
      EncodeCharDecodes(s[0]);
      EncodeCharDecodes(t[0]);
      assert Utf8(s) == es + Utf8(s[1..]) && Utf8(t) == et + Utf8(t[1..]);
      assert es[0] == Utf8(s)[0] == et[0];
      assert es == Utf8(s)[..|es|] == et;
      assert s[0] == t[0];
      assert Utf8(s[1..]) == Utf8(s)[|es|..] == Utf8(t[1..]);
      Utf8Injective(s[1..], t[1..]);
      assert s == [s[0]] + s[1..] && t == [t[0]] + t[1..];
    }
  }

  // ---------------------------------------------------------------------------
  // .hexdigest()
  // ---------------------------------------------------------------------------

  /** The lower-case hexadecimal digit of a value below 16: `0`-`9`, then `a`-`f`. */
  function HexDigit(v: nat): (c: char)
    requires v < 16
  {
    if v < 10 then ('0' as int + v) as char else ('a' as int + v - 10) as char
  }

  /** A lower-case hexadecimal digit, as `hexdigest()` writes them. */
  predicate IsHexDigit(c: char) {
    '0' <= c <= '9' || 'a' <= c <= 'f'
  }

  /** The value of a hexadecimal digit: the inverse of `HexDigit`. */
  function HexValue(c: char): (v: nat)
    requires IsHexDigit(c)
    ensures v < 16 && HexDigit(v) == c
  {
    if c <= '9' then c as int - '0' as int else c as int - 'a' as int + 10
  }

  /** Every digit written is read back as the value it was written for. */
  lemma HexDigitRoundTrip(v: nat)
    requires v < 16
    ensures IsHexDigit(HexDigit(v)) && HexValue(HexDigit(v)) == v
  {
  }

  /** `digest.hex()`: two lower-case hexadecimal digits per byte, high nibble first. */
  function HexDigest(d: seq<byte>): (h: string)
    ensures |h| == 2 * |d|
    ensures forall i | 0 <= i < |h| :: IsHexDigit(h[i])
  {
    if d == [] then [] else [HexDigit(d[0] / 16), HexDigit(d[0] % 16)] + HexDigest(d[1..])
  }

  /** The bytes a well-formed hexadecimal string stands for. */
  function UnHex(h: string): (d: seq<byte>)
    requires |h| % 2 == 0
    requires forall i | 0 <= i < |h| :: IsHexDigit(h[i])
    ensures |d| == |h| / 2
  {
    if h == [] then [] else [HexValue(h[0]) * 16 + HexValue(h[1])] + UnHex(h[2..])
  }

  /** Reading a hex digest back gives the digest. */
  lemma {:induction false} UnHexOfHexDigest(d: seq<byte>)
    ensures UnHex(HexDigest(d)) == d
  {
    if d != [] {
      var h := HexDigest(d);
      assert h[2..] == HexDigest(d[1..]);
      HexDigitRoundTrip(d[0] / 16);
      HexDigitRoundTrip(d[0] % 16);
      UnHexOfHexDigest(d[1..]);
    }
  }

  // ---------------------------------------------------------------------------
  // hash_password and verify_password
  // ---------------------------------------------------------------------------

  /** A string of the shape `hash_password` returns: 64 lower-case hexadecimal digits. */
  predicate IsHashShaped(h: string) {
    |h| == 64 && forall i | 0 <= i < |h| :: IsHexDigit(h[i])
  }

  /** `hash_password(plain)`: `sha256(plain.encode()).hexdigest()`. */
  function HashPassword(sha: Sha256, plain: string): (h: string)
    ensures IsHashShaped(h)
  {
    HexDigest(sha(Utf8(plain)))
  }

  /** `verify_password(plain, hashed)`: hash the candidate and compare the strings. */
  predicate VerifyPassword(sha: Sha256, plain: string, hashed: string): (b: bool)
    ensures b ==> IsHashShaped(hashed)
  {
    HashPassword(sha, plain) == hashed
  }

  /** A password is accepted against its own hash. */
  lemma VerifyOwnHash(sha: Sha256, plain: string)
    ensures VerifyPassword(sha, plain, HashPassword(sha, plain))
  {
  }

  /** No password is accepted against a stored value that is not 64 lower-case hexadecimal digits. */
  lemma VerifyRejectsMalformed(sha: Sha256, plain: string, hashed: string)
    requires !IsHashShaped(hashed)
    ensures !VerifyPassword(sha, plain, hashed)
  {
  }

  /**
   * A password is accepted against the hash of a different password only
   * through a SHA-256 collision: the two encodings differ and have the same digest.
   */
  lemma WrongPasswordNeedsCollision(sha: Sha256, plain: string, other: string)
    requires plain != other
    requires VerifyPassword(sha, plain, HashPassword(sha, other))
    ensures Utf8(plain) != Utf8(other) && sha(Utf8(plain)) == sha(Utf8(other))
  {
    UnHexOfHexDigest(sha(Utf8(plain)));
    UnHexOfHexDigest(sha(Utf8(other)));
    if Utf8(plain) == Utf8(other) {
      Utf8Injective(plain, other);
    }
  }

  // ---------------------------------------------------------------------------
  // The users table of backend/models.py, and create_user / get_user_by_email
  // ---------------------------------------------------------------------------

  /** A row of the SQLAlchemy `User` model. */
  datatype User = User(id: nat, fullName: string, email: string, hashedPassword: string)

  /** The first user whose email equals `email`: `query(User).filter(User.email == email).first()`. */
  function FirstWithEmail(users: seq<User>, email: string): (r: Option<User>)
    ensures r.None? <==> forall i | 0 <= i < |users| :: users[i].email != email
    ensures r.Some? ==> exists i | 0 <= i < |users| :: users[i] == r.value && r.value.email == email
                          && forall j | 0 <= j < i :: users[j].email != email
  {
    if users == [] then None
    else if users[0].email == email then Some(users[0])
    else
      var r := FirstWithEmail(users[1..], email);
      assert r.Some? ==> exists i | 0 <= i < |users| - 1 :: users[1..][i] == r.value && r.value.email == email
                           && forall j | 0 <= j < i :: users[1..][j] != r.value && users[1..][j].email != email;
      r
  }

  /** The row id SQLite gives the next insert into a table without AUTOINCREMENT: one more than the largest id. */
  function NextRowId(users: seq<User>): (id: nat)
    requires forall i, j | 0 <= i < j < |users| :: users[i].id < users[j].id
    ensures forall i | 0 <= i < |users| :: users[i].id < id
  {
    if users == [] then 1 else users[|users| - 1].id + 1
  }

  /** Ids increase in insertion order and no two users share an email. */
  ghost predicate TableValid(users: seq<User>) {
    && (forall i, j | 0 <= i < j < |users| :: users[i].id < users[j].id)
    && (forall i, j | 0 <= i < j < |users| :: users[i].email != users[j].email)
  }

  /** Appending a user with a new email under the next row id keeps the table valid. */
  lemma AppendKeepsTableValid(users: seq<User>, row: User)
    requires TableValid(users)
    requires row.id == NextRowId(users)
    requires forall i | 0 <= i < |users| :: users[i].email != row.email
    ensures TableValid(users + [row])
  {
    var all := users + [row];
    forall i, j | 0 <= i < j < |all| ensures all[i].id < all[j].id && all[i].email != all[j].email {
      assert all[i] == users[i];
    }
  }

  class UserTable {
    var users: seq<User>

    /** Ids increase in insertion order and `email` is unique (`unique=True`). */
    ghost predicate Valid()
      reads this
    {
      TableValid(users)
    }

    constructor ()
      ensures Valid() && users == []
    {
      users := [];
    }

    /**
     * `create_user(full_name, email, password)`: stores the hash of the password,
     * never the password. `None` stands for the IntegrityError that the unique
     * email raises at commit, after which the table is unchanged.
     */
    method CreateUser(sha: Sha256, fullName: string, email: string, password: string) returns (user: Option<User>)
      requires Valid()
      modifies this
      ensures Valid()
      ensures user.None? <==> exists i | 0 <= i < |old(users)| :: old(users)[i].email == email
      ensures user.None? ==> users == old(users)
      ensures user.Some? ==>
                && user.value == User(NextRowId(old(users)), fullName, email, HashPassword(sha, password))
                && users == old(users) + [user.value]
      ensures user.Some? ==> GetUserByEmail(email) == user && VerifyPassword(sha, password, user.value.hashedPassword)
    {
      var hashed := HashPassword(sha, password);
      var existing := FirstWithEmail(users, email);
      if existing.Some? {
        return None;
      }
      var row := User(NextRowId(users), fullName, email, hashed);
      CreatedUserSignsIn(sha, users, row.id, fullName, email, password);
      AppendKeepsTableValid(users, row);
      users := users + [row];
      user := Some(row);
    }

    /** `get_user_by_email(email)`: the first user with exactly that email, or `None`. */
    function GetUserByEmail(email: string): (r: Option<User>)
      reads this
      ensures r.None? <==> forall i | 0 <= i < |users| :: users[i].email != email
      ensures r.Some? ==> r.value in users && r.value.email == email
    {
      FirstWithEmail(users, email)
    }

    /** With unique emails, the user found is the only one with that email. */
    lemma GetUserByEmailIsUnique(email: string, u: User)
      requires Valid()
      requires u in users && u.email == email
      ensures GetUserByEmail(email) == Some(u)
    {
    }
  }

  /** The user `create_user` returns can be found by its email and accepts the password it was created with. */
  lemma CreatedUserSignsIn(sha: Sha256, before: seq<User>, id: nat, fullName: string, email: string, password: string)
    requires forall i | 0 <= i < |before| :: before[i].email != email
    ensures var row := User(id, fullName, email, HashPassword(sha, password));
      FirstWithEmail(before + [row], email) == Some(row)
      && VerifyPassword(sha, password, row.hashedPassword)
  {
    var row := User(id, fullName, email, HashPassword(sha, password));
    var all := before + [row];
    assert all[|before|] == row;
    var i :| 0 <= i < |all| && all[i] == FirstWithEmail(all, email).value && all[i].email == email;
    assert i == |before|;
  }
}
