/**
 * Document identifiers and the text forms the route handlers pass them through:
 * `str(ObjectId)`, `ObjectId(s)`, the `oid` helper that strips its argument first,
 * and the decimal text of generated account numbers.
 */
module Ids {
  import opened Results

  /** A stored `_id` or `user_id`: a BSON ObjectId (its 12 bytes read as a number) or a
      plain string. The store compares the two kinds as different values, so a `user_id`
      written as one kind is never matched by a query that uses the other. */
  datatype Id = Oid(n: nat) | Str(s: string)

  function Pow16(w: nat): (r: nat)
    ensures r >= 1
  {
    if w == 0 then 1 else 16 * Pow16(w - 1)
  }

  /** An ObjectId is 12 bytes, i.e. 24 hexadecimal digits. */
  const OidDigits: nat := 24

  // ---------- hexadecimal ----------

  predicate IsHexChar(c: char) {
    '0' <= c <= '9' || 'a' <= c <= 'f' || 'A' <= c <= 'F'
  }

  predicate AllHex(s: string) {
    forall i :: 0 <= i < |s| ==> IsHexChar(s[i])
  }

  function HexValue(c: char): (v: nat)
    requires IsHexChar(c)
    ensures v < 16
  {
    if '0' <= c <= '9' then (c - '0') as nat
    else if 'a' <= c <= 'f' then (c - 'a') as nat + 10
    else (c - 'A') as nat + 10
  }

  function HexDigit(d: nat): (c: char)
    requires d < 16
    ensures IsHexChar(c) && HexValue(c) == d
  {
    if d < 10 then ('0' as int + d) as char else ('a' as int + d - 10) as char
  }

  /** The `w` lowest hexadecimal digits of `n`, most significant first, lower case. */
  function Hex(n: nat, w: nat): (s: string)
    ensures |s| == w && AllHex(s)
  {
    if w == 0 then [] else Hex(n / 16, w - 1) + [HexDigit(n % 16)]
  }

  /** The number a string of hexadecimal digits denotes (either case). */
  function HexNumber(s: string): (v: nat)
    requires AllHex(s)
    ensures v < Pow16(|s|)
  {
    if s == [] then 0 else 16 * HexNumber(s[..|s| - 1]) + HexValue(s[|s| - 1])
  }

  lemma {:induction false} HexNumberOfHex(n: nat, w: nat)
    requires n < Pow16(w)
    ensures HexNumber(Hex(n, w)) == n
  {
    if w > 0 {
      var s := Hex(n, w);
      assert s[..w - 1] == Hex(n / 16, w - 1);
      HexNumberOfHex(n / 16, w - 1);
    }
  }

  // ---------- str() and ObjectId() ----------

  /** `str(x)` of a stored id: an ObjectId prints as its 24 lower-case hex digits. */
  function IdText(id: Id): string {
    match id
    case Oid(n) => Hex(n, OidDigits)
    case Str(s) => s
  }

  /** `ObjectId(s)` for a string argument: it accepts exactly 24 hexadecimal digits and
      raises otherwise (None). */
  function ObjectIdOf(s: string): (r: Option<nat>)
    ensures r.Some? <==> |s| == OidDigits && AllHex(s)
    ensures r.Some? ==> r.value < Pow16(OidDigits)
  {
    if |s| == OidDigits && AllHex(s) then Some(HexNumber(s)) else None
  }

  // ---------- str.strip() ----------

  /** The ASCII characters `str.strip()` removes, those `str.isspace()` holds for: space,
      tab through carriage return, and the file, group, record and unit separators. */
  predicate IsSpace(c: char) {
    c == ' ' || '\t' <= c <= '\r' || '\U{1C}' <= c <= '\U{1F}'
  }

  function StripLeft(s: string): (r: string)
    ensures |r| <= |s| && r == s[|s| - |r|..]
    ensures r == [] || !IsSpace(r[0])
    ensures forall i :: 0 <= i < |s| - |r| ==> IsSpace(s[i])
  {
    if s != [] && IsSpace(s[0]) then StripLeft(s[1..]) else s
  }

  function StripRight(s: string): (r: string)
    ensures |r| <= |s| && r == s[..|r|]
    ensures r == [] || !IsSpace(r[|r| - 1])
    ensures forall i :: |r| <= i < |s| ==> IsSpace(s[i])
  {
    if s != [] && IsSpace(s[|s| - 1]) then StripRight(s[..|s| - 1]) else s
  }

  /** `s.strip()`: the longest infix of `s` with no whitespace at either end, obtained by
      dropping only whitespace. */
  function Strip(s: string): (r: string)
    ensures r == [] || (!IsSpace(r[0]) && !IsSpace(r[|r| - 1]))
    ensures |StripLeft(s)| <= |s| && |r| <= |StripLeft(s)|
    ensures r == s[|s| - |StripLeft(s)|..|s| - |StripLeft(s)| + |r|]
  {
    StripRight(StripLeft(s))
  }

  lemma StripUnpadded(s: string)
    requires s == [] || (!IsSpace(s[0]) && !IsSpace(s[|s| - 1]))
    ensures Strip(s) == s
  {
  }

  /** The `oid` helper of the admin, loans and accounts routes: `ObjectId(s.strip())`.
      None stands for its 400 "Invalid id format" (accounts: "Invalid user_id format"). */
  function OidArg(s: string): (r: Option<nat>)
    ensures r.Some? ==> r.value < Pow16(OidDigits)
  {
    ObjectIdOf(Strip(s))
  }

  /** `ObjectId(str(x))` is `x`. */
  lemma ObjectIdOfText(n: nat)
    requires n < Pow16(OidDigits)
    ensures ObjectIdOf(IdText(Oid(n))) == Some(n)
  {
    HexNumberOfHex(n, OidDigits);
  }

  /** What `str(ObjectId)` prints is accepted back by `oid(...)` and denotes the same id
      (ObjectIdOfText is the same for `ObjectId(...)`): an id a handler returns can be
      passed to another handler. */
  lemma ObjectIdRoundTrip(n: nat)
    requires n < Pow16(OidDigits)
    ensures OidArg(IdText(Oid(n))) == Some(n)
  {
    var s := IdText(Oid(n));
    ObjectIdOfText(n);
    assert !IsSpace(s[0]) && !IsSpace(s[|s| - 1]);
    StripUnpadded(s);
  }

  /** A printed id with whitespace in front, a separator such as U+001C included, is still
      accepted by `oid` as the same id. */
  lemma OidArgSkipsLeadingSpace(c: char, n: nat)
    requires IsSpace(c) && n < Pow16(OidDigits)
    ensures OidArg([c] + IdText(Oid(n))) == Some(n)
  {
    var s := IdText(Oid(n));
    assert ([c] + s)[1..] == s;
    assert !IsSpace(s[0]) && !IsSpace(s[|s| - 1]);
    StripUnpadded(s);
    ObjectIdOfText(n);
  }

  /** `oid` tolerates surrounding whitespace but nothing else: a string it accepts is
      24 hex digits once stripped. */
  lemma OidArgAccepts(s: string)
    ensures OidArg(s).Some? <==> |Strip(s)| == OidDigits && AllHex(Strip(s))
  {
  }

  // ---------- decimal text of account numbers ----------

  predicate IsDigitChar(c: char) {
    '0' <= c <= '9'
  }

  /** Python's `str.isdigit()` on ASCII text: non-empty and all digits. */
  predicate IsDigits(s: string) {
    |s| > 0 && forall i :: 0 <= i < |s| ==> IsDigitChar(s[i])
  }

  function Pow10(k: nat): (r: nat)
    ensures r >= 1
  {
    if k == 0 then 1 else 10 * Pow10(k - 1)
  }

  /** `str(n)` of a non-negative int: its decimal digits, without leading zeros. */
  function Decimal(n: nat): (s: string)
    ensures IsDigits(s)
    ensures (s[0] == '0') == (n == 0)
  {
    if n < 10 then [('0' as int + n) as char]
    else Decimal(n / 10) + [('0' as int + n % 10) as char]
  }

  lemma {:induction false} DecimalLength(n: nat, k: nat)
    requires Pow10(k) <= n < Pow10(k + 1)
    ensures |Decimal(n)| == k + 1
  {
    if k > 0 {
      DecimalLength(n / 10, k - 1);
    }
  }

  /** The lowest and highest number `random.randint(10_000_000, 99_999_999)` can draw. */
  const AccountNumberLow: nat := 10_000_000
  const AccountNumberHigh: nat := 99_999_999

  /** A drawn account number prints as exactly eight digits, the first not zero, so it
      passes the `isdigit()` check of the by-account lookups. */
  lemma AccountNumberShape(n: nat)
    requires AccountNumberLow <= n <= AccountNumberHigh
    ensures |Decimal(n)| == 8 && IsDigits(Decimal(n)) && Decimal(n)[0] != '0'
  {
    assert Pow10(7) == 10_000_000 && Pow10(8) == 100_000_000;
    DecimalLength(n, 7);
  }
}
