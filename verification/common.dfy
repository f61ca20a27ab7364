/** Shared vocabulary: an Option type standing in for nullable C pointers,
    the ASCII character classes of GLib and the C library, and the digit
    scanning that strtoul, atoi and printf("%d") / printf("%02X") share. */
module Common {

  /** A nullable value: `None` plays the part of a NULL pointer. */
  datatype Option<+T> = None | Some(value: T)

  /** Unsigned 32-bit C integer (`guint`). */
  type uint32 = x: int | 0 <= x < 0x1_0000_0000

  const UINT32_LIMIT: int := 0x1_0000_0000

  /** Unsigned 64-bit C integer (`unsigned long` on an LP64 platform). */
  const ULONG_MAX: int := 0xFFFF_FFFF_FFFF_FFFF

  function Max(a: int, b: int): int { if a < b then b else a }
  function Min(a: int, b: int): int { if a < b then a else b }

  // ---------------------------------------------------------------------
  // ASCII character classes (g_ascii_isupper, g_ascii_toupper, isspace, ...)
  // ---------------------------------------------------------------------

  predicate IsUpper(c: char) { 'A' <= c <= 'Z' }
  predicate IsLower(c: char) { 'a' <= c <= 'z' }

  /** g_ascii_toupper: only ASCII lower-case letters change. */
  function ToUpper(c: char): (r: char)
    ensures IsLower(c) ==> IsUpper(r)
    ensures !IsLower(c) ==> r == c
  {
    if IsLower(c) then (c as int - 32) as char else c
  }

  /** g_ascii_tolower: only ASCII upper-case letters change. */
  function ToLower(c: char): (r: char)
    ensures IsUpper(c) ==> IsLower(r)
    ensures !IsUpper(c) ==> r == c
  {
    if IsUpper(c) then (c as int + 32) as char else c
  }

  lemma ToLowerToUpper(c: char)
    requires !IsUpper(c)
    ensures ToLower(ToUpper(c)) == c
  {
  }

  /** isspace in the C locale. */
  predicate IsSpace(c: char) {
    c == ' ' || c == '\t' || c == '\n' || c == '\r' || c == '\U{B}' || c == '\U{C}'
  }

  /** Case-insensitive ASCII string equality (g_ascii_strcasecmp(a, b) == 0). */
  predicate AsciiCaseEqual(a: string, b: string) {
    |a| == |b| && forall i :: 0 <= i < |a| ==> ToLower(a[i]) == ToLower(b[i])
  }

  // ---------------------------------------------------------------------
  // Digits in base 10 and base 16
  // ---------------------------------------------------------------------

  /** Value of an alphanumeric digit, 36 for anything else (never a digit). */
  function DigitValue(c: char): (r: nat)
    ensures r <= 36
  {
    if '0' <= c <= '9' then c as int - '0' as int
    else if 'a' <= c <= 'z' then c as int - 'a' as int + 10
    else if 'A' <= c <= 'Z' then c as int - 'A' as int + 10
    else 36
  }

  predicate IsDigitIn(c: char, base: nat) { DigitValue(c) < base }

  /** Number of leading characters of `s` that are digits in `base`. */
  function DigitRun(s: string, base: nat): (n: nat)
    ensures n <= |s|
    ensures forall i :: 0 <= i < n ==> IsDigitIn(s[i], base)
    ensures n < |s| ==> !IsDigitIn(s[n], base)
  {
    if |s| == 0 || !IsDigitIn(s[0], base) then 0 else 1 + DigitRun(s[1..], base)
  }

  /** Positional value of a digit string, most significant digit first. */
  function DigitsValue(ds: string, base: nat): nat
  {
    if |ds| == 0 then 0
    else DigitsValue(ds[..|ds| - 1], base) * base + DigitValue(ds[|ds| - 1])
  }

  function Pow(b: nat, e: nat): nat { if e == 0 then 1 else b * Pow(b, e - 1) }

  lemma MulAddShift(vx: int, p: int, vy: int, base: int, d: int)
    ensures (vx * p + vy) * base + d == vx * (p * base) + (vy * base + d)
  {
    assert (vx * p + vy) * base == vx * p * base + vy * base;
  }

  lemma {:induction false} DigitsValueAppend(x: string, y: string, base: nat)
    ensures DigitsValue(x + y, base) == DigitsValue(x, base) * Pow(base, |y|) + DigitsValue(y, base)
    decreases |y|
  {
    if |y| == 0 {
      assert x + y == x;
    } else {
      var y' := y[..|y| - 1];
      var d := DigitValue(y[|y| - 1]);
      assert (x + y)[..|x + y| - 1] == x + y';
      assert (x + y)[|x + y| - 1] == y[|y| - 1];
      assert DigitsValue(x + y, base) == DigitsValue(x + y', base) * base + d;
      assert DigitsValue(y, base) == DigitsValue(y', base) * base + d;
      DigitsValueAppend(x, y', base);
      MulAddShift(DigitsValue(x, base), Pow(base, |y'|), DigitsValue(y', base), base, d);
    }
  }

  lemma DigitRunAll(s: string, base: nat)
    requires forall i :: 0 <= i < |s| ==> IsDigitIn(s[i], base)
    ensures DigitRun(s, base) == |s|
  {
    if |s| > 0 {
      DigitRunAll(s[1..], base);
    }
  }

  // ---------------------------------------------------------------------
  // Upper-case hexadecimal digits, as printf("%X") writes them
  // ---------------------------------------------------------------------

  function HexChar(d: nat): (c: char)
    requires d < 16
    ensures DigitValue(c) == d
    ensures !IsLower(c) && c != 'x' && c != 'X'
  {
    if d < 10 then ('0' as int + d) as char else ('A' as int + d - 10) as char
  }

  /** printf("%02X", b): two upper-case hex digits. */
  function Hex2(b: nat): (s: string)
    requires b < 256
    ensures |s| == 2 && IsDigitIn(s[0], 16) && IsDigitIn(s[1], 16)
    ensures DigitsValue(s, 16) == b
  {
    var s := [HexChar(b / 16), HexChar(b % 16)];
    assert s[..1] == [s[0]] && s[..1][..0] == [];
    assert DigitsValue(s[..1], 16) == b / 16;
    s
  }

  // ---------------------------------------------------------------------
  // Decimal rendering, as printf("%d") writes a non-negative number
  // ---------------------------------------------------------------------

  function NatToString(n: nat): (s: string)
    ensures |s| > 0
    ensures forall i :: 0 <= i < |s| ==> '0' <= s[i] <= '9'
    decreases n
  {
    if n < 10 then [('0' as int + n) as char]
    else NatToString(n / 10) + [('0' as int + n % 10) as char]
  }

  /** The decimal rendering reads back as the number it renders. */
  lemma {:induction false} NatToStringValue(n: nat)
    ensures DigitsValue(NatToString(n), 10) == n
    decreases n
  {
    var s := NatToString(n);
    if n >= 10 {
      NatToStringValue(n / 10);
      assert s[..|s| - 1] == NatToString(n / 10);
    }
  }
}
