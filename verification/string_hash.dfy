/** The 32-bit polynomial string hash shared by the community-wall layout
    (`seededRandom` in app/components/InfiniteCanvas.tsx) and the two
    link-preview scripts (`hashUrl` in scripts/generate-link-previews.ts and
    scripts/fix-failed-previews.ts). All three fold the string's UTF-16 code
    units with `hash = (hash << 5) - hash + char; hash = hash & hash`. */
module StringHash {
  import opened JsText
  import opened Arith

  const TwoTo31: int := 0x8000_0000
  const TwoTo32: int := 0x1_0000_0000

  predicate IsInt32(x: int) {
    -TwoTo31 <= x < TwoTo31
  }

  /** ECMAScript's ToInt32 on an integral value: the unique 32-bit signed
      integer congruent to `x` modulo 2^32 (what `|`, `&` and `<<` apply to
      their operands and results). */
  function ToInt32(x: int): (r: int)
    ensures IsInt32(r)
    ensures IsInt32(x) ==> r == x
  {
    (x + TwoTo31) % TwoTo32 - TwoTo31
  }

  /** ToInt32 only looks at its argument modulo 2^32. */
  lemma ToInt32Congruent(x: int, y: int, k: int)
    requires x == y + k * TwoTo32
    ensures ToInt32(x) == ToInt32(y)
  {
    ModShift(x + TwoTo31, y + TwoTo31, k, TwoTo32);
  }

  /** ToInt32 moves its argument by a whole number of 2^32 steps. */
  lemma ToInt32Offset(x: int)
    ensures exists k :: ToInt32(x) == x + k * TwoTo32
  {
    var k := -((x + TwoTo31) / TwoTo32);
    assert ToInt32(x) == x + k * TwoTo32;
  }

  /** JavaScript's `h << 5` on a 32-bit integer. */
  function ShiftLeft5(h: int): int {
    ToInt32(h * 32)
  }

  /** One step of the loop body as written in the source:
      `hash = (hash << 5) - hash + char; hash = hash & hash`. The middle value
      is exact in a double, and `x & x` is ToInt32(x). */
  function SourceStep(h: int, c: int): int {
    ToInt32(ShiftLeft5(h) - h + c)
  }

  /** The same step as a polynomial recurrence: `h := toInt32(31*h + c)`. */
  function Step(h: int, c: int): (r: int)
    ensures IsInt32(r)
  {
    ToInt32(31 * h + c)
  }

  /** The source's shift-and-subtract step is the recurrence
      `h := toInt32(31*h + c)`. */
  lemma SourceStepIsPolynomial(h: int, c: int)
    ensures SourceStep(h, c) == Step(h, c)
  {
    ToInt32Offset(h * 32);
    var k :| ShiftLeft5(h) == h * 32 + k * TwoTo32;
    ToInt32Congruent(ShiftLeft5(h) - h + c, 31 * h + c, k);
  }

  /** The hash of a sequence of UTF-16 code units, folding from the left and
      starting at 0. */
  function Hash(units: seq<int>): (h: int)
    ensures IsInt32(h)
    ensures units == [] ==> h == 0
  {
    if units == [] then 0
    else Step(Hash(units[..|units| - 1]), units[|units| - 1])
  }

  /** The hash of a string: the fold over its UTF-16 code units
      (`charCodeAt(i)` for `i < s.length`). */
  function HashOf(s: string): int {
    Hash(Utf16(s))
  }

  /** Two code-unit sequences that share a prefix and end in different code
      units (both below 2^16) hash differently: this is what makes the
      `_angle_<attempt>` and `_radius_<attempt>` seed suffixes produce a new
      value for every attempt digit. */
  lemma LastUnitSeparates(p: seq<int>, a: int, b: int)
    requires 0 <= a < 0x1_0000 && 0 <= b < 0x1_0000 && a != b
    ensures Hash(p + [a]) != Hash(p + [b])
  {
    assert (p + [a])[..|p|] == p;
    assert (p + [b])[..|p|] == p;
    var h := Hash(p);
    var x, y := 31 * h + a, 31 * h + b;
    ToInt32Offset(x);
    ToInt32Offset(y);
    var kx :| ToInt32(x) == x + kx * TwoTo32;
    var ky :| ToInt32(y) == y + ky * TwoTo32;
    if ky - kx != 0 {
      MultipleFarFromZero(ky - kx, TwoTo32);
    }
  }

  function Abs(x: int): nat {
    if x < 0 then -x else x
  }

  /** JavaScript's `%` on integers: the remainder truncates toward zero, so
      it takes the sign of the dividend. */
  function JsRem(a: int, b: int): int
    requires b > 0
  {
    if a >= 0 then a % b else -((-a) % b)
  }

  lemma AbsJsRem(a: int, b: int)
    requires b > 0
    ensures Abs(JsRem(a, b)) == Abs(a) % b
  {
  }

  // ---------------------------------------------------------------------
  // Hexadecimal keys: `Math.abs(hash).toString(16).padStart(12, "0").slice(0, 12)`

  function HexDigit(d: nat): (c: char)
    requires d < 16
    ensures IsHexDigit(c) && HexDigitValue(c) == d
  {
    "0123456789abcdef"[d]
  }

  predicate IsHexDigit(c: char) {
    ('0' <= c <= '9') || ('a' <= c <= 'f')
  }

  predicate AllHex(s: string) {
    forall i :: 0 <= i < |s| ==> IsHexDigit(s[i])
  }

  function HexDigitValue(c: char): nat
    requires IsHexDigit(c)
  {
    if '0' <= c <= '9' then c as int - '0' as int else c as int - 'a' as int + 10
  }

  /** The value of a lower-case hexadecimal string (what `parseInt(s, 16)`
      gives for one). */
  function HexValue(s: string): nat
    requires AllHex(s)
  {
    if s == [] then 0
    else HexValue(s[..|s| - 1]) * 16 + HexDigitValue(s[|s| - 1])
  }

  /** `n.toString(16)` for a non-negative integer. */
  function ToHex(n: nat): (s: string)
    ensures |s| >= 1 && AllHex(s)
    ensures HexValue(s) == n
  {
    if n < 16 then [HexDigit(n)]
    else
      var high := ToHex(n / 16);
      var r := high + [HexDigit(n % 16)];
      assert r[..|r| - 1] == high;
      r
  }

  function Pow16(k: nat): nat {
    if k == 0 then 1 else 16 * Pow16(k - 1)
  }

  lemma {:induction false} ToHexLength(n: nat, k: nat)
    requires 1 <= k && n < Pow16(k)
    ensures |ToHex(n)| <= k
  {
    if n >= 16 {
      assert k >= 2;
      ToHexLength(n / 16, k - 1);
    }
  }

  /** `n` copies of `c`. */
  function Repeat(c: char, n: nat): (r: string)
    ensures |r| == n && forall i :: 0 <= i < n ==> r[i] == c
  {
    if n == 0 then [] else [c] + Repeat(c, n - 1)
  }

  /** `s.padStart(width, c)`. */
  function PadStart(s: string, width: nat, c: char): (r: string)
    ensures |r| == if |s| >= width then |s| else width
    ensures r == Repeat(c, |r| - |s|) + s
  {
    if |s| >= width then s else Repeat(c, width - |s|) + s
  }

  /** `s.slice(0, n)`. */
  function SliceTo(s: string, n: nat): (r: string)
    ensures |r| == if |s| < n then |s| else n
  {
    if |s| < n then s else s[..n]
  }

  lemma {:induction false} ZerosHexValue(z: string, s: string)
    requires AllHex(s)
    requires forall i :: 0 <= i < |z| ==> z[i] == '0'
    ensures AllHex(z + s) && HexValue(z + s) == HexValue(s)
    decreases |s|
  {
    if s == [] {
      assert z + s == z;
      ZerosValue(z);
    } else {
      var s' := s[..|s| - 1];
      assert (z + s)[..|z + s| - 1] == z + s';
      ZerosHexValue(z, s');
    }
  }

  lemma {:induction false} ZerosValue(z: string)
    requires forall i :: 0 <= i < |z| ==> z[i] == '0'
    ensures AllHex(z) && HexValue(z) == 0
  {
    if z != [] {
      ZerosValue(z[..|z| - 1]);
    }
  }

  /** The manifest key of a hash: `Math.abs(hash).toString(16)` padded with
      zeros to 12 characters and cut to 12. */
  function HexKey(h: int): (key: string)
    requires IsInt32(h)
    ensures |key| == 12 && AllHex(key)
    ensures key[..4] == "0000"
    ensures HexValue(key) == Abs(h)
  {
    var hex := ToHex(Abs(h));
    assert Pow16(8) == TwoTo32;
    ToHexLength(Abs(h), 8);
    var padded := PadStart(hex, 12, '0');
    ZerosHexValue(Repeat('0', |padded| - |hex|), hex);
    assert padded[..12] == padded;
    SliceTo(padded, 12)
  }

  /** Distinct absolute hash values give distinct keys: the key loses
      nothing of `Math.abs(hash)`. */
  lemma HexKeyInjective(h1: int, h2: int)
    requires IsInt32(h1) && IsInt32(h2)
    requires HexKey(h1) == HexKey(h2)
    ensures Abs(h1) == Abs(h2)
  {
  }
}
