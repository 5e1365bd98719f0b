/** The pieces of JavaScript's string semantics that the modelled code relies
    on: the `\s` character class and `trim`, the case mapping the slug sees, prefix and
    substring tests, decimal rendering of non-negative integers
    (`Number.prototype.toString`) and `charCodeAt`'s UTF-16 code units. */
module JsText {
  import Seqs

  /** The code points JavaScript treats as line terminators (`^`/`$` in
      multiline mode and `.` stop at these). */
  predicate IsLineTerminator(c: char) {
    c == '\n' || c == '\r' || c == '\U{2028}' || c == '\U{2029}'
  }

  /** The characters matched by the regular-expression class `\s`, which are
      also the characters `String.prototype.trim` removes. */
  predicate IsWhitespace(c: char) {
    || IsLineTerminator(c)
    || c == '\t' || c == '\U{000B}' || c == '\U{000C}' || c == ' '
    || c == '\U{00A0}' || c == '\U{1680}' || ('\U{2000}' <= c <= '\U{200A}')
    || c == '\U{202F}' || c == '\U{205F}' || c == '\U{3000}' || c == '\U{FEFF}'
  }

  predicate AllWhitespace(s: string) {
    forall i :: 0 <= i < |s| ==> IsWhitespace(s[i])
  }

  /** `s.replace(/\s+/g, sep)`: every maximal run of whitespace becomes
      one `sep`; `inRun` says the character before `s` was whitespace, so
      the `sep` for its run is already written. */
  function CollapseWhitespace(s: string, inRun: bool, sep: char): string {
    if s == [] then []
    else if IsWhitespace(s[0]) then (if inRun then [] else [sep]) + CollapseWhitespace(s[1..], true, sep)
    else [s[0]] + CollapseWhitespace(s[1..], false, sep)
  }

  /** `s.trimStart()`: the suffix left after dropping leading whitespace. */
  function TrimStart(s: string): (r: string)
    ensures |r| <= |s| && r == s[|s| - |r|..]
    ensures AllWhitespace(s[..|s| - |r|])
    ensures r == [] || !IsWhitespace(r[0])
  {
    if s == [] || !IsWhitespace(s[0]) then s
    else TrimStart(s[1..])
  }

  /** `s.trimEnd()`: the prefix left after dropping trailing whitespace. */
  function TrimEnd(s: string): (r: string)
    ensures |r| <= |s| && r == s[..|r|]
    ensures AllWhitespace(s[|r|..])
    ensures r == [] || !IsWhitespace(r[|r| - 1])
  {
    if s == [] || !IsWhitespace(s[|s| - 1]) then s
    else TrimEnd(s[..|s| - 1])
  }

  /** `s.trim()`. */
  function Trim(s: string): string {
    TrimEnd(TrimStart(s))
  }

  /** Where the result of `trim` starts in its input. */
  function TrimOffset(s: string): nat {
    |s| - |TrimStart(s)|
  }

  /** The result of `trim` is the piece of its input that starts at
      `TrimOffset(s)`, with only whitespace cut from either end. */
  lemma TrimShape(s: string)
    ensures TrimOffset(s) + |Trim(s)| <= |s|
    ensures Trim(s) == s[TrimOffset(s)..TrimOffset(s) + |Trim(s)|]
    ensures AllWhitespace(s[..TrimOffset(s)])
    ensures AllWhitespace(s[TrimOffset(s) + |Trim(s)|..])
  {
    var t := TrimStart(s);
    var k := TrimOffset(s);
    assert s[k + |Trim(s)|..] == t[|Trim(s)|..];
  }

  /** `trim` leaves neither leading nor trailing whitespace. */
  lemma TrimEnds(s: string)
    ensures Trim(s) == [] || (!IsWhitespace(Trim(s)[0]) && !IsWhitespace(Trim(s)[|Trim(s)| - 1]))
  {
    var t := TrimStart(s);
    if Trim(s) != [] {
      assert Trim(s)[0] == t[0];
    }
  }

  /** Exactly the whitespace-only strings trim to the empty string. */
  lemma TrimEmptyIff(s: string)
    ensures AllWhitespace(s) <==> Trim(s) == []
  {
    TrimShape(s);
    TrimEnds(s);
    var k := TrimOffset(s);
    var r := Trim(s);
    if r == [] {
      forall i | 0 <= i < |s| ensures IsWhitespace(s[i]) {
        assert s[i] == s[..k][i];
      }
    }
  }

  /** A string that neither starts nor ends with whitespace trims to itself. */
  lemma TrimIdentity(s: string)
    requires s == [] || (!IsWhitespace(s[0]) && !IsWhitespace(s[|s| - 1]))
    ensures Trim(s) == s
  {
  }

  /** The upper-case characters whose lower-case form contains an ASCII
      letter: `A`-`Z`, U+0130 (capital I with dot above) and U+212A (the
      Kelvin sign). Every other character lower-cases to characters outside
      ASCII, or to itself. */
  predicate IsUpper(c: char) {
    ('A' <= c <= 'Z') || c == '\U{0130}' || c == '\U{212A}'
  }

  /** `toLowerCase` on a character other than U+0130, which is the one
      character here whose lower-case form is two code units: the Kelvin sign
      becomes `k`, and characters that are not `IsUpper` are kept. */
  function LowerChar(c: char): (d: char)
    requires c != '\U{0130}'
    ensures !IsUpper(d)
    ensures !IsUpper(c) ==> d == c
  {
    if 'A' <= c <= 'Z' then (c as int + 32) as char
    else if c == '\U{212A}' then 'k'
    else c
  }

  /** `s.toLowerCase()`, where U+0130 becomes `i` followed by U+0307
      (combining dot above): no `IsUpper` character is left. */
  function Lower(s: string): (r: string)
    ensures forall c :: c in r ==> !IsUpper(c)
  {
    if s == [] then []
    else if s[0] == '\U{0130}' then "i\U{0307}" + Lower(s[1..])
    else [LowerChar(s[0])] + Lower(s[1..])
  }

  /** A string without `IsUpper` characters is its own lower-case form. */
  lemma {:induction false} LowerIdentity(s: string)
    requires forall i :: 0 <= i < |s| ==> !IsUpper(s[i])
    ensures Lower(s) == s
  {
    if s != [] {
      LowerIdentity(s[1..]);
      assert s == [s[0]] + s[1..];
    }
  }

  /** Only U+0130 changes the length: every other character lower-cases to
      one code unit. */
  lemma {:induction false} LowerLength(s: string)
    ensures |Lower(s)| == |s| + Seqs.Count(s, '\U{0130}')
  {
    if s != [] {
      LowerLength(s[1..]);
    }
  }

  /** Letters are lower-cased, including the two non-ASCII letters whose
      lower-case forms hold ASCII letters. */
  lemma LowerCases()
    ensures Lower("Ab") == "ab"
    ensures Lower("\U{0130}") == "i\U{0307}"
    ensures Lower("\U{212A}") == "k"
  {
    assert "Ab"[1..] == "b";
  }

  /** `s.includes(sub)`. */
  predicate Contains(s: string, sub: string) {
    exists i | 0 <= i <= |s| - |sub| :: sub <= s[i..]
  }

  /** The character of a decimal digit value. */
  function DigitChar(d: nat): (c: char)
    requires d < 10
    ensures '0' <= c <= '9'
  {
    (d + '0' as int) as char
  }

  predicate IsDigit(c: char) {
    '0' <= c <= '9'
  }

  predicate AllDigits(s: string) {
    forall i :: 0 <= i < |s| ==> IsDigit(s[i])
  }

  /** The value of a string of decimal digits (`Number(s)` for such a string;
      the empty string is 0, as in JavaScript). */
  function DigitsValue(s: string): nat
    requires AllDigits(s)
  {
    if s == [] then 0
    else DigitsValue(s[..|s| - 1]) * 10 + (s[|s| - 1] as int - '0' as int)
  }

  /** `String(n)` for a non-negative integer: its shortest decimal rendering. */
  function NatToString(n: nat): (s: string)
    ensures |s| >= 1 && AllDigits(s)
    ensures |s| > 1 ==> s[0] != '0'
    ensures DigitsValue(s) == n
  {
    if n < 10 then [DigitChar(n)]
    else NatToString(n / 10) + [DigitChar(n % 10)]
  }

  /** Rendering is injective, because parsing undoes it. */
  lemma NatToStringInjective(a: nat, b: nat)
    requires NatToString(a) == NatToString(b)
    ensures a == b
  {
    assert DigitsValue(NatToString(a)) == a;
  }

  /** The UTF-16 code units JavaScript stores for one code point
      (what `charCodeAt` reads). */
  function CodeUnits(c: char): (u: seq<int>)
    ensures 1 <= |u| <= 2
    ensures forall i :: 0 <= i < |u| ==> 0 <= u[i] < 0x1_0000
    ensures (c as int) < 0x1_0000 ==> u == [c as int]
  {
    var v := c as int;
    if v < 0x1_0000 then [v]
    else [0xD800 + (v - 0x1_0000) / 0x400, 0xDC00 + (v - 0x1_0000) % 0x400]
  }

  /** The UTF-16 code units of a string, in order; `s.length` in JavaScript is
      the length of this sequence. */
  function Utf16(s: string): (u: seq<int>)
    ensures |u| >= |s|
    ensures forall i :: 0 <= i < |u| ==> 0 <= u[i] < 0x1_0000
  {
    if s == [] then [] else Utf16(s[..|s| - 1]) + CodeUnits(s[|s| - 1])
  }

  lemma Utf16Append(a: string, b: string)
    ensures Utf16(a + b) == Utf16(a) + Utf16(b)
    decreases |b|
  {
    if b == [] {
      assert a + b == a;
    } else {
      var b' := b[..|b| - 1];
      assert (a + b)[..|a + b| - 1] == a + b';
      Utf16Append(a, b');
    }
  }
}
