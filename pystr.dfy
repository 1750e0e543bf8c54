/** The Python `str` operations the packer relies on: whitespace and
    `strip`, prefix tests, substring tests, `.encode('utf-8')`, and the
    integer parser behind `int(s, 16)` and `int(s, 0)`. */
module PyStr {
  import opened Bytes

  /** `c.isspace()`. */
  predicate IsSpace(c: char) {
    ('\U{0009}' <= c <= '\U{000D}') || ('\U{001C}' <= c <= ' ') || c == '\U{0085}' || c == '\U{00A0}'
    || c == '\U{1680}' || ('\U{2000}' <= c <= '\U{200A}') || c == '\U{2028}' || c == '\U{2029}'
    || c == '\U{202F}' || c == '\U{205F}' || c == '\U{3000}'
  }

  /** `s.lstrip()` with the default whitespace set. */
  function LStrip(s: string): (t: string)
    ensures |t| <= |s| && t == s[|s| - |t|..]
    ensures t == [] || !IsSpace(t[0])
    ensures forall i :: 0 <= i < |s| - |t| ==> IsSpace(s[i])
  {
    if s != [] && IsSpace(s[0]) then
      var t := LStrip(s[1..]);
      assert forall i :: 1 <= i < |s| - |t| ==> s[i] == s[1..][i - 1];
      t
    else s
  }

  /** `s.rstrip()` with the default whitespace set. */
  function RStrip(s: string): (t: string)
    ensures |t| <= |s| && t == s[..|t|]
    ensures t == [] || !IsSpace(t[|t| - 1])
    ensures forall i :: |t| <= i < |s| ==> IsSpace(s[i])
  {
    if s != [] && IsSpace(s[|s| - 1]) then RStrip(s[..|s| - 1]) else s
  }

  /** `s.strip()`. */
  function Strip(s: string): string {
    RStrip(LStrip(s))
  }

  /** The whitespace `int()` skips around a numeral. CPython turns every
      non-ASCII whitespace character into a space and then skips the six
      ASCII spaces ` \t\n\v\f\r`; the separators U+001C..U+001F, which
      `str.isspace()` accepts, are not among them. */
  predicate IntSpace(c: char) {
    if c as int < 0x80 then ('\U{0009}' <= c <= '\U{000D}') || c == ' ' else IsSpace(c)
  }

  /** Every character `int()` skips is whitespace for `str.strip()`. */
  lemma IntSpaceIsSpace(c: char)
    ensures IntSpace(c) ==> IsSpace(c)
  {
  }

  /** The leading whitespace `int()` skips. */
  function IntLStrip(s: string): (t: string)
    ensures |t| <= |s| && t == s[|s| - |t|..]
    ensures t == [] || !IntSpace(t[0])
    ensures forall i :: 0 <= i < |s| - |t| ==> IntSpace(s[i])
  {
    if s != [] && IntSpace(s[0]) then
      var t := IntLStrip(s[1..]);
      assert forall i :: 1 <= i < |s| - |t| ==> s[i] == s[1..][i - 1];
      t
    else s
  }

  /** The trailing whitespace `int()` skips. */
  function IntRStrip(s: string): (t: string)
    ensures |t| <= |s| && t == s[..|t|]
    ensures t == [] || !IntSpace(t[|t| - 1])
    ensures forall i :: |t| <= i < |s| ==> IntSpace(s[i])
  {
    if s != [] && IntSpace(s[|s| - 1]) then IntRStrip(s[..|s| - 1]) else s
  }

  /** The numeral `int()` reads: `s` without the whitespace it skips. */
  function IntStrip(s: string): string {
    IntRStrip(IntLStrip(s))
  }

  /** A string that does not start or end with whitespace `int()` skips is
      its own numeral. */
  lemma IntStripPlain(s: string)
    requires s != [] && !IntSpace(s[0]) && !IntSpace(s[|s| - 1])
    ensures IntStrip(s) == s
  {
  }

  /** `s.lstrip(c)` for a single character `c`. */
  function LStripChar(s: string, c: char): (t: string)
    ensures |t| <= |s| && t == s[|s| - |t|..]
    ensures t == [] || t[0] != c
    ensures forall i :: 0 <= i < |s| - |t| ==> s[i] == c
  {
    if s != [] && s[0] == c then
      var t := LStripChar(s[1..], c);
      assert forall i :: 1 <= i < |s| - |t| ==> s[i] == s[1..][i - 1];
      t
    else s
  }

  /** `s.startswith(p)`. */
  predicate StartsWith(s: string, p: string) {
    |p| <= |s| && s[..|p|] == p
  }

  /** A POSIX path with a root: `PurePath(p).root` is `/`. `Path.glob`
      refuses such a pattern with `NotImplementedError`. */
  predicate Anchored(p: string) {
    p != [] && p[0] == '/'
  }

  /** `needle in hay` for two strings. */
  predicate IsSubstring(needle: string, hay: string)
    decreases |hay|
  {
    StartsWith(hay, needle) || (hay != [] && IsSubstring(needle, hay[1..]))
  }

  /** `s.lower()` restricted to ASCII letters. */
  function AsciiLower(s: string): (t: string)
    ensures |t| == |s|
  {
    seq(|s|, i requires 0 <= i < |s| => if 'A' <= s[i] <= 'Z' then (s[i] as int + 32) as char else s[i])
  }

  /** The UTF-8 encoding of one Unicode scalar value. */
  function EncodeChar(c: char): (b: Bytes)
    ensures 1 <= |b| <= 4
    ensures (b[0] == 0) == (c == '\0')
    ensures (b[|b| - 1] == 0) == (c == '\0')
  {
    var n := c as int;
    if n < 0x80 then [n as byte]
    else if n < 0x800 then [(0xC0 + n / 0x40) as byte, (0x80 + n % 0x40) as byte]
    else if n < 0x1_0000 then [(0xE0 + n / 0x1000) as byte, (0x80 + n / 0x40 % 0x40) as byte, (0x80 + n % 0x40) as byte]
    else
      [(0xF0 + n / 0x4_0000) as byte, (0x80 + n / 0x1000 % 0x40) as byte, (0x80 + n / 0x40 % 0x40) as byte, (0x80 + n % 0x40) as byte]
  }

  /** `s.encode('utf-8')`. */
  function Utf8(s: string): (b: Bytes)
    ensures |b| >= |s|
    ensures s == [] <==> b == []
  {
    if s == [] then [] else EncodeChar(s[0]) + Utf8(s[1..])
  }

  /** The encoding ends in a NUL byte exactly when the string ends in NUL. */
  lemma {:induction false} Utf8LastByte(s: string)
    requires s != []
    ensures (Utf8(s)[|Utf8(s)| - 1] == 0) == (s[|s| - 1] == '\0')
  {
    assert Utf8(s) == EncodeChar(s[0]) + Utf8(s[1..]);
    if |s| > 1 {
      var rest := Utf8(s[1..]);
      Utf8LastByte(s[1..]);
      assert Utf8(s)[|Utf8(s)| - 1] == rest[|rest| - 1];
      assert s[1..][|s| - 2] == s[|s| - 1];
    } else {
      assert Utf8(s) == EncodeChar(s[0]);
    }
  }

  /** Encoding distributes over concatenation. */
  lemma {:induction false} Utf8Concat(s: string, t: string)
    ensures Utf8(s + t) == Utf8(s) + Utf8(t)
  {
    if s != [] {
      assert (s + t)[1..] == s[1..] + t;
      Utf8Concat(s[1..], t);
    } else {
      assert s + t == t;
    }
  }

  // ---- int(s, base) ----

  /** The value of a digit character in bases up to 36, or 36 for a
      character that is no digit. */
  function DigitValue(c: char): (d: nat)
    ensures d <= 36
    ensures d < 36 ==> c as int < 0x80
  {
    if '0' <= c <= '9' then c as int - '0' as int
    else if 'a' <= c <= 'z' then c as int - 'a' as int + 10
    else if 'A' <= c <= 'Z' then c as int - 'A' as int + 10
    else 36
  }

  // ---- decimal digits of other scripts ----

  /** The runs of ten decimal digits (Unicode general category Nd,
      Unicode 15) outside ASCII: Arabic-Indic, Devanagari, ..., fullwidth,
      the mathematical digits. */
  const DECIMAL_RUNS: nat := 67

  /** The code point of the zero of the `k`-th run, in increasing order. */
  function RunZero(k: nat): int
    requires k < DECIMAL_RUNS
  {
    if k < 8 then
      (if k == 0 then 0x660 else if k == 1 then 0x6F0 else if k == 2 then 0x7C0 else if k == 3 then 0x966 else if k == 4 then 0x9E6 else if k == 5 then 0xA66 else if k == 6 then 0xAE6 else 0xB66)
    else if k < 16 then
      (if k == 8 then 0xBE6 else if k == 9 then 0xC66 else if k == 10 then 0xCE6 else if k == 11 then 0xD66 else if k == 12 then 0xDE6 else if k == 13 then 0xE50 else if k == 14 then 0xED0 else 0xF20)
    else if k < 24 then
      (if k == 16 then 0x1040 else if k == 17 then 0x1090 else if k == 18 then 0x17E0 else if k == 19 then 0x1810 else if k == 20 then 0x1946 else if k == 21 then 0x19D0 else if k == 22 then 0x1A80 else 0x1A90)
    else if k < 32 then
      (if k == 24 then 0x1B50 else if k == 25 then 0x1BB0 else if k == 26 then 0x1C40 else if k == 27 then 0x1C50 else if k == 28 then 0xA620 else if k == 29 then 0xA8D0 else if k == 30 then 0xA900 else 0xA9D0)
    else if k < 40 then
      (if k == 32 then 0xA9F0 else if k == 33 then 0xAA50 else if k == 34 then 0xABF0 else if k == 35 then 0xFF10 else if k == 36 then 0x104A0 else if k == 37 then 0x10D30 else if k == 38 then 0x11066 else 0x110F0)
    else if k < 48 then
      (if k == 40 then 0x11136 else if k == 41 then 0x111D0 else if k == 42 then 0x112F0 else if k == 43 then 0x11450 else if k == 44 then 0x114D0 else if k == 45 then 0x11650 else if k == 46 then 0x116C0 else 0x11730)
    else if k < 56 then
      (if k == 48 then 0x118E0 else if k == 49 then 0x11950 else if k == 50 then 0x11C50 else if k == 51 then 0x11D50 else if k == 52 then 0x11DA0 else if k == 53 then 0x11F50 else if k == 54 then 0x16A60 else 0x16AC0)
    else if k < 64 then
      (if k == 56 then 0x16B50 else if k == 57 then 0x1D7CE else if k == 58 then 0x1D7D8 else if k == 59 then 0x1D7E2 else if k == 60 then 0x1D7EC else if k == 61 then 0x1D7F6 else if k == 62 then 0x1E140 else 0x1E2F0)
    else
      (if k == 64 then 0x1E4F0 else if k == 65 then 0x1E950 else 0x1FBF0)
  }

  /** The value of code point `n` as a digit of the runs from the `k`-th
      on, or 10 when it lies in none of them. */
  function DecimalFrom(n: int, k: nat): (d: nat)
    requires k <= DECIMAL_RUNS
    ensures d <= 10
    decreases DECIMAL_RUNS - k
  {
    if k == DECIMAL_RUNS then 10
    else if RunZero(k) <= n < RunZero(k) + 10 then n - RunZero(k)
    else DecimalFrom(n, k + 1)
  }

  /** The character `int()` reads in place of `c`: a decimal digit of
      another script is the ASCII digit of its value; ASCII, whitespace
      and every other character stay as they are. */
  function AsciiDigit(c: char): (a: char)
    ensures c as int < 0x80 || IsSpace(c) ==> a == c
    ensures a == c || '0' <= a <= '9'
    ensures IsSpace(a) <==> IsSpace(c)
  {
    if c as int < 0x80 || IsSpace(c) then c
    else if DecimalFrom(c as int, 0) < 10 then ('0' as int + DecimalFrom(c as int, 0)) as char
    else c
  }

  /** `s` with every decimal digit in ASCII, as `int()` rewrites it
      before parsing. */
  function Decimals(s: string): (t: string)
    ensures |t| == |s|
  {
    seq(|s|, i requires 0 <= i < |s| => AsciiDigit(s[i]))
  }

  predicate IsAscii(s: string) {
    forall i :: 0 <= i < |s| ==> s[i] as int < 0x80
  }

  /** An ASCII string is rewritten to itself. */
  lemma DecimalsAscii(s: string)
    requires IsAscii(s)
    ensures Decimals(s) == s
  {
  }

  /** Each run starts at least ten code points after the one before. */
  lemma RunStep(j: nat)
    requires j + 1 < DECIMAL_RUNS
    ensures RunZero(j) + 10 <= RunZero(j + 1)
  {
  }

  lemma {:induction false} RunsIncrease(i: nat, k: nat)
    requires i < k < DECIMAL_RUNS
    ensures RunZero(i) + 10 <= RunZero(k)
    decreases k - i
  {
    RunStep(i);
    if i + 1 < k {
      RunsIncrease(i + 1, k);
    }
  }

  /** A digit that `DecimalFrom` finds lies in one of the runs it searched. */
  lemma {:induction false} FoundInRun(n: int, k: nat)
    requires k <= DECIMAL_RUNS && DecimalFrom(n, k) < 10
    ensures exists j :: k <= j < DECIMAL_RUNS && RunZero(j) <= n < RunZero(j) + 10 && DecimalFrom(n, k) == n - RunZero(j)
    decreases DECIMAL_RUNS - k
  {
    if !(RunZero(k) <= n < RunZero(k) + 10) {
      FoundInRun(n, k + 1);
      var j :| k + 1 <= j < DECIMAL_RUNS && RunZero(j) <= n < RunZero(j) + 10 && DecimalFrom(n, k + 1) == n - RunZero(j);
      assert k <= j;
    }
  }

  /** A code point of the `k`-th run is the digit of its distance from the
      run's zero, whichever earlier run the search starts from. */
  lemma {:induction false} RunDigit(n: int, k: nat, i: nat)
    requires i <= k < DECIMAL_RUNS && RunZero(k) <= n < RunZero(k) + 10
    ensures DecimalFrom(n, i) == n - RunZero(k)
    decreases k - i
  {
    if i < k {
      RunsIncrease(i, k);
      RunDigit(n, k, i + 1);
    }
  }

  /** Outside ASCII and whitespace, a character becomes an ASCII digit
      exactly when it lies in one of the runs, and then the digit is its
      distance from the run's zero. */
  lemma DecimalDigit(c: char)
    requires c as int >= 0x80 && !IsSpace(c)
    ensures '0' <= AsciiDigit(c) <= '9' <==> exists k :: 0 <= k < DECIMAL_RUNS && RunZero(k) <= c as int < RunZero(k) + 10
    ensures forall k :: 0 <= k < DECIMAL_RUNS && RunZero(k) <= c as int < RunZero(k) + 10 ==>
      AsciiDigit(c) as int == '0' as int + c as int - RunZero(k)
  {
    if DecimalFrom(c as int, 0) < 10 {
      FoundInRun(c as int, 0);
    }
    forall k | 0 <= k < DECIMAL_RUNS && RunZero(k) <= c as int < RunZero(k) + 10
      ensures AsciiDigit(c) as int == '0' as int + c as int - RunZero(k)
    {
      RunDigit(c as int, k, 0);
    }
  }

  /** Rewriting twice changes nothing more. */
  lemma DecimalsIdempotent(s: string)
    ensures Decimals(Decimals(s)) == Decimals(s)
  {
  }

  /** `int()` reads a string exactly as it reads its ASCII rewriting. */
  lemma ParseDecimals(s: string)
    ensures ParseHex(Decimals(s)) == ParseHex(s) && ParseAuto(Decimals(s)) == ParseAuto(s)
  {
    DecimalsIdempotent(s);
  }

  /** Two characters past ASCII that the run search finds as the digits
      `a` and `b` are rewritten to the ASCII digits `a` and `b`. */
  lemma RunPair(z: int, a: nat, b: nat)
    requires a < 10 && b < 10
    requires 0x80 <= z && (z + 9 < 0xD800 || 0xE000 <= z <= 0x10FFFF - 9)
    requires !IsSpace((z + a) as char) && !IsSpace((z + b) as char)
    requires DecimalFrom(z + a, 0) == a && DecimalFrom(z + b, 0) == b
    ensures Decimals([(z + a) as char, (z + b) as char]) == [('0' as int + a) as char, ('0' as int + b) as char]
  {
  }

  /** Two ASCII digits in base 16. */
  lemma AsciiPairHex(a: nat, b: nat)
    requires a < 10 && b < 10
    ensures HexNumeral(IntStrip([('0' as int + a) as char, ('0' as int + b) as char])) == Some(16 * a + b)
  {
    var t := [('0' as int + a) as char, ('0' as int + b) as char];
    IntStripPlain(t);
    assert Unsigned(t) == t && SignOf(t) == 1;
    assert !StartsWith(t, "0x") && !StartsWith(t, "0X");
    assert ValidDigits(t, 16);
    assert t[..1][..0] == [];
    assert DigitsValue(t[..1], 16) == a;
  }

  /** Two ASCII digits in base 0: a decimal numeral, which may not start
      with a zero unless it is zero. */
  lemma AsciiPairAuto(a: nat, b: nat)
    requires a < 10 && b < 10
    ensures AutoNumeral(IntStrip([('0' as int + a) as char, ('0' as int + b) as char])) == if a == 0 && b != 0 then None else Some(10 * a + b)
  {
    var t := [('0' as int + a) as char, ('0' as int + b) as char];
    IntStripPlain(t);
    assert Unsigned(t) == t && SignOf(t) == 1;
    assert !StartsWith(t, "0x") && !StartsWith(t, "0X") && !StartsWith(t, "0o") && !StartsWith(t, "0O");
    assert !StartsWith(t, "0b") && !StartsWith(t, "0B");
    assert StartsWith(t, "0") <==> a == 0;
    assert ValidDigits(t, 10);
    assert t[..1][..0] == [];
    assert DigitsValue(t[..1], 10) == a;
  }

  /** `int(s, 0)` parses the rewriting of `s`, stripped. */
  lemma RewrittenAuto(s: string, t: string)
    requires Decimals(s) == t
    ensures ParseAuto(s) == AutoNumeral(IntStrip(t))
  {
  }

  /** Two fullwidth digits read in base 16 as the two ASCII digits would. */
  lemma FullwidthHex(a: nat, b: nat)
    requires a < 10 && b < 10
    ensures ParseHex([(0xFF10 + a) as char, (0xFF10 + b) as char]) == Some(16 * a + b)
  {
    var s := [(0xFF10 + a) as char, (0xFF10 + b) as char];
    var t := [('0' as int + a) as char, ('0' as int + b) as char];
    RunDigit(0xFF10 + a, 35, 0);
    RunDigit(0xFF10 + b, 35, 0);
    RunPair(0xFF10, a, b);
    assert ParseHex(s) == HexNumeral(IntStrip(t));
    AsciiPairHex(a, b);
  }

  /** Two Arabic-Indic digits in base 0 read as a decimal numeral, which
      may not start with a zero unless it is zero. */
  lemma ArabicIndicAuto(a: nat, b: nat)
    requires a < 10 && b < 10
    ensures ParseAuto([(0x660 + a) as char, (0x660 + b) as char]) == if a == 0 && b != 0 then None else Some(10 * a + b)
  {
    var s := [(0x660 + a) as char, (0x660 + b) as char];
    var t := [('0' as int + a) as char, ('0' as int + b) as char];
    RunDigit(0x660 + a, 0, 0);
    RunDigit(0x660 + b, 0, 0);
    RunPair(0x660, a, b);
    RewrittenAuto(s, t);
    AsciiPairAuto(a, b);
  }

  /** A fullwidth zero before `x` opens a hexadecimal numeral in base 0. */
  lemma FullwidthPrefix(a: nat)
    requires a < 16
    ensures ParseAuto(['\U{FF10}', 'x', DigitChar(a)]) == Some(a)
  {
    var s := ['\U{FF10}', 'x', DigitChar(a)];
    RunDigit(0xFF10, 35, 0);
    var t := Decimals(s);
    assert t == ['0', 'x', DigitChar(a)];
    IntStripPlain(t);
    assert Unsigned(t) == t && SignOf(t) == 1 && StartsWith(t, "0x");
    var d := [DigitChar(a)];
    assert AfterPrefix(t) == d;
    assert ValidDigits(d, 16);
    assert d[..0] == [];
    assert DigitsValue(d, 16) == a;
  }

  /** A digit string as `int()` accepts it: at least one character, digits
      of the base with single underscores between them. */
  predicate ValidDigits(s: string, base: nat) {
    && |s| > 0 && s[0] != '_' && s[|s| - 1] != '_'
    && (forall i :: 0 <= i < |s| ==> s[i] == '_' || DigitValue(s[i]) < base)
    && (forall i :: 0 <= i < |s| - 1 ==> !DoubleUnderscore(s, i))
  }

  /** Two underscores in a row at `i`. */
  predicate DoubleUnderscore(s: string, i: nat)
    requires i + 1 < |s|
  {
    s[i] == '_' && s[i + 1] == '_'
  }

  /** The value of a digit string, underscores ignored. */
  function DigitsValue(s: string, base: nat): nat
    decreases |s|
  {
    if s == [] then 0
    else if s[|s| - 1] == '_' then DigitsValue(s[..|s| - 1], base)
    else DigitsValue(s[..|s| - 1], base) * base + DigitValue(s[|s| - 1])
  }

  /** A string made of `0` digits and underscores has value zero. */
  lemma {:induction false} ZeroDigits(s: string, base: nat)
    requires forall i :: 0 <= i < |s| ==> s[i] == '0' || s[i] == '_'
    ensures DigitsValue(s, base) == 0
  {
    if s != [] {
      ZeroDigits(s[..|s| - 1], base);
    }
  }

  /** `s` after a base prefix: the one underscore CPython allows there is dropped. */
  function AfterPrefix(s: string): string
    requires |s| >= 2
  {
    if |s| > 2 && s[2] == '_' then s[3..] else s[2..]
  }

  /** The sign and the unsigned remainder of a stripped numeral. */
  function SignOf(t: string): int {
    if t != [] && t[0] == '-' then -1 else 1
  }

  function Unsigned(t: string): string {
    if t != [] && (t[0] == '-' || t[0] == '+') then t[1..] else t
  }

  /** Parse the unsigned part in a fixed base; `None` is `ValueError`. */
  function ParseUnsigned(u: string, base: nat): Option<nat> {
    if ValidDigits(u, base) then Some(DigitsValue(u, base)) else None
  }

  /** `int(s, 16)`: surrounding `IntSpace` whitespace, a sign, an optional `0x`/`0X`
      prefix and hexadecimal digits; `None` where Python raises `ValueError`. */
  function ParseHex(s: string): (r: Option<int>)
  {
    HexNumeral(IntStrip(Decimals(s)))
  }

  /** `int(s, 0)`: the prefix chooses the base (`0x` 16, `0o` 8, `0b` 2, none
      10), and a decimal numeral that starts with `0` must be zero. */
  function ParseAuto(s: string): (r: Option<int>)
  {
    AutoNumeral(IntStrip(Decimals(s)))
  }

  /** The numeral `t`, stripped and in ASCII, in base 16. */
  function HexNumeral(t: string): Option<int> {
    var u := Unsigned(t);
    var body := if StartsWith(u, "0x") || StartsWith(u, "0X") then AfterPrefix(u) else u;
    match ParseUnsigned(body, 16)
    case None => None
    case Some(v) => Some(SignOf(t) * v)
  }

  /** The numeral `t`, stripped and in ASCII, in base 0. */
  function AutoNumeral(t: string): Option<int> {
    var u := Unsigned(t);
    if StartsWith(u, "0x") || StartsWith(u, "0X") then
      match ParseUnsigned(AfterPrefix(u), 16)
      case None => None
      case Some(v) => Some(SignOf(t) * v)
    else if StartsWith(u, "0o") || StartsWith(u, "0O") then
      match ParseUnsigned(AfterPrefix(u), 8)
      case None => None
      case Some(v) => Some(SignOf(t) * v)
    else if StartsWith(u, "0b") || StartsWith(u, "0B") then
      match ParseUnsigned(AfterPrefix(u), 2)
      case None => None
      case Some(v) => Some(SignOf(t) * v)
    else
      match ParseUnsigned(u, 10)
      case None => None
      case Some(v) => if StartsWith(u, "0") && v != 0 then None else Some(SignOf(t) * v)
  }

  // ---- hex(n) and str(n) ----

  function DigitChar(d: nat): (c: char)
    requires d < 16
    ensures DigitValue(c) == d && c != '_' && !IsSpace(c) && c != '-' && c != '+'
  {
    "0123456789abcdef"[d]
  }

  /** The digits of `n` in base 16 or 10, most significant first, without
      leading zeros. */
  function Digits(n: nat, base: nat): (s: string)
    requires base == 10 || base == 16
    ensures |s| > 0
    ensures forall i :: 0 <= i < |s| ==> s[i] != '_' && DigitValue(s[i]) < base && !IsSpace(s[i])
    decreases n
  {
    if n < base then [DigitChar(n)] else Digits(n / base, base) + [DigitChar(n % base)]
  }

  /** `hex(n)` for `n >= 0`. */
  function HexLiteral(n: nat): string {
    "0x" + Digits(n, 16)
  }

  /** `str(n)` for `n >= 0`. */
  function Decimal(n: nat): string {
    Digits(n, 10)
  }

  lemma {:induction false} DigitsValueOfDigits(n: nat, base: nat)
    requires base == 10 || base == 16
    ensures DigitsValue(Digits(n, base), base) == n
    decreases n
  {
    var s := Digits(n, base);
    if n >= base {
      DigitsValueOfDigits(n / base, base);
      assert s[..|s| - 1] == Digits(n / base, base);
    }
  }

  /** The information separator U+001C is whitespace to `str.strip()`
      but not to `int()`, and it is no digit: a numeral that starts with it
      (`"\x1c1A"`, `"\x1c0x12"`) is read by neither parser. */
  lemma SeparatorRejected(t: string)
    requires t != [] && IsAscii(t) && !IntSpace(t[|t| - 1]) && t[0] == '\U{001C}'
    ensures IsSpace(t[0]) && !IntSpace(t[0])
    ensures ParseHex(t) == None && ParseAuto(t) == None
  {
    DecimalsAscii(t);
    IntStripPlain(t);
    assert Unsigned(t) == t;
    NoBasePrefix(t);
    assert DigitValue(t[0]) == 36;
    assert !ValidDigits(t, 16) && !ValidDigits(t, 10);
  }

  /** A tab before and a newline after a numeral are skipped. */
  lemma IntStripAround(d: string)
    requires d != [] && !IntSpace(d[0]) && !IntSpace(d[|d| - 1])
    ensures IntStrip(['\t'] + d + ['\n']) == d
  {
    var s := ['\t'] + d + ['\n'];
    assert s[1..] == d + ['\n'];
    assert IntLStrip(s) == d + ['\n'];
    assert (d + ['\n'])[..|d|] == d;
    IntStripPlain(d);
  }

  /** The ASCII spaces `int()` does skip: a tab before and a newline
      after an ASCII numeral change neither reading. */
  lemma SpacesSkipped(d: string)
    requires d != [] && IsAscii(d) && !IntSpace(d[0]) && !IntSpace(d[|d| - 1])
    ensures ParseHex(['\t'] + d + ['\n']) == ParseHex(d)
    ensures ParseAuto(['\t'] + d + ['\n']) == ParseAuto(d)
  {
    var s := ['\t'] + d + ['\n'];
    assert IsAscii(s);
    DecimalsAscii(s);
    DecimalsAscii(d);
    IntStripAround(d);
    IntStripPlain(d);
  }

  /** `int(hex(n), 16) == n`: the id `inspect` shows parses back. */
  lemma ParseHexLiteral(n: nat)
    ensures ParseHex(HexLiteral(n)) == Some(n)
  {
    var d := Digits(n, 16);
    var s := "0x" + d;
    assert s[2..] == d;
    assert s[|s| - 1] == d[|d| - 1];
    DigitsValueOfDigits(n, 16);
    assert ValidDigits(d, 16);
    DecimalsAscii(d);
    HexPrefixed(s);
  }

  /** The rewritten string keeps the characters the prefix lemmas look at:
      ASCII ones, `_` and whitespace. */
  lemma DecimalsPlain(s: string)
    requires s != [] && !IsSpace(s[0]) && !IsSpace(s[|s| - 1])
    ensures !IsSpace(Decimals(s)[0]) && !IsSpace(Decimals(s)[|s| - 1])
    ensures forall i :: 0 <= i < |s| && s[i] as int < 0x80 ==> Decimals(s)[i] == s[i]
    ensures forall i :: 0 <= i < |s| && s[i] != '_' ==> Decimals(s)[i] != '_'
  {
  }

  /** A numeral with no whitespace at its ends is parsed as its rewriting
      stands. */
  lemma RewrittenNumeral(s: string)
    requires s != [] && !IsSpace(s[0]) && !IsSpace(s[|s| - 1])
    ensures ParseHex(s) == HexNumeral(Decimals(s)) && ParseAuto(s) == AutoNumeral(Decimals(s))
  {
    DecimalsPlain(s);
    IntStripPlain(Decimals(s));
  }

  /** An ASCII numeral with no whitespace at its ends is parsed as it
      stands. */
  lemma PlainNumeral(s: string)
    requires IsAscii(s) && s != [] && !IsSpace(s[0]) && !IsSpace(s[|s| - 1])
    ensures ParseHex(s) == HexNumeral(s) && ParseAuto(s) == AutoNumeral(s)
  {
    DecimalsAscii(s);
    RewrittenNumeral(s);
  }

  /** A `0x` prefix survives the rewriting, and the digits after it are
      rewritten on their own. */
  lemma PrefixRewritten(s: string)
    requires |s| > 2 && s[0] == '0' && s[1] == 'x' && s[2] != '_'
    ensures var t := Decimals(s); t[0] == '0' && t[1] == 'x' && t[2] != '_'
    ensures Decimals(s)[2..] == Decimals(s[2..])
  {
    assert AsciiDigit(s[2]) != '_';
  }

  /** A numeral `0x` and digits, in base 16. */
  lemma HexNumeralPrefixed(t: string)
    requires |t| > 2 && t[0] == '0' && t[1] == 'x' && t[2] != '_'
    ensures HexNumeral(t) == ParseUnsigned(t[2..], 16)
  {
    assert Unsigned(t) == t && SignOf(t) == 1;
    assert StartsWith(t, "0x") && AfterPrefix(t) == t[2..];
  }

  /** A numeral `0x` and digits, in base 0. */
  lemma AutoNumeralPrefixed(t: string)
    requires |t| > 2 && t[0] == '0' && t[1] == 'x' && t[2] != '_'
    ensures AutoNumeral(t) == ParseUnsigned(t[2..], 16)
  {
    assert Unsigned(t) == t && SignOf(t) == 1;
    assert StartsWith(t, "0x") && AfterPrefix(t) == t[2..];
  }

  /** A numeral that does not start with `0` has no base prefix. */
  lemma NoBasePrefix(t: string)
    requires t != [] && t[0] != '0'
    ensures !StartsWith(t, "0x") && !StartsWith(t, "0X") && !StartsWith(t, "0o") && !StartsWith(t, "0O")
    ensures !StartsWith(t, "0b") && !StartsWith(t, "0B") && !StartsWith(t, "0")
  {
  }

  /** A numeral that starts with a digit and has no `0x` prefix, in base 16. */
  lemma HexNumeralPlain(t: string)
    requires t != [] && DigitValue(t[0]) < 36 && !StartsWith(t, "0x") && !StartsWith(t, "0X")
    ensures HexNumeral(t) == ParseUnsigned(t, 16)
  {
    assert Unsigned(t) == t && SignOf(t) == 1;
  }

  /** A numeral that starts with a digit 1..9, in base 0. */
  lemma AutoNumeralPlain(t: string)
    requires t != [] && '1' <= t[0] <= '9'
    ensures AutoNumeral(t) == ParseUnsigned(t, 10)
  {
    assert Unsigned(t) == t && SignOf(t) == 1;
    NoBasePrefix(t);
  }

  /** In `int(s, 16)` a leading `0x` is dropped. */
  lemma HexPrefixed(s: string)
    requires |s| > 2 && s[0] == '0' && s[1] == 'x' && s[2] != '_' && !IsSpace(s[|s| - 1])
    ensures ParseHex(s) == if ValidDigits(Decimals(s[2..]), 16) then Some(DigitsValue(Decimals(s[2..]), 16)) else None
  {
    RewrittenNumeral(s);
    PrefixRewritten(s);
    HexNumeralPrefixed(Decimals(s));
  }

  /** A numeral that starts with a digit 1..9 and has no whitespace around
      it reads the same in `int(s, 0)` as in `int(s, 10)`. */
  lemma AutoDecimal(s: string)
    requires s != [] && '1' <= s[0] <= '9' && !IsSpace(s[|s| - 1])
    ensures ParseAuto(s) == if ValidDigits(Decimals(s), 10) then Some(DigitsValue(Decimals(s), 10)) else None
  {
    RewrittenNumeral(s);
    DecimalsPlain(s);
    AutoNumeralPlain(Decimals(s));
  }

  /** The same numeral in `int(s, 16)`. */
  lemma HexUnprefixed(s: string)
    requires s != [] && '1' <= s[0] <= '9' && !IsSpace(s[|s| - 1])
    ensures ParseHex(s) == if ValidDigits(Decimals(s), 16) then Some(DigitsValue(Decimals(s), 16)) else None
  {
    RewrittenNumeral(s);
    DecimalsPlain(s);
    var t := Decimals(s);
    assert t[0] == s[0];
    NoBasePrefix(t);
    HexNumeralPlain(t);
  }

  /** A numeral `0x` followed by digits and no whitespace reads as those
      hexadecimal digits in `int(s, 0)`. */
  lemma AutoHexPrefix(s: string)
    requires |s| > 2 && s[0] == '0' && s[1] == 'x' && s[2] != '_' && !IsSpace(s[|s| - 1])
    ensures ParseAuto(s) == if ValidDigits(Decimals(s[2..]), 16) then Some(DigitsValue(Decimals(s[2..]), 16)) else None
  {
    RewrittenNumeral(s);
    PrefixRewritten(s);
    AutoNumeralPrefixed(Decimals(s));
  }

  /** An ASCII numeral starting with a nonzero digit, read in base 16. */
  lemma AsciiHex(s: string)
    requires IsAscii(s) && s != [] && '1' <= s[0] <= '9' && !IsSpace(s[|s| - 1])
    ensures ParseHex(s) == if ValidDigits(s, 16) then Some(DigitsValue(s, 16)) else None
  {
    DecimalsAscii(s);
    HexUnprefixed(s);
  }

  /** An ASCII numeral starting with a nonzero digit, read with base 0. */
  lemma AsciiDecimal(s: string)
    requires IsAscii(s) && s != [] && '1' <= s[0] <= '9' && !IsSpace(s[|s| - 1])
    ensures ParseAuto(s) == if ValidDigits(s, 10) then Some(DigitsValue(s, 10)) else None
  {
    DecimalsAscii(s);
    AutoDecimal(s);
  }

  /** An ASCII numeral with a `0x` prefix, read with base 0. */
  lemma AsciiAutoHex(s: string)
    requires IsAscii(s) && |s| > 2 && s[0] == '0' && s[1] == 'x' && s[2] != '_' && !IsSpace(s[|s| - 1])
    ensures ParseAuto(s) == if ValidDigits(s[2..], 16) then Some(DigitsValue(s[2..], 16)) else None
  {
    DecimalsAscii(s[2..]);
    AutoHexPrefix(s);
  }

  datatype Option<+T> = None | Some(value: T)
}
