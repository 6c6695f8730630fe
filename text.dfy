/** The JavaScript string built-ins the two pages rely on, written out:
    `toLowerCase`, `trim`, `indexOf`, a prefix test, `parseInt` without a
    radix, and the decimal form in which a page writes an integer `id` into a
    link. */
module Text {
  import opened Wrappers

  /** ECMAScript's WhiteSpace and LineTerminator code points, the characters
      `trim` removes and `parseInt` skips at the start. */
  const Whitespace: set<char> := {
    '\t', '\n', '\U{0B}', '\U{0C}', '\r', ' ', '\U{A0}', '\U{1680}',
    '\U{2000}', '\U{2001}', '\U{2002}', '\U{2003}', '\U{2004}', '\U{2005}',
    '\U{2006}', '\U{2007}', '\U{2008}', '\U{2009}', '\U{200A}',
    '\U{2028}', '\U{2029}', '\U{202F}', '\U{205F}', '\U{3000}', '\U{FEFF}'
  }

  predicate IsSpace(c: char) {
    c in Whitespace
  }

  // ---------------------------------------------------------------- case

  function LowerChar(c: char): char {
    if 'A' <= c <= 'Z' then (c as int + 32) as char else c
  }

  /** `toLowerCase`, restricted to the letters A-Z. */
  function Lower(s: string): (r: string)
    ensures |r| == |s|
    ensures forall i :: 0 <= i < |r| ==> !('A' <= r[i] <= 'Z')
    ensures forall i :: 0 <= i < |s| && !('A' <= s[i] <= 'Z') ==> r[i] == s[i]
    ensures forall i :: 0 <= i < |s| && 'A' <= s[i] <= 'Z' ==> r[i] == (s[i] as int + 32) as char
  {
    seq(|s|, i requires 0 <= i < |s| => LowerChar(s[i]))
  }

  /** Lower-casing twice is lower-casing once. */
  lemma LowerIdempotent(s: string)
    ensures Lower(Lower(s)) == Lower(s)
  {
  }

  /** Lower-casing commutes with taking a slice. */
  lemma LowerSlice(s: string, i: nat, j: nat)
    requires i <= j <= |s|
    ensures Lower(s[i..j]) == Lower(s)[i..j]
  {
  }

  // ---------------------------------------------------------------- trim

  /** Drops the leading white space: the result is a suffix of `s`, what was
      dropped is all white space, and the result does not start with any. */
  function TrimStart(s: string): (r: string)
    ensures |r| <= |s| && r == s[|s| - |r|..]
    ensures forall i :: 0 <= i < |s| - |r| ==> IsSpace(s[i])
    ensures r == [] || !IsSpace(r[0])
    decreases |s|
  {
    if s != [] && IsSpace(s[0]) then TrimStart(s[1..]) else s
  }

  /** Drops the trailing white space: the result is a prefix of `s`, what was
      dropped is all white space, and the result does not end with any. */
  function TrimEnd(s: string): (r: string)
    ensures |r| <= |s| && r == s[..|r|]
    ensures forall i :: |r| <= i < |s| ==> IsSpace(s[i])
    ensures r == [] || !IsSpace(r[|r| - 1])
    decreases |s|
  {
    if s != [] && IsSpace(s[|s| - 1]) then TrimEnd(s[..|s| - 1]) else s
  }

  /** `trim`. */
  function Trim(s: string): (r: string)
    ensures r == [] || (!IsSpace(r[0]) && !IsSpace(r[|r| - 1]))
  {
    var t := TrimStart(s);
    var e := TrimEnd(t);
    assert e != [] ==> e[0] == t[0];
    e
  }

  /** What `trim` keeps is one contiguous piece of its input. */
  lemma TrimIsSlice(s: string) returns (i: nat, j: nat)
    ensures i <= j <= |s| && Trim(s) == s[i..j]
  {
    var t := TrimStart(s);
    var e := TrimEnd(t);
    i := |s| - |t|;
    j := i + |e|;
    assert t == s[i..];
    assert e == t[..|e|];
    assert s[i..j] == s[i..][..|e|];
  }

  // ---------------------------------------------------------------- search

  predicate StartsWith(s: string, prefix: string) {
    |prefix| <= |s| && s[..|prefix|] == prefix
  }

  /** `q` occurs in `s` starting at index `i`. */
  predicate OccursAt(s: string, q: string, i: int) {
    0 <= i && i + |q| <= |s| && s[i..i + |q|] == q
  }

  /** `q` occurs nowhere in `s`. */
  predicate FreeOf(s: string, q: string) {
    forall i :: 0 <= i <= |s| ==> !OccursAt(s, q, i)
  }

  /** A string none of whose characters is the first one of `q` holds no `q`. */
  lemma FreeOfWithoutFirst(s: string, q: string)
    requires q != [] && forall k :: 0 <= k < |s| ==> s[k] != q[0]
    ensures FreeOf(s, q)
  {
    forall i | 0 <= i <= |s| ensures !OccursAt(s, q, i) {
      if i + |q| <= |s| {
        assert s[i..i + |q|][0] == s[i];
      }
    }
  }

  /** The first index at or after `k` where `q` occurs in `s`, or -1. */
  function IndexFrom(s: string, q: string, k: nat): (r: int)
    requires k <= |s|
    ensures r == -1 <==> forall i :: k <= i <= |s| ==> !OccursAt(s, q, i)
    ensures r != -1 ==> k <= r && OccursAt(s, q, r)
    ensures r != -1 ==> forall i :: k <= i < r ==> !OccursAt(s, q, i)
    decreases |s| - k
  {
    if k + |q| > |s| then -1
    else if s[k..k + |q|] == q then assert OccursAt(s, q, k); k
    else if k == |s| then -1
    else IndexFrom(s, q, k + 1)
  }

  /** `s.indexOf(q)`: the first index where `q` occurs in `s`, or -1 when it
      occurs nowhere (the empty string occurs at 0). */
  function IndexOf(s: string, q: string): (r: int)
    ensures r == -1 <==> forall i :: 0 <= i <= |s| ==> !OccursAt(s, q, i)
    ensures r != -1 ==> 0 <= r && OccursAt(s, q, r)
    ensures r != -1 ==> forall i :: 0 <= i < r ==> !OccursAt(s, q, i)
  {
    IndexFrom(s, q, 0)
  }

  /** `s.indexOf(q) !== -1`. */
  predicate Contains(s: string, q: string) {
    IndexOf(s, q) != -1
  }

  /** `indexOf` finds `q` exactly when `q` occurs somewhere in `s`. */
  lemma ContainsMeansOccurs(s: string, q: string)
    ensures Contains(s, q) <==> exists i :: 0 <= i <= |s| && OccursAt(s, q, i)
  {
  }

  // ---------------------------------------------------------------- numbers

  /** The value of `c` as a digit in base 10 or 16, or -1 if it is not one. */
  function DigitValue(c: char, radix: nat): (d: int)
    requires radix == 10 || radix == 16
    ensures -1 <= d < radix
    ensures d >= 0 <==> '0' <= c <= '9' || (radix == 16 && ('a' <= c <= 'f' || 'A' <= c <= 'F'))
    ensures '0' <= c <= '9' ==> d == c as int - '0' as int
    ensures radix == 16 && 'a' <= c <= 'f' ==> d == c as int - 'a' as int + 10
    ensures radix == 16 && 'A' <= c <= 'F' ==> d == c as int - 'A' as int + 10
  {
    if '0' <= c <= '9' then c as int - '0' as int
    else if radix == 16 && 'a' <= c <= 'f' then c as int - 'a' as int + 10
    else if radix == 16 && 'A' <= c <= 'F' then c as int - 'A' as int + 10
    else -1
  }

  /** The length of the run of digits at the start of `s`. */
  function DigitRun(s: string, radix: nat): (n: nat)
    requires radix == 10 || radix == 16
    ensures n <= |s|
    ensures forall i :: 0 <= i < n ==> DigitValue(s[i], radix) >= 0
    ensures n < |s| ==> DigitValue(s[n], radix) < 0
    decreases |s|
  {
    if s != [] && DigitValue(s[0], radix) >= 0 then 1 + DigitRun(s[1..], radix) else 0
  }

  /** The number a string of digits denotes. */
  function ValueOf(digits: string, radix: nat): nat
    requires radix == 10 || radix == 16
    requires forall i :: 0 <= i < |digits| ==> DigitValue(digits[i], radix) >= 0
    decreases |digits|
  {
    if digits == [] then 0
    else ValueOf(digits[..|digits| - 1], radix) * radix + DigitValue(digits[|digits| - 1], radix)
  }

  /** `parseInt(s)` with no radix argument: skip leading white space, read an
      optional sign, then the digits. `None` is `NaN`: no digit was read. A
      negative zero is 0, which `===` cannot tell apart from it. */
  function ParseInt(s: string): Option<int> {
    var t := TrimStart(s);
    var sign := if t != [] && t[0] == '-' then -1 else 1;
    var u := if t != [] && (t[0] == '-' || t[0] == '+') then t[1..] else t;
    match ParseUnsigned(u)
    case None => None
    case Some(v) => Some(sign * v)
  }

  /** The unsigned part of `parseInt`: base 16 after a `0x`/`0X` prefix and
      base 10 otherwise, up to the first character that is not a digit. */
  function ParseUnsigned(u: string): Option<nat> {
    var hex := |u| >= 2 && u[0] == '0' && (u[1] == 'x' || u[1] == 'X');
    var radix := if hex then 16 else 10;
    var body := if hex then u[2..] else u;
    var z := body[..DigitRun(body, radix)];
    if z == [] then None else Some(ValueOf(z, radix))
  }

  function DigitChar(d: nat): char
    requires d < 10
  {
    ('0' as int + d) as char
  }

  /** The decimal digits of `n`, most significant first, without leading zeros. */
  function NatDigits(n: nat): (s: string)
    ensures s != []
    ensures forall i :: 0 <= i < |s| ==> '0' <= s[i] <= '9'
    decreases n
  {
    if n < 10 then [DigitChar(n)] else NatDigits(n / 10) + [DigitChar(n % 10)]
  }

  /** How JavaScript writes an integer as a string (`'' + n`). */
  function DecimalString(n: int): string {
    if n < 0 then "-" + NatDigits(-n) else NatDigits(n)
  }

  lemma {:induction false} ValueOfNatDigits(n: nat)
    ensures ValueOf(NatDigits(n), 10) == n
    decreases n
  {
    var s := NatDigits(n);
    if n >= 10 {
      ValueOfNatDigits(n / 10);
      assert s[..|s| - 1] == NatDigits(n / 10);
    }
  }

  lemma {:induction false} DigitRunAll(s: string)
    requires forall i :: 0 <= i < |s| ==> '0' <= s[i] <= '9'
    ensures DigitRun(s, 10) == |s|
    decreases |s|
  {
    if s != [] {
      DigitRunAll(s[1..]);
    }
  }

  lemma NotSpace(c: char)
    requires '!' <= c <= '~'
    ensures !IsSpace(c)
  {
  }

  /** The unsigned part of `parseInt` reads a whole run of decimal digits. */
  lemma ParseUnsignedOfDigits(digits: string)
    requires digits != []
    requires forall i :: 0 <= i < |digits| ==> '0' <= digits[i] <= '9'
    ensures ParseUnsigned(digits) == Some(ValueOf(digits, 10))
  {
    var hex := |digits| >= 2 && digits[0] == '0' && (digits[1] == 'x' || digits[1] == 'X');
    assert !hex by {
      if |digits| >= 2 { assert '0' <= digits[1] <= '9'; }
    }
    DigitRunAll(digits);
    assert digits[..|digits|] == digits;
  }

  /** `parseInt` of a string that starts with a sign or a digit skips no white space. */
  lemma ParseIntNoSpace(s: string)
    requires s != [] && ('0' <= s[0] <= '9' || s[0] == '-')
    ensures ParseInt(s) == match ParseUnsigned(if s[0] == '-' then s[1..] else s)
                           case None => None
                           case Some(v) => Some((if s[0] == '-' then -1 else 1) * v)
  {
    NotSpace(s[0]);
    assert TrimStart(s) == s;
  }

  /** `parseInt` of a string that starts with a letter outside `a`-`f`/`A`-`F`
      (such as "null") is `NaN`. */
  lemma ParseIntOfLetter(s: string)
    requires s != [] && ('g' <= s[0] <= 'z' || 'G' <= s[0] <= 'Z')
    ensures ParseInt(s).None?
  {
    NotSpace(s[0]);
    assert TrimStart(s) == s;
    assert DigitRun(s, 10) == 0;
  }

  /** Reading back the decimal form of an integer gives the integer: a link
      built as `'...?id=' + id` resolves to that `id`. */
  lemma ParseIntOfDecimal(n: int)
    ensures ParseInt(DecimalString(n)) == Some(n)
  {
    var m: nat := if n < 0 then -n else n;
    var digits := NatDigits(m);
    var s := DecimalString(n);
    ValueOfNatDigits(m);
    ParseUnsignedOfDigits(digits);
    ParseIntNoSpace(s);
    if n < 0 {
      assert s[1..] == digits;
    }
  }
}
