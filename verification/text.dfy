/**
 * String operations of JavaScript the engine relies on: `${n}` for a natural number,
 * `parseInt` with its default radix, `includes`, `endsWith`, `split(".")[0]`, and the
 * `<` order on strings that `d3.ascending` uses.
 */
module Text {
  import opened Wrappers

  predicate IsDecimalDigit(c: char) {
    '0' <= c <= '9'
  }

  /** The decimal digit character for `d`. */
  function DigitChar(d: nat): (c: char)
    requires d < 10
    ensures IsDecimalDigit(c) && c as int - '0' as int == d
  {
    ['0', '1', '2', '3', '4', '5', '6', '7', '8', '9'][d]
  }

  /** `${n}` for a natural number: its shortest decimal spelling. */
  function NatToString(n: nat): (s: string)
    ensures |s| >= 1
    ensures forall k :: 0 <= k < |s| ==> IsDecimalDigit(s[k])
    ensures s[0] == '0' ==> n == 0 && s == "0"
    decreases n
  {
    if n < 10 then [DigitChar(n)] else NatToString(n / 10) + [DigitChar(n % 10)]
  }

  /** The value of `c` as a digit in `radix` (10 or 16), if it is one. */
  function DigitValue(c: char, radix: nat): (r: Option<nat>)
    requires radix == 10 || radix == 16
    ensures r.Some? ==> r.value < radix
    ensures radix == 10 ==> (r.Some? <==> IsDecimalDigit(c))
    ensures IsDecimalDigit(c) ==> r == Some(c as int - '0' as int)
  {
    if IsDecimalDigit(c) then Some(c as int - '0' as int)
    else if radix == 16 && 'a' <= c <= 'f' then Some(c as int - 'a' as int + 10)
    else if radix == 16 && 'A' <= c <= 'F' then Some(c as int - 'A' as int + 10)
    else None
  }

  /** The longest prefix of `s` made of digits of `radix`. */
  function DigitPrefix(s: string, radix: nat): (p: string)
    requires radix == 10 || radix == 16
    ensures |p| <= |s| && p == s[..|p|]
    ensures forall k :: 0 <= k < |p| ==> DigitValue(p[k], radix).Some?
    ensures |p| < |s| ==> DigitValue(s[|p|], radix).None?
  {
    if |s| == 0 || DigitValue(s[0], radix).None? then ""
    else [s[0]] + DigitPrefix(s[1..], radix)
  }

  /** The value of a non-empty run of digits, most significant first. */
  function DigitsValue(p: string, radix: nat): nat
    requires radix == 10 || radix == 16
    requires forall k :: 0 <= k < |p| ==> DigitValue(p[k], radix).Some?
  {
    if |p| == 0 then 0
    else DigitsValue(p[..|p| - 1], radix) * radix + DigitValue(p[|p| - 1], radix).value
  }

  /**
   * The characters ECMAScript's StrWhiteSpaceChar admits: TAB, LF, VT, FF, CR, the Unicode
   * space separators (category Zs), LINE/PARAGRAPH SEPARATOR and the byte-order mark.
   */
  predicate IsJsWhiteSpace(c: char) {
    var k := c as int;
    k == 0x09 || k == 0x0A || k == 0x0B || k == 0x0C || k == 0x0D || k == 0x20 || k == 0xA0
    || k == 0x1680 || (0x2000 <= k <= 0x200A) || k == 0x2028 || k == 0x2029 || k == 0x202F
    || k == 0x205F || k == 0x3000 || k == 0xFEFF
  }

  /** `s` with its leading white space removed. */
  function TrimStart(s: string): (t: string)
    ensures |t| <= |s| && t == s[|s| - |t|..]
    ensures |t| > 0 ==> !IsJsWhiteSpace(t[0])
    ensures forall k :: 0 <= k < |s| - |t| ==> IsJsWhiteSpace(s[k])
  {
    if |s| > 0 && IsJsWhiteSpace(s[0]) then TrimStart(s[1..]) else s
  }

  /**
   * `parseInt(s)` with no radix argument: skip leading white space, read an optional sign,
   * switch to radix 16 after a `0x`/`0X` prefix, then read the longest run of digits.
   * None is NaN, which is what an empty run gives.
   */
  function ParseInt(s: string): (r: Option<int>)
  {
    var t := TrimStart(s);
    var negative := |t| > 0 && t[0] == '-';
    var u := if |t| > 0 && (t[0] == '-' || t[0] == '+') then t[1..] else t;
    var hex := |u| >= 2 && u[0] == '0' && (u[1] == 'x' || u[1] == 'X');
    var radix := if hex then 16 else 10;
    var body := if hex then u[2..] else u;
    var p := DigitPrefix(body, radix);
    if |p| == 0 then None
    else
      var v: int := DigitsValue(p, radix);
      Some(if negative then -v else v)
  }

  lemma {:induction false} DigitsOfNatToString(n: nat)
    ensures forall k :: 0 <= k < |NatToString(n)| ==> DigitValue(NatToString(n)[k], 10).Some?
    ensures DigitsValue(NatToString(n), 10) == n
    decreases n
  {
    var s := NatToString(n);
    if n >= 10 {
      DigitsOfNatToString(n / 10);
      assert s[..|s| - 1] == NatToString(n / 10);
    }
  }

  /** `parseInt` reads back what `${n}` wrote, so the spelling of a natural number is injective. */
  lemma ParseIntOfNatToString(n: nat)
    ensures ParseInt(NatToString(n)) == Some(n)
  {
    DigitsOfNatToString(n);
    ParseIntOfDigits(NatToString(n));
  }

  /** A run of decimal digits parses to its value: no white space, sign or `0x` prefix applies. */
  lemma ParseIntOfDigits(s: string)
    requires |s| >= 1 && forall k :: 0 <= k < |s| ==> IsDecimalDigit(s[k])
    ensures forall k :: 0 <= k < |s| ==> DigitValue(s[k], 10).Some?
    ensures ParseInt(s) == Some(DigitsValue(s, 10))
  {
    assert !IsJsWhiteSpace(s[0]);
    assert TrimStart(s) == s;
    assert s[0] != '-' && s[0] != '+';
    assert !(|s| >= 2 && (s[1] == 'x' || s[1] == 'X'));
    DigitPrefixOfDigits(s);
  }

  lemma {:induction false} DigitPrefixOfDigits(s: string)
    requires forall k :: 0 <= k < |s| ==> IsDecimalDigit(s[k])
    ensures DigitPrefix(s, 10) == s
  {
    if |s| > 0 {
      DigitPrefixOfDigits(s[1..]);
    }
  }

  lemma NatToStringInjective(m: nat, n: nat)
    requires NatToString(m) == NatToString(n)
    ensures m == n
  {
    ParseIntOfNatToString(m);
    ParseIntOfNatToString(n);
  }

  /** `s.includes(sub)`. */
  predicate Contains(s: string, sub: string) {
    exists k :: 0 <= k <= |s| - |sub| && OccursAt(s, sub, k)
  }

  /** `sub` occurs in `s` starting at position `k`. */
  predicate OccursAt(s: string, sub: string, k: int) {
    0 <= k <= |s| - |sub| && s[k..k + |sub|] == sub
  }

  /** `s.endsWith(suffix)`. */
  predicate EndsWith(s: string, suffix: string) {
    |suffix| <= |s| && s[|s| - |suffix|..] == suffix
  }

  /** `s.split(".")[0]`: everything before the first `.`, or all of `s` when it has none. */
  function BeforeFirstDot(s: string): (p: string)
    ensures |p| <= |s| && p == s[..|p|]
    ensures '.' !in p
    ensures |p| < |s| ==> s[|p|] == '.'
  {
    if |s| == 0 || s[0] == '.' then "" else [s[0]] + BeforeFirstDot(s[1..])
  }

  /**
   * JavaScript's `a < b` on strings: lexicographic on characters, a proper prefix first.
   * Characters compare by code point here (see the README on UTF-16).
   */
  predicate StrLt(a: string, b: string)
    decreases |a|
  {
    if |b| == 0 then false
    else if |a| == 0 then true
    else if a[0] != b[0] then a[0] < b[0]
    else StrLt(a[1..], b[1..])
  }

  lemma {:induction false} StrLtIrreflexive(a: string)
    ensures !StrLt(a, a)
    decreases |a|
  {
    if |a| > 0 {
      StrLtIrreflexive(a[1..]);
    }
  }

  lemma {:induction false} StrLtTransitive(a: string, b: string, c: string)
    requires StrLt(a, b) && StrLt(b, c)
    ensures StrLt(a, c)
    decreases |a|
  {
    if |a| > 0 && a[0] == b[0] && b[0] == c[0] {
      StrLtTransitive(a[1..], b[1..], c[1..]);
    }
  }

  lemma {:induction false} StrLtTrichotomy(a: string, b: string)
    ensures StrLt(a, b) || a == b || StrLt(b, a)
    decreases |a|
  {
    if |a| > 0 && |b| > 0 && a[0] == b[0] {
      StrLtTrichotomy(a[1..], b[1..]);
      if a[1..] == b[1..] {
        assert a == [a[0]] + a[1..] && b == [b[0]] + b[1..];
      }
    }
  }

  /** `s.filter((y) => y !== x)`: the elements other than `x`, in order. */
  function Without(s: seq<string>, x: string): (r: seq<string>)
    ensures forall y :: y in r <==> y in s && y != x
    ensures |r| <= |s|
  {
    if |s| == 0 then []
    else (if s[0] == x then [] else [s[0]]) + Without(s[1..], x)
  }
}
