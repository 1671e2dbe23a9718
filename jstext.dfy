/** The few JavaScript string built-ins the portfolio scripts rely on. A Dafny `string` is a
    sequence of Unicode scalar values, while JavaScript's `length`, `charAt` and `substring`
    count UTF-16 code units; `Utf16` gives a string's code units and `Length` its JavaScript
    length. `trim`, `indexOf` of a character, `includes` and the e-mail pattern give the same
    answers on either view: the characters they look for are single code units, and a
    surrogate pair never matches one. */
module JsText {

  datatype Option<+T> = None | Some(value: T)

  /** The ECMAScript WhiteSpace and LineTerminator code points: exactly what
      `String.prototype.trim` strips and what the regular-expression class `\s` matches. */
  predicate IsWhiteSpace(c: char) {
    var n := c as int;
    n == 0x09 || n == 0x0A || n == 0x0B || n == 0x0C || n == 0x0D || n == 0x20 || n == 0xA0
    || n == 0x1680 || (0x2000 <= n <= 0x200A) || n == 0x2028 || n == 0x2029 || n == 0x202F
    || n == 0x205F || n == 0x3000 || n == 0xFEFF
  }

  predicate NoWhiteSpace(s: string) {
    forall k :: 0 <= k < |s| ==> !IsWhiteSpace(s[k])
  }

  /** `s` without its leading white space: a suffix of `s`, everything cut was white space,
      and what is left starts with something else. */
  function TrimStart(s: string): (r: string)
    ensures |r| <= |s| && r == s[|s| - |r|..]
    ensures forall k :: 0 <= k < |s| - |r| ==> IsWhiteSpace(s[k])
    ensures r == [] || !IsWhiteSpace(r[0])
  {
    if |s| > 0 && IsWhiteSpace(s[0]) then TrimStart(s[1..]) else s
  }

  /** `s` without its trailing white space: a prefix of `s`, everything cut was white space,
      and what is left ends with something else. */
  function TrimEnd(s: string): (r: string)
    ensures |r| <= |s| && r == s[..|r|]
    ensures forall k :: |r| <= k < |s| ==> IsWhiteSpace(s[k])
    ensures r == [] || !IsWhiteSpace(r[|r| - 1])
  {
    if |s| > 0 && IsWhiteSpace(s[|s| - 1]) then TrimEnd(s[..|s| - 1]) else s
  }

  /** `String.prototype.trim`; `TrimIsSlice` says which characters it keeps. */
  function Trim(s: string): (r: string)
    ensures |r| <= |s|
    ensures r == [] || (!IsWhiteSpace(r[0]) && !IsWhiteSpace(r[|r| - 1]))
    ensures r == [] <==> forall k :: 0 <= k < |s| ==> IsWhiteSpace(s[k])
    ensures NoWhiteSpace(s) ==> r == s
  {
    TrimKeepsClean(s);
    TrimEnds(s);
    TrimEnd(TrimStart(s))
  }

  /** `trim` keeps the run of `s` that starts where `TrimStart` starts, with only white space
      before and after it. */
  lemma TrimIsSlice(s: string)
    ensures var r, a := Trim(s), |s| - |TrimStart(s)|;
      && a + |r| <= |s| && (forall k :: 0 <= k < |r| ==> r[k] == s[a + k])
      && (forall k :: 0 <= k < a ==> IsWhiteSpace(s[k]))
      && (forall k :: a + |r| <= k < |s| ==> IsWhiteSpace(s[k]))
  {
    var t := TrimStart(s);
    assert Trim(s) == TrimEnd(t);
    PrefixOfSuffix(s, t, TrimEnd(t));
  }

  /** A prefix `r` of a suffix `t` of `s` is a run of `s`, and what follows `r` in `t`
      follows it in `s`. */
  lemma PrefixOfSuffix(s: string, t: string, r: string)
    requires |t| <= |s| && t == s[|s| - |t|..] && |r| <= |t| && r == t[..|r|]
    requires forall k :: |r| <= k < |t| ==> IsWhiteSpace(t[k])
    ensures var a := |s| - |t|;
      && (forall k :: 0 <= k < |r| ==> r[k] == s[a + k])
      && (forall k :: a + |r| <= k < |s| ==> IsWhiteSpace(s[k]))
  {
    var a := |s| - |t|;
    forall k | a + |r| <= k < |s|
      ensures IsWhiteSpace(s[k])
    {
      assert s[k] == t[k - a];
    }
  }

  /** Both ends of what the trims keep are not white space, and nothing is kept exactly when
      `s` is all white space. */
  lemma TrimEnds(s: string)
    ensures var r := TrimEnd(TrimStart(s));
      && (r == [] || (!IsWhiteSpace(r[0]) && !IsWhiteSpace(r[|r| - 1])))
      && (r == [] <==> forall k :: 0 <= k < |s| ==> IsWhiteSpace(s[k]))
  {
    var t := TrimStart(s);
    var r := TrimEnd(t);
    if r != [] {
      assert r[0] == t[0];
    }
  }

  lemma TrimKeepsClean(s: string)
    ensures NoWhiteSpace(s) ==> TrimEnd(TrimStart(s)) == s
  {
    if NoWhiteSpace(s) {
      if |s| > 0 { assert !IsWhiteSpace(s[0]) && !IsWhiteSpace(s[|s| - 1]); }
      assert TrimStart(s) == s;
    }
  }

  /** `s.indexOf(c)`: the first position holding `c`, if any. */
  function IndexOf(s: string, c: char): (r: Option<nat>)
    ensures r.Some? ==> r.value < |s| && s[r.value] == c && forall k :: 0 <= k < r.value ==> s[k] != c
    ensures r.None? ==> forall k :: 0 <= k < |s| ==> s[k] != c
  {
    if |s| == 0 then None
    else if s[0] == c then Some(0)
    else match IndexOf(s[1..], c)
      case None => None
      case Some(i) => Some(i + 1)
  }

  /** `t` occurs in `s` starting at position `i`. */
  predicate OccursAt(s: string, t: string, i: int) {
    0 <= i && i + |t| <= |s| && s[i..i + |t|] == t
  }

  /** `s.includes(t)`, decided by trying each start position in turn. */
  predicate Includes(s: string, t: string)
    decreases |s|
  {
    (|t| <= |s| && s[..|t|] == t) || (|s| > 0 && Includes(s[1..], t))
  }

  /** `Includes` holds exactly when `t` occurs somewhere in `s`. */
  lemma {:induction false} IncludesIffOccurs(s: string, t: string)
    ensures Includes(s, t) <==> exists i :: OccursAt(s, t, i)
    decreases |s|
  {
    if |t| <= |s| && s[..|t|] == t {
      assert OccursAt(s, t, 0);
    } else if |s| > 0 {
      IncludesIffOccurs(s[1..], t);
      if Includes(s[1..], t) {
        var i :| OccursAt(s[1..], t, i);
        assert s[i + 1..i + 1 + |t|] == s[1..][i..i + |t|];
        assert OccursAt(s, t, i + 1);
      }
      if exists i :: OccursAt(s, t, i) {
        var i :| OccursAt(s, t, i);
        assert i != 0;
        assert s[1..][i - 1..i - 1 + |t|] == s[i..i + |t|];
        assert OccursAt(s[1..], t, i - 1);
      }
    } else {
      assert forall i :: !OccursAt(s, t, i);
    }
  }

  function DigitChar(d: nat): (c: char)
    requires d < 10
    ensures '0' <= c <= '9' && c as int - '0' as int == d
  {
    ('0' as int + d) as char
  }

  predicate IsNumeral(s: string) {
    |s| > 0 && forall k :: 0 <= k < |s| ==> '0' <= s[k] <= '9'
  }

  /** The decimal numeral JavaScript prints for a non-negative integer (`${n}`): digits only,
      with no leading zero except for 0 itself. */
  function DecimalString(n: nat): (r: string)
    ensures IsNumeral(r)
    ensures r[0] == '0' ==> n == 0 && r == "0"
  {
    if n < 10 then [DigitChar(n)] else DecimalString(n / 10) + [DigitChar(n % 10)]
  }

  /** The number a decimal numeral denotes. */
  function DecimalValue(s: string): nat
    requires forall k :: 0 <= k < |s| ==> '0' <= s[k] <= '9'
  {
    if s == [] then 0 else DecimalValue(s[..|s| - 1]) * 10 + (s[|s| - 1] as int - '0' as int)
  }

  /** Reading back the numeral `DecimalString` prints gives the number again. */
  lemma {:induction false} DecimalRoundTrip(n: nat)
    ensures DecimalValue(DecimalString(n)) == n
  {
    var r := DecimalString(n);
    if n < 10 {
      assert r[..|r| - 1] == [];
    } else {
      var p := DecimalString(n / 10);
      assert r[..|r| - 1] == p;
      DecimalRoundTrip(n / 10);
    }
  }

  /** `s` holds digits only (possibly none). */
  predicate AllDigits(s: string) {
    forall k :: 0 <= k < |s| ==> '0' <= s[k] <= '9'
  }

  function Pow10(k: nat): (r: nat)
    ensures r >= 1
  {
    if k == 0 then 1 else 10 * Pow10(k - 1)
  }

  /** A numeral of `k` digits is below `10^k`. */
  lemma {:induction false} DecimalBelowPow10(s: string)
    requires AllDigits(s)
    ensures DecimalValue(s) < Pow10(|s|)
  {
    if s != [] {
      var p := s[..|s| - 1];
      DecimalBelowPow10(p);
      assert DecimalValue(s) <= DecimalValue(p) * 10 + 9;
      assert DecimalValue(p) * 10 + 9 < Pow10(|p|) * 10 by {
        assert DecimalValue(p) + 1 <= Pow10(|p|);
      }
    }
  }

  /** The value of `k` fraction digits that spell `v`: `v / 10^k`, which is below 1 when
      `v` has no more than `k` digits. */
  function Fraction(v: nat, k: nat): (r: real)
    ensures 0.0 <= r
    ensures v < Pow10(k) ==> r < 1.0
  {
    var p := Pow10(k) as real;
    if v < Pow10(k) then
      RatioBelowOne(v as real, p);
      v as real / p
    else v as real / p
  }

  lemma RatioBelowOne(x: real, p: real)
    requires 0.0 <= x < p
    ensures 0.0 <= x / p < 1.0
  {
    var r := x / p;
    assert r * p == x;
  }

  /** An unsigned decimal literal: digits, optionally a '.' and more digits, with at least
      one digit in all ("7", "0.15", ".5" and "1." are literals; "", "." and "1.2.3" are not). */
  function UnsignedDecimal(s: string): (r: Option<real>)
    ensures r.Some? ==> s != [] && 0.0 <= r.value
    ensures AllDigits(s) && s != [] ==> r == Some(DecimalValue(s) as real)
  {
    match IndexOf(s, '.')
    case None => if AllDigits(s) && s != [] then Some(DecimalValue(s) as real) else None
    case Some(p) =>
      var whole, frac := s[..p], s[p + 1..];
      if AllDigits(whole) && AllDigits(frac) && |whole| + |frac| > 0 then
        Some(DecimalValue(whole) as real + Fraction(DecimalValue(frac), |frac|))
      else None
  }

  /** A literal whose first '.' is at `p` is read from the digits on either side of it. */
  lemma LiteralAtPoint(s: string, p: nat)
    requires p < |s| && IndexOf(s, '.') == Some(p)
    requires AllDigits(s[..p]) && AllDigits(s[p + 1..]) && |s| > 1
    ensures UnsignedDecimal(s) == Some(DecimalValue(s[..p]) as real + Fraction(DecimalValue(s[p + 1..]), |s[p + 1..]|))
  {
  }

  /** `Number(s)`, before rounding: the string without the white space `trim` removes is a
      numeric literal, and the result is the exact value it denotes. JavaScript then rounds
      that value to the nearest double, which the model leaves to its callers. `None` is NaN,
      which is also what the model gives for "Infinity" and for the exponent, hexadecimal,
      octal and binary forms it does not parse. */
  function ToNumber(s: string): Option<real> {
    NumericLiteral(Trim(s))
  }

  /** A trimmed numeric literal: the empty string is 0, and otherwise an unsigned decimal
      literal with an optional sign. */
  function NumericLiteral(t: string): (r: Option<real>)
    ensures t == "" ==> r == Some(0.0)
    ensures t != "" && t[0] == '-' ==> r == if UnsignedDecimal(t[1..]).Some? then Some(-UnsignedDecimal(t[1..]).value) else None
    ensures r.Some? && t != "" && t[0] != '-' ==> r.value >= 0.0
  {
    if t == "" then Some(0.0)
    else if t[0] == '-' then
      match UnsignedDecimal(t[1..])
      case None => None
      case Some(x) => Some(-x)
    else if t[0] == '+' then UnsignedDecimal(t[1..])
    else UnsignedDecimal(t)
  }

  /** `Number` reads a numeral as the value it denotes. */
  lemma NumeralReads(d: string)
    requires IsNumeral(d)
    ensures ToNumber(d) == Some(DecimalValue(d) as real)
  {
    NumeralIsClean(d);
  }

  /** A minus sign before a numeral negates what `Number` reads. */
  lemma NegatedNumeral(d: string)
    requires IsNumeral(d)
    ensures ToNumber("-" + d) == Some(-(DecimalValue(d) as real))
  {
    var m := "-" + d;
    assert m[1..] == d;
    MinusNumeralClean(d);
    NumeralDecimal(d);
  }

  /** A numeral is an unsigned decimal literal with the value it denotes. */
  lemma NumeralDecimal(d: string)
    requires IsNumeral(d)
    ensures UnsignedDecimal(d) == Some(DecimalValue(d) as real)
  {
    assert AllDigits(d);
  }

  /** `trim` leaves a minus sign and a numeral alone. */
  lemma MinusNumeralClean(d: string)
    requires IsNumeral(d)
    ensures Trim("-" + d) == "-" + d
  {
    var m := "-" + d;
    assert NoWhiteSpace(m) by {
      forall k | 0 <= k < |m| ensures !IsWhiteSpace(m[k]) {
        if k > 0 {
          assert m[k] == d[k - 1];
          assert '0' <= d[k - 1] <= '9';
        }
      }
    }
    TrimKeepsClean(m);
  }

  /** A numeral is all digits and holds no white space, so `trim` leaves it alone, and it is
      an unsigned decimal literal. */
  lemma NumeralIsClean(d: string)
    requires IsNumeral(d)
    ensures AllDigits(d) && NoWhiteSpace(d) && Trim(d) == d
    ensures UnsignedDecimal(d) == Some(DecimalValue(d) as real)
  {
    assert NoWhiteSpace(d) by {
      forall k | 0 <= k < |d| ensures !IsWhiteSpace(d[k]) {
        assert '0' <= d[k] <= '9';
      }
    }
    TrimKeepsClean(d);
  }

  // ---------------------------------------------------------------------------------------
  // UTF-16
  // ---------------------------------------------------------------------------------------

  type CodeUnit = n: int | 0 <= n < 0x1_0000

  /** The UTF-16 code units of one character: the character itself below 0x10000, otherwise
      a high and a low surrogate that decode back to it. */
  function Units(c: char): (u: seq<CodeUnit>)
    ensures |u| == if c as int < 0x1_0000 then 1 else 2
    ensures |u| == 1 ==> u[0] == c as int
    ensures |u| == 2 ==> && 0xD800 <= u[0] < 0xDC00 && 0xDC00 <= u[1] < 0xE000
                         && (u[0] as int - 0xD800) * 0x400 + (u[1] as int - 0xDC00) + 0x1_0000 == c as int
  {
    var n := c as int;
    if n < 0x1_0000 then [n]
    else [0xD800 + (n - 0x1_0000) / 0x400, 0xDC00 + (n - 0x1_0000) % 0x400]
  }

  /** The code units of `s`, as JavaScript stores it. */
  function Utf16(s: string): (u: seq<CodeUnit>)
    ensures |s| <= |u| <= 2 * |s|
  {
    if s == [] then [] else Units(s[0]) + Utf16(s[1..])
  }

  /** `s.length`. */
  function Length(s: string): nat {
    |Utf16(s)|
  }

  lemma {:induction false} Utf16Append(a: string, b: string)
    ensures Utf16(a + b) == Utf16(a) + Utf16(b)
  {
    if a == [] {
      assert a + b == b;
    } else {
      assert (a + b)[0] == a[0] && (a + b)[1..] == a[1..] + b;
      Utf16Append(a[1..], b);
    }
  }

  /** Below 0x10000 `length` counts characters; every character above counts twice. */
  lemma {:induction false} LengthCountsPairs(s: string)
    ensures (forall k :: 0 <= k < |s| ==> s[k] as int < 0x1_0000) ==> Length(s) == |s|
    ensures (forall k :: 0 <= k < |s| ==> s[k] as int >= 0x1_0000) ==> Length(s) == 2 * |s|
  {
    if s != [] {
      assert forall k :: 0 <= k < |s| - 1 ==> s[1..][k] == s[k + 1];
      LengthCountsPairs(s[1..]);
    }
  }

  /** `s.substring(0, n)` as far as whole characters go: the longest prefix of `s` whose code
      units fit in `n` (`Utf16PrefixFits`). */
  function Utf16Prefix(s: string, n: nat): (r: string)
    ensures |r| <= |s| && r == s[..|r|]
  {
    if s == [] then []
    else
      var w := |Units(s[0])|;
      if w > n then [] else [s[0]] + Utf16Prefix(s[1..], n - w)
  }

  /** The prefix's code units are the first ones of `s`, at most `n` of them; it is all of `s`
      when that fits, and the next character would not have fitted. */
  lemma Utf16PrefixFits(s: string, n: nat)
    ensures var r := Utf16Prefix(s, n);
      && Length(r) <= n && Length(r) <= Length(s) && Utf16(r) == Utf16(s)[..Length(r)]
      && (Length(s) <= n ==> r == s)
      && (|r| < |s| ==> Length(r) + |Units(s[|r|])| > n)
  {
    Utf16PrefixUnits(s, n);
    Utf16PrefixMaximal(s, n);
  }

  /** The prefix's code units are the first ones of `s`, at most `n` of them. */
  lemma {:induction false} Utf16PrefixUnits(s: string, n: nat)
    ensures var r := Utf16Prefix(s, n);
      Length(r) <= n && Length(r) <= Length(s) && Utf16(r) == Utf16(s)[..Length(r)]
  {
    if s != [] {
      var w := |Units(s[0])|;
      if w <= n {
        var rest := Utf16Prefix(s[1..], n - w);
        Utf16PrefixUnits(s[1..], n - w);
        var r := [s[0]] + rest;
        assert r[0] == s[0] && r[1..] == rest;
        var u, su := Units(s[0]), Utf16(s[1..]);
        assert Utf16(r) == u + Utf16(rest);
        assert Utf16(s) == u + su;
        PrefixOfConcat(u, su, Length(rest));
      }
    }
  }

  /** The prefix is all of `s` when that fits, and otherwise the next character would not
      have fitted. */
  lemma {:induction false} Utf16PrefixMaximal(s: string, n: nat)
    ensures var r := Utf16Prefix(s, n);
      && (Length(s) <= n ==> r == s)
      && (|r| < |s| ==> Length(r) + |Units(s[|r|])| > n)
  {
    if s != [] {
      var w := |Units(s[0])|;
      if w <= n {
        var rest := Utf16Prefix(s[1..], n - w);
        Utf16PrefixMaximal(s[1..], n - w);
        var r := [s[0]] + rest;
        assert r[0] == s[0] && r[1..] == rest;
        assert Utf16(r) == Units(s[0]) + Utf16(rest);
        assert Utf16(s) == Units(s[0]) + Utf16(s[1..]);
        if |r| < |s| {
          assert s[|r|] == s[1..][|rest|];
        }
      }
    }
  }

  lemma PrefixOfConcat<T>(a: seq<T>, b: seq<T>, k: nat)
    requires k <= |b|
    ensures (a + b)[..|a| + k] == a + b[..k]
  {
  }

  /** Where `substring(0, n)` and `Utf16Prefix` part: only when the code unit at `n - 1` is the
      high half of a pair, which `substring` keeps alone and the prefix leaves out. */
  lemma Utf16PrefixCut(s: string, n: nat)
    requires Length(s) > n
    ensures var r := Utf16Prefix(s, n);
      || Length(r) == n
      || (n > 0 && Length(r) == n - 1 && 0xD800 <= Utf16(s)[n - 1] < 0xDC00)
  {
    var r := Utf16Prefix(s, n);
    Utf16PrefixFits(s, n);
    if Length(r) < n {
      assert r != s && s[..|s|] == s;
      assert |r| < |s|;
      var rest := s[|r|..];
      var c := rest[0];
      assert c == s[|r|];
      assert s == r + rest;
      Utf16Append(r, rest);
      var u := Units(c);
      assert |u| == 2 && Length(r) == n - 1;
      assert Utf16(rest) == u + Utf16(rest[1..]);
      assert Utf16(s)[n - 1] == u[0];
    }
  }
}
