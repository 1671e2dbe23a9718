/** The visibility-triggered scripts of js/animations.js: the reusable `AnimationObserver`,
    scroll reveal and its automatic tagging, the stagger and timeline observers, the
    typewriter and the mouse trail. An element is its class list; an observer is an
    `Intersection.Observer`. */
module Animations {
  import opened JsText
  import opened Intersection

  // ---------------------------------------------------------------------------------------
  // AnimationObserver options
  // ---------------------------------------------------------------------------------------

  /** A JavaScript value as an option can hold it. A number is the exact value of its double;
      NaN and the infinities are not modelled. */
  datatype JsValue =
    | Undefined
    | Null
    | Bool(b: bool)
    | Number(x: real)
    | Text(s: string)

  /** JavaScript truthiness: `undefined`, `null`, `false`, `0` and `""` are falsy. */
  predicate Truthy(v: JsValue) {
    match v
    case Undefined => false
    case Null => false
    case Bool(b) => b
    case Number(x) => x != 0.0
    case Text(s) => s != ""
  }

  /** `a || d`. */
  function Or(a: JsValue, d: JsValue): JsValue {
    if Truthy(a) then a else d
  }

  /** The `options` object of the constructor; an absent property is `Undefined`. */
  datatype Options = Options(threshold: JsValue, rootMargin: JsValue, animationClass: JsValue, once: JsValue)

  /** The `options = {}` default. */
  const NoOptions: Options := Options(Undefined, Undefined, Undefined, Undefined)

  /** `this.options` as the constructor builds it: each of the first three settings through
      `||` with its default, `once` through `!== undefined` with default `true`. */
  function Resolve(o: Options): (r: Options)
    ensures Truthy(r.threshold) && Truthy(r.rootMargin) && Truthy(r.animationClass)
    ensures r.once != Undefined
    ensures Truthy(o.animationClass) ==> r.animationClass == o.animationClass
  {
    Options(Or(o.threshold, Number(0.2)), Or(o.rootMargin, Text("0px")), Or(o.animationClass, Text("animate")),
            if o.once != Undefined then o.once else Bool(true))
  }

  /** With no options at all the observer uses threshold 0.2, root margin '0px', class
      'animate' and fires once. */
  lemma ResolveDefaults()
    ensures Resolve(NoOptions) == Options(Number(0.2), Text("0px"), Text("animate"), Bool(true))
  {
  }

  /** The `||` defaults: a falsy setting, such as threshold 0 or class "", is replaced by the
      default, and a truthy one is kept. */
  lemma FalsySettingsReplaced(o: Options)
    ensures Resolve(o).threshold == (if Truthy(o.threshold) then o.threshold else Number(0.2))
    ensures Resolve(o).rootMargin == (if Truthy(o.rootMargin) then o.rootMargin else Text("0px"))
    ensures Resolve(o).animationClass == (if Truthy(o.animationClass) then o.animationClass else Text("animate"))
    ensures o.threshold == Number(0.0) ==> Resolve(o).threshold == Number(0.2)
    ensures o.animationClass == Text("") ==> Resolve(o).animationClass == Text("animate")
  {
  }

  /** 2^53. Every integer up to it in magnitude is a double, and JavaScript prints it digit by
      digit. Beyond it a double is printed with the shortest digits that read back to it,
      padded with zeros (2^60 prints as "1152921504606847000"), and from 10^21 on in exponent
      notation; the model prints none of those. */
  const SafeInteger: real := 9_007_199_254_740_992.0

  /** The string `classList.add` receives for an option value (`String(v)`). Integral numbers
      up to 2^53 in magnitude are printed in decimal; other numbers are not modelled. */
  function ClassName(v: JsValue): (r: Option<string>)
    ensures v.Text? ==> r == Some(v.s)
    ensures v.Number? && v.x == v.x.Floor as real && 0.0 <= v.x <= SafeInteger ==> r == Some(DecimalString(v.x.Floor))
    ensures v.Number? && v.x == v.x.Floor as real && -SafeInteger <= v.x < 0.0 ==> r == Some("-" + DecimalString(-v.x.Floor))
    ensures r.None? <==> v.Number? && (v.x != v.x.Floor as real || v.x > SafeInteger || v.x < -SafeInteger)
    ensures v == Undefined ==> r == Some("undefined")
    ensures v == Null ==> r == Some("null")
    ensures v.Bool? ==> r == Some(if v.b then "true" else "false")
  {
    match v
    case Undefined => Some("undefined")
    case Null => Some("null")
    case Bool(b) => Some(if b then "true" else "false")
    case Number(x) =>
      if x != x.Floor as real || x > SafeInteger || x < -SafeInteger then None
      else if x >= 0.0 then Some(DecimalString(x.Floor))
      else Some("-" + DecimalString(-x.Floor))
    case Text(s) => Some(s)
  }

  /** ASCII white space, which a class token may not hold. */
  predicate AsciiWhiteSpace(c: char) {
    c == '\t' || c == '\n' || c == '\U{000C}' || c == '\r' || c == ' '
  }

  /** A token `classList.add` and `classList.remove` accept: the empty string throws a
      SyntaxError and one holding ASCII white space an InvalidCharacterError. */
  predicate ValidToken(s: string) {
    s != "" && forall k :: 0 <= k < |s| ==> !AsciiWhiteSpace(s[k])
  }

  /** The callback the resolved options make: with a truthy `once`, add the class and
      unobserve; otherwise add it on an intersecting entry and remove it on any other. A
      class the class list refuses makes the callback throw at its first add or remove. */
  function ReactionOf(o: Options): (r: Option<Reaction>)
    ensures r.Some? <==> ClassName(o.animationClass).Some?
    ensures r.Some? ==> r.value.cls == ClassName(o.animationClass).value
    ensures r.Some? ==> (r.value.Rejected? <==> !ValidToken(r.value.cls))
    ensures r.Some? && ValidToken(r.value.cls) ==>
      (r.value.AddOnce? <==> Truthy(o.once)) && (r.value.Toggle? <==> !Truthy(o.once))
  {
    match ClassName(o.animationClass)
    case None => None
    case Some(c) => Some(if !ValidToken(c) then Rejected(c) else if Truthy(o.once) then AddOnce(c) else Toggle(c))
  }

  /** `once` is honoured whenever it is given: for an accepted class, the observer repeats
      exactly when `once` is present and falsy (`false`, `null`, `0`, ""), and fires once when
      it is absent. */
  lemma OnceOption(o: Options)
    requires ClassName(Resolve(o).animationClass).Some?
    ensures var r := ReactionOf(Resolve(o)).value;
      r.Toggle? <==> ValidToken(r.cls) && o.once != Undefined && !Truthy(o.once)
    ensures var r := ReactionOf(Resolve(o)).value;
      r.AddOnce? <==> ValidToken(r.cls) && (o.once == Undefined || Truthy(o.once))
  {
  }

  /** The largest exact value that rounds to a double no greater than 1: it lies halfway
      between 1 and the next double, 1 + 2^-52, and the tie goes to the even one, 1. */
  const RoundsToOne: real := 1.0 + 1.0 / SafeInteger

  /** What `new IntersectionObserver` makes of the `threshold` it is given: the number it
      converts to must be finite (NaN is a TypeError) and lie in [0, 1] (otherwise a
      RangeError). `undefined` takes the default 0, `null` and `false` convert to 0 and
      `true` to 1. A string's literal is rounded to the nearest double first, so a value up
      to `RoundsToOne` is still 1. */
  predicate ThresholdAccepted(v: JsValue) {
    match v
    case Undefined => true
    case Null => true
    case Bool(_) => true
    case Number(x) => 0.0 <= x <= 1.0
    case Text(s) => ToNumber(s).Some? && 0.0 <= ToNumber(s).value <= RoundsToOne
  }

  /** A CSS number: an optional sign, then digits with an optional fraction, or a fraction
      alone. */
  predicate CssNumber(t: string) {
    var u := if |t| > 0 && (t[0] == '+' || t[0] == '-') then t[1..] else t;
    UnsignedDecimal(u).Some? && u[|u| - 1] != '.'
  }

  /** One root-margin token: a CSS number directly followed by `px`, in any letter case, or
      by `%`. */
  predicate MarginLength(t: string) {
    || (|t| >= 1 && t[|t| - 1] == '%' && CssNumber(t[..|t| - 1]))
    || (|t| >= 2 && (t[|t| - 2] == 'p' || t[|t| - 2] == 'P') && (t[|t| - 1] == 'x' || t[|t| - 1] == 'X')
        && CssNumber(t[..|t| - 2]))
  }

  /** The end of the token that starts at 0 and runs at least to `i`. */
  function WordEnd(s: string, i: nat): (n: nat)
    requires 0 < i <= |s| && forall k :: 0 <= k < i ==> !AsciiWhiteSpace(s[k])
    ensures i <= n <= |s| && forall k :: 0 <= k < n ==> !AsciiWhiteSpace(s[k])
    ensures n < |s| ==> AsciiWhiteSpace(s[n])
    decreases |s| - i
  {
    if i == |s| || AsciiWhiteSpace(s[i]) then i else WordEnd(s, i + 1)
  }

  /** The tokens of a string separated by CSS white space (the ASCII white space a class
      token may not hold), in order. */
  function Words(s: string): (r: seq<string>)
    ensures forall k :: 0 <= k < |r| ==> ValidToken(r[k])
    decreases |s|
  {
    if s == [] then []
    else if AsciiWhiteSpace(s[0]) then Words(s[1..])
    else
      var n := WordEnd(s, 1);
      [s[..n]] + Words(s[n..])
  }

  /** A token followed by white space, or by nothing, is the first of the words. */
  lemma {:induction false} WordsCons(a: string, b: string)
    requires ValidToken(a)
    ensures Words(a) == [a]
    ensures Words(a + " " + b) == [a] + Words(b)
  {
    WordEndAt(a, [], 1);
    assert a[..|a|] == a && a[|a|..] == [];
    var s := a + " " + b;
    WordEndAt(a, " " + b, 1);
    assert s == a + (" " + b);
    assert s[..|a|] == a;
    assert s[|a|..] == " " + b && (" " + b)[1..] == b;
  }

  lemma {:induction false} WordEndAt(a: string, rest: string, i: nat)
    requires ValidToken(a) && 0 < i <= |a|
    requires rest == [] || AsciiWhiteSpace(rest[0])
    ensures WordEnd(a + rest, i) == |a|
    decreases |a| - i
  {
    var s := a + rest;
    if i < |a| {
      assert s[i] == a[i];
      WordEndAt(a, rest, i + 1);
    } else if rest != [] {
      assert s[i] == rest[0];
    }
  }

  /** `parse a root margin`: up to four white-space-separated tokens, each a length in
      pixels or a percentage; no token at all means '0px'. Anything else is a SyntaxError. */
  predicate MarginParses(s: string) {
    var w := Words(s);
    |w| <= 4 && forall k :: 0 <= k < |w| ==> MarginLength(w[k])
  }

  /** The `rootMargin` `new IntersectionObserver` accepts. `undefined` takes the default
      '0px'; any other value that is not a string prints as a word or a numeral with no unit
      (`Animations.PrintedValuesNoMargin`), so only a string can parse. */
  predicate MarginAccepted(v: JsValue) {
    match v
    case Undefined => true
    case Text(s) => MarginParses(s)
    case _ => false
  }

  /** `null`, the booleans and the integral numbers print as one token with no unit, which is
      no root margin. */
  lemma PrintedValuesNoMargin(v: JsValue)
    requires !v.Undefined? && !v.Text? && ClassName(v).Some?
    ensures !MarginParses(ClassName(v).value)
  {
    var s := ClassName(v).value;
    if v.Number? {
      var d := if v.x >= 0.0 then DecimalString(v.x.Floor) else DecimalString(-v.x.Floor);
      NumeralCss(d);
      NegatedCss(d);
      assert s == d || s == "-" + d;
      assert '0' <= d[|d| - 1] <= '9';
      assert s[|s| - 1] == d[|d| - 1];
      UnitlessToken(s);
    } else {
      assert s == "null" || s == "true" || s == "false";
      UnitlessToken(s);
    }
  }

  /** One token that ends in neither `x` nor `%` is no root margin. */
  lemma UnitlessToken(s: string)
    requires ValidToken(s) && s[|s| - 1] != '%' && s[|s| - 1] != 'x' && s[|s| - 1] != 'X'
    ensures !MarginParses(s)
  {
    WordsCons(s, []);
    assert Words(s)[0] == s;
  }

  /** Whether `new IntersectionObserver` accepts the geometry of the resolved options: when it
      does not, the constructor throws. */
  predicate GeometryAccepted(o: Options) {
    ThresholdAccepted(o.threshold) && MarginAccepted(o.rootMargin)
  }

  /** A numeral followed by `px` or `%`, with or without a minus sign, is a root-margin
      length. */
  lemma NumeralLength(d: string, negative: bool, unit: string)
    requires IsNumeral(d) && (unit == "px" || unit == "%")
    ensures var n := if negative then "-" + d else d;
      ValidToken(n + unit) && MarginLength(n + unit)
  {
    var n := if negative then "-" + d else d;
    NumeralCss(d);
    if negative {
      NegatedCss(d);
    }
    var t := n + unit;
    assert t[..|t| - |unit|] == n;
    forall k | 0 <= k < |t|
      ensures !AsciiWhiteSpace(t[k])
    {
      if k < |n| {
        assert t[k] == n[k];
      }
    }
  }

  /** A numeral is a CSS number holding no white space. */
  lemma NumeralCss(d: string)
    requires IsNumeral(d)
    ensures CssNumber(d) && forall k :: 0 <= k < |d| ==> !AsciiWhiteSpace(d[k])
  {
    NumeralIsClean(d);
    assert '0' <= d[0] <= '9';
    assert '0' <= d[|d| - 1] <= '9';
    forall k | 0 <= k < |d| ensures !AsciiWhiteSpace(d[k]) {
      assert '0' <= d[k] <= '9';
    }
  }

  /** So is a numeral after a minus sign. */
  lemma NegatedCss(d: string)
    requires IsNumeral(d)
    ensures CssNumber("-" + d) && forall k :: 0 <= k < |"-" + d| ==> !AsciiWhiteSpace(("-" + d)[k])
  {
    NumeralIsClean(d);
    var n := "-" + d;
    assert n[1..] == d;
    assert '0' <= d[|d| - 1] <= '9';
    forall k | 0 <= k < |n| ensures !AsciiWhiteSpace(n[k]) {
      if k > 0 {
        assert n[k] == d[k - 1];
        assert '0' <= d[k - 1] <= '9';
      }
    }
  }

  /** The defaults are accepted. */
  lemma DefaultGeometryAccepted()
    ensures GeometryAccepted(Resolve(NoOptions))
  {
    NumeralLength("0", false, "px");
    assert "0" + "px" == "0px";
    WordsCons("0px", []);
  }

  /** An integral threshold, given as a number or as its numeral, is accepted exactly when it
      is 0 or 1: any larger one is a RangeError. */
  lemma NumeralThreshold(n: nat)
    ensures ThresholdAccepted(Text(DecimalString(n))) <==> n <= 1
    ensures ThresholdAccepted(Number(n as real)) <==> n <= 1
  {
    var d := DecimalString(n);
    DecimalRoundTrip(n);
    NumeralReads(d);
  }

  /** A decimal fraction such as "0.15" is a threshold in [0, 1). */
  lemma FractionThreshold(t: string)
    requires |t| > 2 && t[0] == '0' && t[1] == '.' && IsNumeral(t[2..])
    ensures ToNumber(t).Some? && 0.0 <= ToNumber(t).value < 1.0
    ensures ThresholdAccepted(Text(t))
  {
    var d := t[2..];
    FractionClean(t);
    assert IndexOf(t, '.') == Some(1);
    assert t[1 + 1..] == d;
    assert AllDigits(t[..1]) && DecimalValue(t[..1]) == 0 by {
      assert t[..1][..0] == [];
    }
    LiteralAtPoint(t, 1);
    DecimalBelowPow10(d);
  }

  /** A literal just above 1, such as "1.0000000000000001", that `Number` rounds to 1 is
      accepted: its fraction digits spell at most `10^k / 2^53`. */
  lemma NearOneThreshold(t: string)
    requires |t| > 2 && t[0] == '1' && t[1] == '.' && IsNumeral(t[2..])
    requires DecimalValue(t[2..]) as real * SafeInteger <= Pow10(|t| - 2) as real
    ensures ToNumber(t).Some? && 1.0 <= ToNumber(t).value <= RoundsToOne
    ensures ThresholdAccepted(Text(t))
  {
    var d := t[2..];
    FractionClean(t);
    assert IndexOf(t, '.') == Some(1);
    assert t[1 + 1..] == d;
    assert AllDigits(t[..1]) && DecimalValue(t[..1]) == 1 by {
      assert t[..1][..0] == [];
    }
    LiteralAtPoint(t, 1);
    RatioAtMost(DecimalValue(d) as real, Pow10(|d|) as real, SafeInteger);
  }

  lemma RatioAtMost(x: real, p: real, n: real)
    requires 0.0 <= x && 0.0 < p && 0.0 < n && x * n <= p
    ensures x / p <= 1.0 / n
  {
    var r := x / p;
    assert r * p == x;
    assert (r * n) * p == x * n;
  }

  /** "1.", then `k` zeros, then "1". From 15 zeros on ("1.0000000000000001") `Number` gives 1,
      so the browser accepts it. */
  lemma NearOneFamily(k: nat)
    requires k >= 15
    ensures ThresholdAccepted(Text("1." + seq(k, _ => '0') + "1"))
  {
    var z := seq(k, _ => '0');
    var t := "1." + z + "1";
    var d := z + "1";
    assert t[2..] == d;
    assert IsNumeral(d) by {
      forall i | 0 <= i < |d| ensures '0' <= d[i] <= '9' {
        if i < k {
          assert d[i] == z[i];
        }
      }
    }
    assert DecimalValue(d) == 1 by {
      assert d[..|d| - 1] == z;
      ZerosValue(k);
    }
    Pow10AtLeast(k + 1);
    NearOneThreshold(t);
  }

  lemma {:induction false} ZerosValue(k: nat)
    ensures DecimalValue(seq(k, _ => '0')) == 0
  {
    if k > 0 {
      var z := seq(k, _ => '0');
      assert z[..k - 1] == seq(k - 1, _ => '0');
      ZerosValue(k - 1);
    }
  }

  /** `10^k` is at least 2^53 from k = 16 on. */
  lemma {:induction false} Pow10AtLeast(k: nat)
    requires k >= 16
    ensures SafeInteger <= Pow10(k) as real
  {
    if k == 16 {
      assert Pow10(4) == 10000;
      assert Pow10(8) == 100000000;
      assert Pow10(12) == 1000000000000;
      assert Pow10(16) == 10_000_000_000_000_000;
    } else {
      Pow10AtLeast(k - 1);
    }
  }

  /** `trim` leaves a digit, a point and a numeral alone. */
  lemma FractionClean(t: string)
    requires |t| > 2 && '0' <= t[0] <= '9' && t[1] == '.' && IsNumeral(t[2..])
    ensures Trim(t) == t
  {
    assert NoWhiteSpace(t) by {
      forall k | 0 <= k < |t| ensures !IsWhiteSpace(t[k]) {
        if k >= 2 {
          assert t[k] == t[2..][k - 2];
          assert '0' <= t[2..][k - 2] <= '9';
        }
      }
    }
    TrimKeepsClean(t);
  }

  /** A string that starts, after trimming, with a letter (such as "half") is NaN, a
      TypeError. */
  lemma WordThreshold(s: string)
    requires Trim(s) != "" && 'a' <= Trim(s)[0] <= 'z'
    ensures ToNumber(s).None? && !ThresholdAccepted(Text(s))
  {
    var t := Trim(s);
    match IndexOf(t, '.')
    case None =>
      assert !AllDigits(t);
    case Some(p) =>
      assert p > 0 && !AllDigits(t[..p]) by {
        assert t[..p][0] == t[0];
      }
  }

  /** The tokens joined by single spaces. */
  function Join(ws: seq<string>): string {
    if ws == [] then "" else if |ws| == 1 then ws[0] else ws[0] + " " + Join(ws[1..])
  }

  /** Splitting tokens joined by spaces gives the tokens back. */
  lemma {:induction false} WordsJoin(ws: seq<string>)
    requires forall k :: 0 <= k < |ws| ==> ValidToken(ws[k])
    ensures Words(Join(ws)) == ws
  {
    if |ws| == 1 {
      WordsCons(ws[0], []);
    } else if |ws| > 1 {
      WordsCons(ws[0], Join(ws[1..]));
      WordsJoin(ws[1..]);
    }
  }

  /** Joined tokens are a root margin exactly when there are at most four and each is a
      length. */
  lemma MarginOfTokens(ws: seq<string>)
    requires forall k :: 0 <= k < |ws| ==> ValidToken(ws[k])
    ensures MarginParses(Join(ws)) <==> |ws| <= 4 && forall k :: 0 <= k < |ws| ==> MarginLength(ws[k])
  {
    WordsJoin(ws);
  }

  /** The scroll reveal's own margin, four lengths, is accepted. */
  lemma ScrollRevealMargin()
    ensures MarginParses("0px 0px -50px 0px")
  {
    ScrollRevealTokens();
    ScrollRevealJoin();
  }

  lemma ScrollRevealJoin()
    ensures Join(["0px", "0px", "-50px", "0px"]) == "0px 0px -50px 0px"
  {
    var ws := ["0px", "0px", "-50px", "0px"];
    assert ws[1..] == ["0px", "-50px", "0px"] && ws[1..][1..] == ["-50px", "0px"] && ws[1..][1..][1..] == ["0px"];
  }

  lemma ScrollRevealTokens()
    ensures MarginParses(Join(["0px", "0px", "-50px", "0px"]))
  {
    ZeroPixels();
    MinusFiftyPixels();
    MarginOfTokens(["0px", "0px", "-50px", "0px"]);
  }

  lemma ZeroPixels()
    ensures ValidToken("0px") && MarginLength("0px")
  {
    NumeralLength("0", false, "px");
    assert "0" + "px" == "0px";
  }

  lemma MinusFiftyPixels()
    ensures ValidToken("-50px") && MarginLength("-50px")
  {
    NumeralLength("50", true, "px");
    assert "-" + "50" + "px" == "-50px";
  }

  /** A unitless number, such as '10' or '-50', is not a root margin. */
  lemma UnitlessMarginRejected(d: string)
    requires IsNumeral(d)
    ensures !MarginParses(d) && !MarginParses("-" + d)
  {
    NumeralCss(d);
    NegatedCss(d);
    var n := "-" + d;
    assert '0' <= d[|d| - 1] <= '9' && n[|n| - 1] == d[|d| - 1];
    UnitlessToken(d);
    UnitlessToken(n);
  }

  /** Neither is a number apart from its unit. */
  lemma DetachedUnitRejected()
    ensures !MarginParses("10 px")
  {
    NumeralCss("10");
    assert ValidToken("px");
    WordsCons("10", "px");
    assert "10 px" == "10" + " " + "px";
    assert Words("10 px")[0] == "10" && !MarginLength("10");
  }

  /** Nor a unit other than pixels and percent. */
  lemma OtherUnitRejected()
    ensures !MarginParses("10em")
  {
    assert ValidToken("10em");
    WordsCons("10em", []);
    assert Words("10em")[0] == "10em" && !MarginLength("10em");
  }

  /** Five lengths are one too many. */
  lemma FiveLengthsRejected()
    ensures !MarginParses("1px 1px 1px 1px 1px")
  {
    FiveLengthTokens();
    FiveLengthJoin();
  }

  lemma FiveLengthJoin()
    ensures Join(["1px", "1px", "1px", "1px", "1px"]) == "1px 1px 1px 1px 1px"
  {
    var ws := ["1px", "1px", "1px", "1px", "1px"];
    assert ws[1..] == ["1px", "1px", "1px", "1px"] && ws[1..][1..] == ["1px", "1px", "1px"];
    assert ws[1..][1..][1..] == ["1px", "1px"] && ws[1..][1..][1..][1..] == ["1px"];
  }

  lemma FiveLengthTokens()
    ensures !MarginParses(Join(["1px", "1px", "1px", "1px", "1px"]))
  {
    NumeralLength("1", false, "px");
    var w := "1" + "px";
    assert w == "1px";
    MarginOfTokens([w, w, w, w, w]);
  }

  /** `new AnimationObserver(elements, options)`: the resolved options and the observer that
      `init` creates and points at every element. */
  class AnimationObserver {
    const options: Options
    const observer: Observer

    /** The construction that completes: the browser accepts the threshold and the root
        margin. */
    constructor (elements: seq<set<string>>, opts: Options)
      requires ClassName(Resolve(opts).animationClass).Some?
      requires GeometryAccepted(Resolve(opts))
      ensures options == Resolve(opts) && ReactionOf(options) == Some(observer.reaction)
      ensures fresh(observer) && |observer.targets| == |elements|
      ensures forall i :: 0 <= i < |elements| ==> observer.targets[i] == Target(elements[i], true)
    {
      options := Resolve(opts);
      var reaction := ReactionOf(Resolve(opts)).value;
      observer := new Observer(reaction, elements, seq(|elements|, i => true));
    }

    /** `new AnimationObserver(elements, options)` as its caller sees it. When
        `new IntersectionObserver` refuses the resolved threshold or root margin, `init`
        throws: the caller gets no object (`null` here) and no element is observed. */
    static method New(elements: seq<set<string>>, opts: Options) returns (a: AnimationObserver?)
      requires ClassName(Resolve(opts).animationClass).Some?
      ensures a == null <==> !GeometryAccepted(Resolve(opts))
      ensures a != null ==> fresh(a) && fresh(a.observer) && a.options == Resolve(opts)
      ensures a != null ==> ReactionOf(a.options) == Some(a.observer.reaction) && |a.observer.targets| == |elements|
      ensures a != null ==> forall i :: 0 <= i < |elements| ==> a.observer.targets[i] == Target(elements[i], true)
    {
      if !GeometryAccepted(Resolve(opts)) {
        return null;
      }
      a := new AnimationObserver(elements, opts);
    }
  }

  /** Fire-once (the default), for a class the class list accepts: the class arrives with the
      first intersecting entry, and after it nothing the observer sees changes the element
      again. */
  lemma OnceFiresOnce(o: Options, t: Target, events: seq<bool>, later: seq<bool>)
    requires ClassName(Resolve(o).animationClass).Some? && ValidToken(ClassName(Resolve(o).animationClass).value)
    requires o.once == Undefined || Truthy(o.once)
    requires t.observed && true in events
    ensures var r := ReactionOf(Resolve(o)).value;
      && r.cls in Run(r, t, events).classes && !Run(r, t, events).observed
      && Run(r, t, events + later) == Run(r, t, events)
  {
    var r := ReactionOf(Resolve(o)).value;
    RunAddOnce(r.cls, t, events);
    AddOnceFrozen(r.cls, t, events, later);
  }

  /** Repeatable (`once` given and falsy), for a class the class list accepts: the class is
      there exactly when the most recent entry was intersecting. */
  lemma RepeatableFollowsLatest(o: Options, t: Target, events: seq<bool>)
    requires ClassName(Resolve(o).animationClass).Some? && ValidToken(ClassName(Resolve(o).animationClass).value)
    requires o.once != Undefined && !Truthy(o.once)
    requires t.observed && events != []
    ensures var r := ReactionOf(Resolve(o)).value;
      (r.cls in Run(r, t, events).classes <==> events[|events| - 1]) && Run(r, t, events).observed
  {
    var r := ReactionOf(Resolve(o)).value;
    RunToggle(r.cls, t, events);
  }

  /** A class the class list refuses, such as "fade in": whatever `once` says, the element
      never gains the class and is never unobserved. */
  lemma RefusedClassInert(o: Options, t: Target, events: seq<bool>)
    requires ClassName(Resolve(o).animationClass).Some? && !ValidToken(ClassName(Resolve(o).animationClass).value)
    ensures Run(ReactionOf(Resolve(o)).value, t, events) == t
  {
    RunRejected(ClassName(Resolve(o).animationClass).value, t, events);
  }

  // ---------------------------------------------------------------------------------------
  // Scroll reveal
  // ---------------------------------------------------------------------------------------

  /** Matches `.reveal, .reveal-left, .reveal-right, .reveal-zoom`. */
  predicate HasReveal(c: set<string>) {
    "reveal" in c || "reveal-left" in c || "reveal-right" in c || "reveal-zoom" in c
  }

  /** Matches `.expertise-card, .brand-card, .project-card, .cert-card, .education-card`. */
  predicate IsCard(c: set<string>) {
    "expertise-card" in c || "brand-card" in c || "project-card" in c || "cert-card" in c || "education-card" in c
  }

  /** The delay class of the card at position `index` among the cards. */
  function DelayClass(index: nat): string {
    "reveal-delay-" + DecimalString(index % 3 + 1)
  }

  /** The delay suffix is the single digit `index % 3 + 1`, so it runs 1, 2, 3, 1, 2, 3, … */
  lemma {:induction false} DelayClassCycles(index: nat)
    ensures DelayClass(index) == "reveal-delay-" + [DigitChar(index % 3 + 1)]
    ensures DelayClass(index) == "reveal-delay-1" || DelayClass(index) == "reveal-delay-2" || DelayClass(index) == "reveal-delay-3"
    ensures index % 3 == 0 ==> DelayClass(index) == "reveal-delay-1"
    ensures DelayClass(index + 3) == DelayClass(index)
  {
    var d := index % 3 + 1;
    assert DecimalString(d) == [DigitChar(d)];
    assert (index + 3) % 3 + 1 == d by {
      var q := index / 3;
      assert index + 3 == (q + 1) * 3 + index % 3;
    }
  }

  /** How many cards come before position `i` of the page. */
  function CardIndex(page: seq<set<string>>, i: nat): (r: nat)
    requires i <= |page|
    ensures r <= i
  {
    if i == 0 then 0 else CardIndex(page, i - 1) + if IsCard(page[i - 1]) then 1 else 0
  }

  /** The count reaches the number of positions exactly when every one holds a card, and stays
      0 exactly when none does. */
  lemma {:induction false} CardIndexCounts(page: seq<set<string>>, i: nat)
    requires i <= |page|
    ensures CardIndex(page, i) == i <==> forall k :: 0 <= k < i ==> IsCard(page[k])
    ensures CardIndex(page, i) == 0 <==> forall k :: 0 <= k < i ==> !IsCard(page[k])
  {
    if i > 0 {
      CardIndexCounts(page, i - 1);
    }
  }

  /** `querySelector('.' + cls)`: the first element, in document order, carrying `cls`. */
  function FirstWith(page: seq<set<string>>, cls: string): (r: Option<nat>)
    ensures r.Some? ==> r.value < |page| && cls in page[r.value]
    ensures r.Some? ==> forall k :: 0 <= k < r.value ==> cls !in page[k]
    ensures r.None? ==> forall k :: 0 <= k < |page| ==> cls !in page[k]
  {
    if |page| == 0 then None
    else if cls in page[0] then Some(0)
    else match FirstWith(page[1..], cls)
      case None => None
      case Some(k) => Some(k + 1)
  }

  /** Two pages that agree on where `cls` is have the same first match. */
  lemma {:induction false} FirstWithAgrees(a: seq<set<string>>, b: seq<set<string>>, cls: string)
    requires |a| == |b| && forall k :: 0 <= k < |a| ==> (cls in a[k] <==> cls in b[k])
    ensures FirstWith(a, cls) == FirstWith(b, cls)
  {
    if |a| > 0 && cls !in a[0] {
      FirstWithAgrees(a[1..], b[1..], cls);
    }
  }

  /** What `addRevealClasses` adds, by role: 'reveal' on a section header; 'reveal' and the
      delay class on a card; 'reveal-left' on the first `.about-image` and the first
      `.contact-info`; 'reveal-right' on the first `.about-text` and the first
      `.contact-form-wrapper`. */
  function HeaderTags(c: set<string>): set<string> {
    if "section-header" in c then {"reveal"} else {}
  }

  function CardTags(page: seq<set<string>>, i: nat): set<string>
    requires i < |page|
  {
    if IsCard(page[i]) then {"reveal", DelayClass(CardIndex(page, i))} else {}
  }

  function PairTags(page: seq<set<string>>, i: nat): set<string> {
    TagIfFirst(page, "about-image", "reveal-left", i) + TagIfFirst(page, "about-text", "reveal-right", i)
    + TagIfFirst(page, "contact-info", "reveal-left", i) + TagIfFirst(page, "contact-form-wrapper", "reveal-right", i)
  }

  function RevealTags(page: seq<set<string>>, i: nat): set<string>
    requires i < |page|
  {
    HeaderTags(page[i]) + CardTags(page, i) + PairTags(page, i)
  }

  /** The one-element set `{tag}` when the first element carrying `cls` is `k`. */
  function TagIfFirst(page: seq<set<string>>, cls: string, tag: string, k: nat): set<string> {
    if FirstWith(page, cls) == Some(k) then {tag} else {}
  }

  /** `querySelector` adding `tag` to the first element carrying `cls`, if there is one. */
  method AddToFirst(page: seq<set<string>>, cls: string, tag: string) returns (r: seq<set<string>>)
    ensures |r| == |page|
    ensures forall k :: 0 <= k < |r| ==> r[k] == page[k] + TagIfFirst(page, cls, tag, k)
  {
    r := page;
    match FirstWith(page, cls)
    case Some(k) => r := r[k := r[k] + {tag}];
    case None =>
  }

  /** The first pass: every section header gets 'reveal'. */
  method TagHeaders(page: seq<set<string>>) returns (r: seq<set<string>>)
    ensures |r| == |page|
    ensures forall k :: 0 <= k < |r| ==> r[k] == page[k] + HeaderTags(page[k])
  {
    r := page;
    var i := 0;
    while i < |r|
      invariant 0 <= i <= |r| == |page|
      invariant forall k :: 0 <= k < |r| ==> r[k] == if k < i then page[k] + HeaderTags(page[k]) else page[k]
    {
      if "section-header" in r[i] {
        r := r[i := r[i] + {"reveal"}];
      }
      i := i + 1;
    }
  }

  /** The second pass: the cards in document order, each with 'reveal' and the delay class of
      its position among them. */
  method TagCards(page: seq<set<string>>) returns (r: seq<set<string>>)
    ensures |r| == |page|
    ensures forall k :: 0 <= k < |r| ==> r[k] == page[k] + CardTags(page, k)
  {
    r := page;
    var index := 0;
    var i := 0;
    while i < |r|
      invariant 0 <= i <= |r| == |page|
      invariant index == CardIndex(page, i)
      invariant forall k :: 0 <= k < |r| ==> r[k] == if k < i then page[k] + CardTags(page, k) else page[k]
    {
      if IsCard(r[i]) {
        r := r[i := r[i] + {"reveal", DelayClass(index)}];
        index := index + 1;
      }
      i := i + 1;
    }
  }

  /** The third pass: the about and contact pairs. */
  method TagPairs(page: seq<set<string>>) returns (r: seq<set<string>>)
    ensures |r| == |page|
    ensures forall k :: 0 <= k < |r| ==> r[k] == page[k] + PairTags(page, k)
  {
    var r1 := AddToFirst(page, "about-image", "reveal-left");
    var r2 := AddToFirst(r1, "about-text", "reveal-right");
    var r3 := AddToFirst(r2, "contact-info", "reveal-left");
    r := AddToFirst(r3, "contact-form-wrapper", "reveal-right");
    TagKeepsFirst(r1, page, "about-image", "reveal-left", "about-text");
    TagKeepsFirst(r1, page, "about-image", "reveal-left", "contact-info");
    TagKeepsFirst(r2, r1, "about-text", "reveal-right", "contact-info");
    TagKeepsFirst(r1, page, "about-image", "reveal-left", "contact-form-wrapper");
    TagKeepsFirst(r2, r1, "about-text", "reveal-right", "contact-form-wrapper");
    TagKeepsFirst(r3, r2, "contact-info", "reveal-left", "contact-form-wrapper");
  }

  /** Adding a tag other than `cls` does not move the first match of `cls`. */
  lemma TagKeepsFirst(a: seq<set<string>>, b: seq<set<string>>, c: string, tag: string, cls: string)
    requires |a| == |b| && tag != cls
    requires forall k :: 0 <= k < |a| ==> a[k] == b[k] + TagIfFirst(b, c, tag, k)
    ensures FirstWith(a, cls) == FirstWith(b, cls)
  {
    FirstWithAgrees(a, b, cls);
  }

  /** Adding 'reveal' to headers does not move any card. */
  lemma {:induction false} CardIndexAgrees(a: seq<set<string>>, b: seq<set<string>>, i: nat)
    requires |a| == |b| && i <= |a| && forall k :: 0 <= k < |a| ==> (IsCard(a[k]) <==> IsCard(b[k]))
    ensures CardIndex(a, i) == CardIndex(b, i)
  {
    if i > 0 {
      CardIndexAgrees(a, b, i - 1);
    }
  }

  /** `addRevealClasses`: headers, then cards, then the pairs, each pass reading the page the
      previous one left. Every element ends up with exactly the tags its roles call for. */
  method AddRevealClasses(page: seq<set<string>>) returns (r: seq<set<string>>)
    ensures |r| == |page|
    ensures forall k :: 0 <= k < |page| ==> r[k] == page[k] + RevealTags(page, k)
  {
    var headers := TagHeaders(page);
    var cards := TagCards(headers);
    r := TagPairs(cards);
    PassesCompose(page, headers, cards, r);
  }

  /** The three passes together add exactly `RevealTags` of the page as it was. */
  lemma PassesCompose(page: seq<set<string>>, headers: seq<set<string>>, cards: seq<set<string>>, r: seq<set<string>>)
    requires |headers| == |page| && forall k :: 0 <= k < |page| ==> headers[k] == page[k] + HeaderTags(page[k])
    requires |cards| == |page| && forall k :: 0 <= k < |page| ==> cards[k] == headers[k] + CardTags(headers, k)
    requires |r| == |page| && forall k :: 0 <= k < |page| ==> r[k] == cards[k] + PairTags(cards, k)
    ensures forall k :: 0 <= k < |page| ==> r[k] == page[k] + RevealTags(page, k)
  {
    forall k | 0 <= k < |page|
      ensures CardTags(headers, k) == CardTags(page, k)
    {
      CardIndexAgrees(headers, page, k);
    }
    PairsAgree(page, cards);
    forall k | 0 <= k < |page|
      ensures r[k] == page[k] + RevealTags(page, k)
    {
      PairTagsAgree(cards, page, k);
    }
  }

  lemma PairTagsAgree(a: seq<set<string>>, b: seq<set<string>>, k: nat)
    requires FirstWith(a, "about-image") == FirstWith(b, "about-image")
    requires FirstWith(a, "about-text") == FirstWith(b, "about-text")
    requires FirstWith(a, "contact-info") == FirstWith(b, "contact-info")
    requires FirstWith(a, "contact-form-wrapper") == FirstWith(b, "contact-form-wrapper")
    ensures PairTags(a, k) == PairTags(b, k)
  {
  }

  /** After the header and card passes, the four pair selectors still find what they found in
      the untouched page. */
  lemma PairsAgree(page: seq<set<string>>, cards: seq<set<string>>)
    requires |cards| == |page|
    requires forall k :: 0 <= k < |page| ==> cards[k] == page[k] + HeaderTags(page[k]) + CardTags(page, k)
    ensures FirstWith(cards, "about-image") == FirstWith(page, "about-image")
    ensures FirstWith(cards, "about-text") == FirstWith(page, "about-text")
    ensures FirstWith(cards, "contact-info") == FirstWith(page, "contact-info")
    ensures FirstWith(cards, "contact-form-wrapper") == FirstWith(page, "contact-form-wrapper")
  {
    forall k | 0 <= k < |page|
      ensures "about-image" !in HeaderTags(page[k]) + CardTags(page, k)
      ensures "about-text" !in HeaderTags(page[k]) + CardTags(page, k)
      ensures "contact-info" !in HeaderTags(page[k]) + CardTags(page, k)
      ensures "contact-form-wrapper" !in HeaderTags(page[k]) + CardTags(page, k)
    {
      if IsCard(page[k]) {
        DelayClassCycles(CardIndex(page, k));
      }
    }
    FirstWithAgrees(cards, page, "about-image");
    FirstWithAgrees(cards, page, "about-text");
    FirstWithAgrees(cards, page, "contact-info");
    FirstWithAgrees(cards, page, "contact-form-wrapper");
  }

  /** Whether any element already carries a reveal class. */
  predicate AnyReveal(page: seq<set<string>>) {
    exists k :: 0 <= k < |page| && HasReveal(page[k])
  }

  /** On a page with no reveal class yet, the automatic tagging makes an element revealable
      exactly when it is a section header, a card, or one of the four about and contact
      elements. */
  lemma AutoTaggedRevealed(page: seq<set<string>>, k: nat)
    requires k < |page| && !AnyReveal(page)
    ensures HasReveal(page[k] + RevealTags(page, k)) <==>
      "section-header" in page[k] || IsCard(page[k]) || PairTags(page, k) != {}
  {
    assert !HasReveal(page[k]);
    if IsCard(page[k]) {
      DelayClassCycles(CardIndex(page, k));
    }
  }

  /** `initScrollReveal`: tags the page only when nothing carries a reveal class, then
      observes every element that does, adding 'active' on intersection and never removing
      it. */
  method InitScrollReveal(page: seq<set<string>>) returns (tagged: seq<set<string>>, observer: Observer)
    ensures AnyReveal(page) ==> tagged == page
    ensures !AnyReveal(page) ==> |tagged| == |page| && forall k :: 0 <= k < |page| ==> tagged[k] == page[k] + RevealTags(page, k)
    ensures fresh(observer) && observer.reaction == AddKeep("active") && |observer.targets| == |tagged|
    ensures forall k :: 0 <= k < |tagged| ==> observer.targets[k] == Target(tagged[k], HasReveal(tagged[k]))
  {
    if AnyReveal(page) {
      tagged := page;
    } else {
      tagged := AddRevealClasses(page);
    }
    observer := new Observer(AddKeep("active"), tagged, seq(|tagged|, k requires 0 <= k < |tagged| => HasReveal(tagged[k])));
  }

  // ---------------------------------------------------------------------------------------
  // Stagger and timeline
  // ---------------------------------------------------------------------------------------

  /** A stagger container: its class list and the class lists of its children. */
  datatype Container = Container(classes: set<string>, children: seq<set<string>>)

  /** Every child gets 'stagger-item' (the delay style is not modelled). */
  method TagStaggerItems(children: seq<set<string>>) returns (r: seq<set<string>>)
    ensures |r| == |children|
    ensures forall i :: 0 <= i < |r| ==> r[i] == children[i] + {"stagger-item"}
  {
    r := children;
    var i := 0;
    while i < |r|
      invariant 0 <= i <= |r| == |children|
      invariant forall k :: 0 <= k < |r| ==> r[k] == if k < i then children[k] + {"stagger-item"} else children[k]
    {
      r := r[i := r[i] + {"stagger-item"}];
      i := i + 1;
    }
  }

  /** `initStaggerAnimations` for the container each of the four selectors found, if any:
      its children are tagged and an observer adds 'animate' to the container on
      intersection. */
  method InitStaggerAnimations(found: seq<Option<Container>>) returns (tagged: seq<Option<Container>>, observers: seq<Observer?>)
    ensures |tagged| == |found| && |observers| == |found|
    ensures forall j :: 0 <= j < |found| && found[j].None? ==> tagged[j].None? && observers[j] == null
    ensures forall j :: 0 <= j < |found| && found[j].Some? ==>
      && tagged[j].Some? && tagged[j].value.classes == found[j].value.classes
      && |tagged[j].value.children| == |found[j].value.children|
      && (forall i :: 0 <= i < |found[j].value.children| ==>
            tagged[j].value.children[i] == found[j].value.children[i] + {"stagger-item"})
      && observers[j] != null && fresh(observers[j]) && observers[j].reaction == AddKeep("animate")
      && observers[j].targets == [Target(found[j].value.classes, true)]
  {
    tagged := [];
    observers := [];
    var j := 0;
    while j < |found|
      invariant 0 <= j <= |found| && |tagged| == j && |observers| == j
      invariant forall m :: 0 <= m < j && found[m].None? ==> tagged[m].None? && observers[m] == null
      invariant forall m :: 0 <= m < j && found[m].Some? ==>
        && tagged[m].Some? && tagged[m].value.classes == found[m].value.classes
        && |tagged[m].value.children| == |found[m].value.children|
        && (forall i :: 0 <= i < |found[m].value.children| ==>
              tagged[m].value.children[i] == found[m].value.children[i] + {"stagger-item"})
        && observers[m] != null && fresh(observers[m]) && observers[m].reaction == AddKeep("animate")
        && observers[m].targets == [Target(found[m].value.classes, true)]
    {
      match found[j] {
        case None =>
          tagged := tagged + [None];
          observers := observers + [null];
        case Some(c) =>
          var children := TagStaggerItems(c.children);
          var o := new Observer(AddKeep("animate"), [c.classes], [true]);
          assert o.targets == [Target(c.classes, true)];
          tagged := tagged + [Some(Container(c.classes, children))];
          observers := observers + [o];
      }
      j := j + 1;
    }
  }

  /** `initTimelineAnimations`: with no timeline item nothing is observed; otherwise every
      item is observed and gets 'animate' on intersection. */
  method InitTimelineAnimations(items: seq<set<string>>) returns (observer: Observer?)
    ensures items == [] ==> observer == null
    ensures items != [] ==> observer != null && fresh(observer) && observer.reaction == AddKeep("animate")
    ensures items != [] ==> |observer.targets| == |items| && forall i :: 0 <= i < |items| ==> observer.targets[i] == Target(items[i], true)
  {
    if items == [] {
      return null;
    }
    observer := new Observer(AddKeep("animate"), items, seq(|items|, i => true));
  }

  // ---------------------------------------------------------------------------------------
  // Typewriter
  // ---------------------------------------------------------------------------------------

  /** One `.typing-effect` element: the text it had, what it shows now, the captured index
      `i`, whether the observer still observes it and how many 100 ms ticks are scheduled.
      `text.length` and `charAt` work on UTF-16 code units, so the text and the content are
      code units: a character outside the Basic Multilingual Plane takes two ticks, and
      between them the element shows its high surrogate alone. */
  class Typewriter {
    const text: seq<CodeUnit>
    var content: seq<CodeUnit>
    var i: nat
    var observed: bool
    var pendingTicks: nat

    /** The element shows the first `i` code units of its text; nothing has been typed or
        scheduled while it is still observed. */
    ghost predicate Valid()
      reads this
    {
      Shown() && (observed ==> i == 0 && pendingTicks == 0)
    }

    /** The element shows the first `i` code units of its text. */
    ghost predicate Shown()
      reads this
    {
      i <= |text| && content == text[..i]
    }

    /** What is left to do: code units to type plus ticks to run. */
    ghost function Remaining(): nat
      reads this
      requires i <= |text|
    {
      pendingTicks + (|text| - i)
    }

    /** The element is emptied and observed. */
    constructor (original: string)
      ensures Valid() && text == Utf16(original) && content == [] && observed && pendingTicks == 0
    {
      text := Utf16(original);
      content := [];
      i := 0;
      observed := true;
      pendingTicks := 0;
    }

    /** `typeWriter`: while code units remain, append the next one and schedule the next
        tick. */
    method TypeWriter()
      requires Shown()
      modifies this`content, this`i, this`pendingTicks
      ensures Shown()
      ensures old(i) < |text| ==> i == old(i) + 1 && pendingTicks == old(pendingTicks) + 1
      ensures old(i) == |text| ==> i == old(i) && pendingTicks == old(pendingTicks)
    {
      if i < |text| {
        assert text[..i + 1] == text[..i] + [text[i]];
        content := content + [text[i]];
        i := i + 1;
        pendingTicks := pendingTicks + 1;
      }
    }

    /** The observer callback: each intersecting entry starts `typeWriter` and unobserves the
        element. A batch holding one intersecting entry starts one chain. */
    method Callback(entries: seq<bool>)
      requires Valid() && observed
      modifies this`content, this`i, this`pendingTicks, this`observed
      ensures Valid()
      ensures observed == (Hits(entries) == 0)
      ensures i == pendingTicks && i == if Hits(entries) < |text| then Hits(entries) else |text|
    {
      var k := 0;
      while k < |entries|
        invariant 0 <= k <= |entries| && i <= |text| && content == text[..i]
        invariant observed == (Hits(entries[..k]) == 0)
        invariant i == pendingTicks && i == if Hits(entries[..k]) < |text| then Hits(entries[..k]) else |text|
      {
        assert entries[..k + 1][..k] == entries[..k];
        if entries[k] {
          TypeWriter();
          observed := false;
        }
        k := k + 1;
      }
      assert entries[..k] == entries;
    }

    /** A scheduled tick runs `typeWriter` again. The content grows by the next character
        until the whole text shows; then the chain ends, since every tick shrinks
        `Remaining`. */
    method Tick()
      requires Valid() && pendingTicks > 0
      modifies this`content, this`i, this`pendingTicks
      ensures Valid()
      ensures i == if old(i) < |text| then old(i) + 1 else old(i)
      ensures pendingTicks == if old(i) < |text| then old(pendingTicks) else old(pendingTicks) - 1
      ensures Remaining() < old(Remaining())
    {
      pendingTicks := pendingTicks - 1;
      TypeWriter();
    }
  }

  // ---------------------------------------------------------------------------------------
  // Mouse trail
  // ---------------------------------------------------------------------------------------

  /** The most trails kept at once. */
  const MaxTrails: nat := 20

  predicate Increasing(s: seq<nat>) {
    forall a, b :: 0 <= a < b < |s| ==> s[a] < s[b]
  }

  /** `s.filter(t => t !== x)`. */
  function Without(s: seq<nat>, x: nat): (r: seq<nat>)
    ensures |r| <= |s|
  {
    if s == [] then []
    else Without(s[..|s| - 1], x) + if s[|s| - 1] == x then [] else [s[|s| - 1]]
  }

  /** The filter drops exactly `x`. */
  lemma {:induction false} WithoutMembers(s: seq<nat>, x: nat)
    ensures forall y :: y in Without(s, x) <==> y in s && y != x
  {
    if s != [] {
      var front := s[..|s| - 1];
      assert s == front + [s[|s| - 1]];
      WithoutMembers(front, x);
    }
  }

  /** A list without `x` is left as it was. */
  lemma {:induction false} WithoutAbsent(s: seq<nat>, x: nat)
    requires x !in s
    ensures Without(s, x) == s
  {
    if s != [] {
      var front := s[..|s| - 1];
      assert s == front + [s[|s| - 1]];
      WithoutAbsent(front, x);
    }
  }

  /** The filter keeps order: an increasing list stays increasing. */
  lemma {:induction false} WithoutIncreasing(s: seq<nat>, x: nat)
    requires Increasing(s)
    ensures Increasing(Without(s, x))
  {
    if s != [] {
      var front, last := s[..|s| - 1], s[|s| - 1];
      assert Increasing(front);
      WithoutIncreasing(front, x);
      WithoutMembers(front, x);
      var w := Without(front, x);
      if last != x {
        forall a, b | 0 <= a < b < |w| + 1
          ensures (w + [last])[a] < (w + [last])[b]
        {
          if b == |w| {
            assert w[a] in front;
            var c :| 0 <= c < |front| && front[c] == w[a];
            assert s[c] < s[|s| - 1];
          }
        }
      }
    }
  }

  /** In an increasing list `x` occurs at most once, so the filter removes one element. */
  lemma {:induction false} WithoutLength(s: seq<nat>, x: nat)
    requires Increasing(s) && x in s
    ensures |Without(s, x)| == |s| - 1
  {
    var front, last := s[..|s| - 1], s[|s| - 1];
    assert s == front + [last];
    if x == last {
      assert x !in front by {
        forall a | 0 <= a < |front| ensures front[a] != x {
          assert s[a] < s[|s| - 1];
        }
      }
      WithoutAbsent(front, x);
    } else {
      WithoutLength(front, x);
    }
  }

  /** Shifting the oldest entry out of an increasing list leaves an increasing list of larger
      entries. */
  lemma ShiftOldest(s: seq<nat>)
    requires Increasing(s) && |s| > 0
    ensures Increasing(s[1..])
    ensures forall t :: t in s[1..] ==> s[0] < t
    ensures forall t :: t in s <==> t == s[0] || t in s[1..]
  {
    assert s == [s[0]] + s[1..];
    forall t | t in s[1..]
      ensures s[0] < t
    {
      var a :| 0 <= a < |s[1..]| && s[1..][a] == t;
      assert s[a + 1] == t;
    }
  }

  /** Pushing an entry larger than all keeps a list increasing. */
  lemma PushNewest(s: seq<nat>, n: nat)
    requires Increasing(s) && forall t :: t in s ==> t < n
    ensures Increasing(s + [n])
    ensures forall t :: t in s + [n] <==> t in s || t == n
  {
    forall a | 0 <= a < |s|
      ensures s[a] < n
    {
      assert s[a] in s;
    }
  }

  /** `initMouseTrail`: the `trails` array, the trail elements attached to the body, the
      identity the next trail gets and the trails whose 500 ms removal timer is pending. */
  class MouseTrail {
    var trails: seq<nat>
    var onPage: set<nat>
    var nextId: nat
    var timers: set<nat>

    /** At most 20 trails, oldest first; the array lists exactly the trails on the page, and
        each of them has its removal pending. */
    ghost predicate Valid()
      reads this
    {
      && |trails| <= MaxTrails && Increasing(trails)
      && (forall t :: t in trails ==> t < nextId && t in timers)
      && (forall t :: t in onPage <==> t in trails)
    }

    constructor ()
      ensures Valid() && trails == [] && onPage == {} && timers == {}
    {
      trails := [];
      onPage := {};
      nextId := 0;
      timers := {};
    }

    /** A 'mousemove': when the array is full its oldest trail is shifted out and removed;
        then a new trail is attached, pushed and given its removal timer. */
    method MouseMove() returns (evicted: Option<nat>)
      requires Valid()
      modifies this`trails, this`onPage, this`nextId, this`timers
      ensures Valid() && nextId == old(nextId) + 1 && timers == old(timers) + {old(nextId)}
      ensures |old(trails)| >= MaxTrails ==> evicted == Some(old(trails)[0]) && trails == old(trails)[1..] + [old(nextId)]
      ensures |old(trails)| < MaxTrails ==> evicted.None? && trails == old(trails) + [old(nextId)]
      ensures evicted.Some? ==> forall t :: t in trails ==> evicted.value < t
      ensures onPage == (if evicted.Some? then old(onPage) - {evicted.value} else old(onPage)) + {old(nextId)}
    {
      evicted := None;
      if |trails| >= MaxTrails {
        ShiftOldest(trails);
        var oldTrail := trails[0];
        trails := trails[1..];
        onPage := onPage - {oldTrail};
        evicted := Some(oldTrail);
      }
      var trail := nextId;
      PushNewest(trails, trail);
      nextId := nextId + 1;
      onPage := onPage + {trail};
      trails := trails + [trail];
      timers := timers + {trail};
    }

    /** The removal timer of `trail` fires: that trail leaves the page and the array,
        whatever else happened meanwhile; the others stay, in order. */
    method RemovalFires(trail: nat)
      requires Valid() && trail in timers
      modifies this`trails, this`onPage, this`timers
      ensures Valid()
      ensures trails == Without(old(trails), trail)
      ensures onPage == old(onPage) - {trail}
      ensures timers == old(timers) - {trail}
    {
      timers := timers - {trail};
      onPage := onPage - {trail};
      WithoutMembers(trails, trail);
      WithoutIncreasing(trails, trail);
      trails := FilterOut(trails, trail);
    }
  }

  /** `trails.filter(t => t !== trail)`, element by element. */
  method FilterOut(s: seq<nat>, x: nat) returns (r: seq<nat>)
    ensures r == Without(s, x)
  {
    r := [];
    var i := 0;
    while i < |s|
      invariant 0 <= i <= |s| && r == Without(s[..i], x)
    {
      assert s[..i + 1][..i] == s[..i];
      if s[i] != x {
        r := r + [s[i]];
      }
      i := i + 1;
    }
    assert s[..i] == s;
  }
}
