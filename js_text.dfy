/**
 * The few JavaScript built-ins the score pipeline leans on, stated over
 * `string` (a sequence of code points): `String.prototype.trim`,
 * `String.prototype.toUpperCase` (ASCII letters only) and the global
 * `parseInt` with no radix, whose result is a JavaScript number that is
 * either an integer or NaN.
 */
module JsText {
  import opened Wrappers

  /** A JavaScript number as the pipeline produces it: an integer or NaN. */
  datatype Num = Int(value: int) | NaN

  /** JavaScript `+` on two such numbers: NaN is absorbing. */
  function Plus(a: Num, b: Num): (r: Num)
    ensures r.Int? <==> a.Int? && b.Int?
    ensures r.Int? ==> r.value == a.value + b.value
  {
    if a.Int? && b.Int? then Int(a.value + b.value) else NaN
  }

  /** The WhiteSpace and LineTerminator code points of ECMAScript, the set that `trim` removes. */
  predicate IsSpace(c: char) {
    var n := c as int;
    n == 0x09 || n == 0x0A || n == 0x0B || n == 0x0C || n == 0x0D || n == 0x20
    || n == 0xA0 || n == 0x1680 || (0x2000 <= n <= 0x200A) || n == 0x2028
    || n == 0x2029 || n == 0x202F || n == 0x205F || n == 0x3000 || n == 0xFEFF
  }

  predicate AllSpace(s: string) {
    forall i :: 0 <= i < |s| ==> IsSpace(s[i])
  }

  /** `trimStart`: drops the leading white space, and nothing else. */
  function TrimStart(s: string): (r: string)
    ensures |r| <= |s| && r == s[|s| - |r|..]
    ensures AllSpace(s[..|s| - |r|])
    ensures r == [] || !IsSpace(r[0])
  {
    if s != [] && IsSpace(s[0]) then TrimStart(s[1..]) else s
  }

  /** `trimEnd`: drops the trailing white space, and nothing else. */
  function TrimEnd(s: string): (r: string)
    ensures |r| <= |s| && r == s[..|r|]
    ensures AllSpace(s[|r|..])
    ensures r == [] || !IsSpace(r[|r| - 1])
  {
    if s != [] && IsSpace(s[|s| - 1]) then TrimEnd(s[..|s| - 1]) else s
  }

  /** `String.prototype.trim`. */
  function Trim(s: string): string {
    TrimEnd(TrimStart(s))
  }

  lemma {:induction false} TrimStartSkipsSpace(w: string, s: string)
    requires AllSpace(w)
    ensures TrimStart(w + s) == TrimStart(s)
  {
    if w != [] {
      assert (w + s)[0] == w[0] && IsSpace(w[0]);
      assert (w + s)[1..] == w[1..] + s;
      assert AllSpace(w[1..]) by {
        forall i | 0 <= i < |w| - 1 ensures IsSpace(w[1..][i]) { assert w[1..][i] == w[i + 1]; }
      }
      TrimStartSkipsSpace(w[1..], s);
    } else {
      assert w + s == s;
    }
  }

  lemma {:induction false} TrimEndSkipsSpace(s: string, w: string)
    requires AllSpace(w)
    ensures TrimEnd(s + w) == TrimEnd(s)
  {
    if w != [] {
      var w' := w[..|w| - 1];
      assert (s + w)[|s + w| - 1] == w[|w| - 1] && IsSpace(w[|w| - 1]);
      assert (s + w)[..|s + w| - 1] == s + w';
      assert AllSpace(w') by {
        forall i | 0 <= i < |w'| ensures IsSpace(w'[i]) { assert w'[i] == w[i]; }
      }
      TrimEndSkipsSpace(s, w');
    } else {
      assert s + w == s;
    }
  }

  lemma {:induction false} TrimStartOfBlank(s: string)
    requires AllSpace(s)
    ensures TrimStart(s) == []
  {
    TrimStartSkipsSpace(s, []);
    assert s + [] == s;
  }

  lemma {:induction false} TrimStartKeepsTail(s: string, w: string)
    requires !AllSpace(s)
    ensures TrimStart(s + w) == TrimStart(s) + w
  {
    if IsSpace(s[0]) {
      assert (s + w)[0] == s[0];
      assert (s + w)[1..] == s[1..] + w;
      assert !AllSpace(s[1..]) by {
        var i :| 0 <= i < |s| && !IsSpace(s[i]);
        assert i > 0 && s[1..][i - 1] == s[i];
      }
      TrimStartKeepsTail(s[1..], w);
    } else {
      assert (s + w)[0] == s[0];
    }
  }

  /** Trailing white space alone does not change the trimmed text. */
  lemma TrimIgnoresTrailing(s: string, w: string)
    requires AllSpace(w)
    ensures Trim(s + w) == Trim(s)
  {
    if AllSpace(s) {
      assert AllSpace(s + w);
      TrimStartOfBlank(s + w);
      TrimStartOfBlank(s);
    } else {
      TrimStartKeepsTail(s, w);
      TrimEndSkipsSpace(TrimStart(s), w);
    }
  }

  /** Surrounding white space of any kind does not survive `trim`. */
  lemma TrimIgnoresPadding(w1: string, s: string, w2: string)
    requires AllSpace(w1) && AllSpace(w2)
    ensures Trim(w1 + s + w2) == Trim(s)
  {
    assert w1 + s + w2 == w1 + (s + w2);
    TrimStartSkipsSpace(w1, s + w2);
    TrimIgnoresTrailing(s, w2);
  }

  /** The index of the first `c` in `s`, if any. */
  function IndexOf(s: string, c: char): (r: Option<nat>)
    ensures r.Some? ==> r.value < |s| && s[r.value] == c && c !in s[..r.value]
    ensures r.None? ==> c !in s
  {
    if s == [] then None
    else if s[0] == c then Some(0)
    else match IndexOf(s[1..], c)
      case None => None
      case Some(j) => Some(j + 1)
  }

  lemma {:induction false} IndexOfAfter(s: string, c: char, rest: string)
    requires c !in s
    ensures IndexOf(s + [c] + rest, c) == Some(|s|)
  {
    if s == [] {
      assert (s + [c] + rest)[0] == c;
    } else {
      assert (s + [c] + rest)[1..] == s[1..] + [c] + rest;
      IndexOfAfter(s[1..], c, rest);
    }
  }

  /** `toUpperCase` on one code point: only the ASCII letters a-z change. */
  function UpperChar(c: char): (u: char)
    ensures 'a' <= c <= 'z' ==> 'A' <= u <= 'Z' && u as int == c as int - 32
    ensures !('a' <= c <= 'z') ==> u == c
  {
    if 'a' <= c <= 'z' then (c as int - 32) as char else c
  }

  /** `String.prototype.toUpperCase`, letter by letter. */
  function Upper(s: string): (r: string)
    ensures |r| == |s|
  {
    seq(|s|, i requires 0 <= i < |s| => UpperChar(s[i]))
  }

  /** `toUpperCase` maps each ASCII letter a-z to its capital and keeps every other character. */
  lemma UpperLetters(s: string)
    ensures |Upper(s)| == |s|
    ensures forall i :: 0 <= i < |s| && 'a' <= s[i] <= 'z' ==> Upper(s)[i] as int == s[i] as int - 32
    ensures forall i :: 0 <= i < |s| && !('a' <= s[i] <= 'z') ==> Upper(s)[i] == s[i]
  {
  }

  /** The value of a digit in any radix up to 36; 36 for a character that is no digit. */
  function DigitValue(c: char): (d: nat)
    ensures d <= 36
  {
    if '0' <= c <= '9' then c as int - '0' as int
    else if 'a' <= c <= 'z' then c as int - 'a' as int + 10
    else if 'A' <= c <= 'Z' then c as int - 'A' as int + 10
    else 36
  }

  /** The length of the longest prefix of `s` made of digits of `radix`. */
  function DigitRun(s: string, radix: nat): (k: nat)
    ensures k <= |s|
    ensures forall i :: 0 <= i < k ==> DigitValue(s[i]) < radix
    ensures k < |s| ==> DigitValue(s[k]) >= radix
  {
    if s != [] && DigitValue(s[0]) < radix then 1 + DigitRun(s[1..], radix) else 0
  }

  /** The number a string of digits denotes in `radix`, most significant digit first. */
  function DigitsValue(ds: string, radix: nat): nat {
    if ds == [] then 0
    else DigitsValue(ds[..|ds| - 1], radix) * radix + DigitValue(ds[|ds| - 1])
  }

  /** The digits at the head of `body` read in `radix`; NaN when there are none. */
  function ParseDigits(body: string, radix: nat): (n: Num)
    ensures n.Int? <==> body != [] && DigitValue(body[0]) < radix
  {
    var k := DigitRun(body, radix);
    if k == 0 then NaN else Int(DigitsValue(body[..k], radix))
  }

  /** An unsigned numeral: a `0x`/`0X` prefix selects radix 16, anything else radix 10. */
  function ParseMagnitude(u: string): Num {
    if |u| >= 2 && u[0] == '0' && (u[1] == 'x' || u[1] == 'X') then ParseDigits(u[2..], 16)
    else ParseDigits(u, 10)
  }

  function Negate(n: Num): Num {
    if n.Int? then Int(-n.value) else NaN
  }

  /**
   * The global `parseInt(s)` with no radix: skip leading white space, read
   * an optional sign, read a `0x`/`0X` prefix as radix 16 (radix 10
   * otherwise), then the longest run of digits; no digit at all is NaN.
   * An input "-0" gives -0 in JavaScript, which behaves as 0 in every use
   * the pipeline makes of it.
   */
  function ParseInt(s: string): Num {
    var t := TrimStart(s);
    if t != [] && t[0] == '-' then Negate(ParseMagnitude(t[1..]))
    else if t != [] && t[0] == '+' then ParseMagnitude(t[1..])
    else ParseMagnitude(t)
  }

  function DigitChar(d: nat): (c: char)
    requires d < 10
    ensures DigitValue(c) == d && '0' <= c <= '9'
  {
    ('0' as int + d) as char
  }

  /** The decimal numeral of `n`, without leading zeros. */
  function Decimal(n: nat): (s: string)
    ensures s != []
    ensures forall i :: 0 <= i < |s| ==> '0' <= s[i] <= '9'
  {
    if n < 10 then [DigitChar(n)] else Decimal(n / 10) + [DigitChar(n % 10)]
  }

  lemma {:induction false} DecimalValue(n: nat)
    ensures DigitsValue(Decimal(n), 10) == n
  {
    if n >= 10 {
      var s := Decimal(n);
      assert s[..|s| - 1] == Decimal(n / 10);
      DecimalValue(n / 10);
    } else {
      assert [DigitChar(n)][..0] == [];
    }
  }

  /** `parseInt` reads back every decimal numeral, with or without a minus sign. */
  lemma {:induction false} ParseIntDecimal(n: nat)
    ensures ParseInt(Decimal(n)) == Int(n)
    ensures ParseInt(['-'] + Decimal(n)) == Int(-(n as int))
  {
    DecimalValue(n);
    ParseIntNumeral(Decimal(n), n);
    ParseIntNegativeNumeral(Decimal(n), n);
  }

  /** Any non-empty run of decimal digits reads as its value... */
  lemma ParseIntNumeral(s: string, v: nat)
    requires s != [] && forall i :: 0 <= i < |s| ==> '0' <= s[i] <= '9'
    requires DigitsValue(s, 10) == v
    ensures ParseInt(s) == Int(v)
  {
    MagnitudeOfDigits(s, v);
    ParseIntUnsigned(s);
  }

  /** ...and, after a minus sign, as its value negated. */
  lemma ParseIntNegativeNumeral(s: string, v: nat)
    requires s != [] && forall i :: 0 <= i < |s| ==> '0' <= s[i] <= '9'
    requires DigitsValue(s, 10) == v
    ensures ParseInt(['-'] + s) == Int(-(v as int))
  {
    MagnitudeOfDigits(s, v);
    ParseIntMinus(s);
  }

  lemma {:induction false} DigitRunWhole(s: string)
    requires forall i :: 0 <= i < |s| ==> '0' <= s[i] <= '9'
    ensures DigitRun(s, 10) == |s|
  {
    if s != [] {
      assert DigitValue(s[0]) < 10;
      DigitRunWhole(s[1..]);
    }
  }

  /** A non-empty string of decimal digits reads as its value, with no `0x` prefix possible. */
  lemma MagnitudeOfDigits(s: string, v: nat)
    requires s != [] && forall i :: 0 <= i < |s| ==> '0' <= s[i] <= '9'
    requires DigitsValue(s, 10) == v
    ensures ParseMagnitude(s) == Int(v)
  {
    DigitRunWhole(s);
    assert s[..|s|] == s;
    assert |s| >= 2 ==> '0' <= s[1] <= '9';
  }

  /** A string that starts with a digit is read as an unsigned numeral. */
  lemma ParseIntUnsigned(s: string)
    requires s != [] && '0' <= s[0] <= '9'
    ensures ParseInt(s) == ParseMagnitude(s)
  {
    assert !IsSpace(s[0]);
    assert TrimStart(s) == s;
    assert s[0] != '-' && s[0] != '+';
  }

  /** A leading minus sign negates whatever follows it. */
  lemma ParseIntMinus(s: string)
    ensures ParseInt(['-'] + s) == Negate(ParseMagnitude(s))
  {
    var t := ['-'] + s;
    assert t[0] == '-' && t[1..] == s;
  }
}
