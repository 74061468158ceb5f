/**
 * The string operations of JavaScript and Java that the application relies on:
 * decimal rendering of numbers, `Number(...)` on digit strings, `padStart(2, '0')`,
 * `slice`, `split` on one character, `trim`, `includes`, `startsWith`, `join`
 * and ASCII case mapping.
 */
module Text {
  import opened Wrappers

  predicate IsDigit(c: char) { '0' <= c <= '9' }

  predicate AllDigits(s: string) { forall i :: 0 <= i < |s| ==> IsDigit(s[i]) }

  function DigitValue(c: char): nat
    requires IsDigit(c)
  {
    (c as int) - ('0' as int)
  }

  function DigitChar(d: nat): (c: char)
    requires d < 10
    ensures IsDigit(c) && DigitValue(c) == d
  {
    (('0' as int) + d) as char
  }

  /** Decimal rendering of a natural number, as JavaScript's `String(n)` does it. */
  function NatToString(n: nat): (s: string)
    ensures |s| >= 1 && AllDigits(s)
    ensures s[0] == '0' ==> n == 0
    decreases n
  {
    if n < 10 then [DigitChar(n)] else NatToString(n / 10) + [DigitChar(n % 10)]
  }

  /** `String(i)` / `${i}` for an integer. */
  function IntToString(i: int): string
  {
    if i < 0 then "-" + NatToString(-i) else NatToString(i)
  }

  /** The value of a string of decimal digits (the empty string is 0). */
  function DigitsValue(s: string): nat
    requires AllDigits(s)
  {
    if s == [] then 0 else DigitsValue(s[..|s| - 1]) * 10 + DigitValue(s[|s| - 1])
  }

  lemma {:induction false} DigitsValueOfNatToString(n: nat)
    ensures DigitsValue(NatToString(n)) == n
    decreases n
  {
    if n >= 10 {
      var p := NatToString(n / 10);
      var s := p + [DigitChar(n % 10)];
      assert NatToString(n) == s;
      assert s[..|s| - 1] == p;
      DigitsValueOfNatToString(n / 10);
    }
  }

  lemma NatToStringInjective(a: nat, b: nat)
    requires NatToString(a) == NatToString(b)
    ensures a == b
  {
    DigitsValueOfNatToString(a);
    DigitsValueOfNatToString(b);
  }

  lemma IntToStringInjective(a: int, b: int)
    requires IntToString(a) == IntToString(b)
    ensures a == b
  {
    if a < 0 && b < 0 {
      assert NatToString(-a) == IntToString(a)[1..];
      NatToStringInjective(-a, -b);
    } else if a >= 0 && b >= 0 {
      NatToStringInjective(a, b);
    }
  }

  /** JavaScript's `Number(s)` on the strings the application feeds it: the empty string
      gives 0, a string of ASCII digits gives its value, anything else gives NaN (None). */
  function JsNumber(s: string): (r: Option<int>)
    ensures r.Some? ==> r.value >= 0
    ensures r.Some? <==> AllDigits(s)
    ensures r.Some? ==> r.value == DigitsValue(s)
    ensures s == "" ==> r == Some(0)
  {
    if AllDigits(s) then Some(DigitsValue(s)) else None
  }

  /** `Number(String(n))` is `n`: the decimal text of a natural number reads back. */
  lemma JsNumberOfNatToString(n: nat)
    ensures JsNumber(NatToString(n)) == Some(n)
  {
    DigitsValueOfNatToString(n);
  }

  /** `s.padStart(2, '0')`. */
  function PadStart2(s: string): (r: string)
    ensures |r| == if |s| < 2 then 2 else |s|
    ensures r[|r| - |s|..] == s
    ensures forall i :: 0 <= i < |r| - |s| ==> r[i] == '0'
  {
    if |s| == 0 then "00" else if |s| == 1 then "0" + s else s
  }

  /** `n.toString().padStart(2, '0')`. */
  function Pad2(n: int): string
  {
    PadStart2(IntToString(n))
  }

  /** `n.toString().padStart(2, '0') + ':00'`, the "HH:00" label of an hour. */
  function HourLabel(n: int): string
  {
    Pad2(n) + ":00"
  }

  lemma NatToStringBelow100(n: nat)
    requires n < 100
    ensures n < 10 ==> NatToString(n) == [DigitChar(n)]
    ensures n >= 10 ==> NatToString(n) == [DigitChar(n / 10), DigitChar(n % 10)]
  {
    if n >= 10 {
      assert NatToString(n / 10) == [DigitChar(n / 10)];
    }
  }

  /** Two-digit padding of 0..99 is the tens digit then the units digit. */
  lemma Pad2Digits(n: int)
    requires 0 <= n < 100
    ensures Pad2(n) == [DigitChar(n / 10), DigitChar(n % 10)]
  {
    NatToStringBelow100(n);
  }

  /** Two-digit padding of 0..99 is two digits that read back as the number. */
  lemma {:induction false} Pad2RoundTrip(n: int)
    requires 0 <= n < 100
    ensures |Pad2(n)| == 2 && AllDigits(Pad2(n)) && DigitsValue(Pad2(n)) == n
  {
    NatToStringBelow100(n);
    var p := Pad2(n);
    var hi := if n < 10 then 0 else n / 10;
    assert p == [DigitChar(hi), DigitChar(n % 10)];
    assert p[..1] == [DigitChar(hi)];
    assert DigitsValue(p[..1]) == hi by {
      assert p[..1][..0] == [];
    }
  }

  lemma HourLabelShape(n: int)
    requires 0 <= n < 100
    ensures |HourLabel(n)| == 5 && AllDigits(HourLabel(n)[..2]) && HourLabel(n)[2..] == ":00"
    ensures DigitsValue(HourLabel(n)[..2]) == n
  {
    Pad2RoundTrip(n);
    assert HourLabel(n)[..2] == Pad2(n);
  }

  /** JavaScript's `s.slice(i, j)` for non-negative bounds (bounds past the end are clamped). */
  function Slice(s: string, i: nat, j: nat): (r: string)
    ensures j <= |s| && i <= j ==> r == s[i..j]
    ensures |r| <= |s|
  {
    var lo := if i < |s| then i else |s|;
    var hi := if j < |s| then j else |s|;
    if hi <= lo then "" else s[lo..hi]
  }

  /** Characters matched by `\s` in a JavaScript regular expression and removed by `String.prototype.trim`. */
  predicate IsJsSpace(c: char)
  {
    c == '\t' || c == '\n' || c == '\U{000B}' || c == '\U{000C}' || c == '\r' || c == ' '
    || c == '\U{00A0}' || c == '\U{1680}' || ('\U{2000}' <= c <= '\U{200A}')
    || c == '\U{2028}' || c == '\U{2029}' || c == '\U{202F}' || c == '\U{205F}'
    || c == '\U{3000}' || c == '\U{FEFF}'
  }

  /** Characters removed by Java's `String.trim()`: every code point up to U+0020. */
  predicate IsJavaSpace(c: char)
  {
    c <= ' '
  }

  function TrimStartBy(s: string, ws: char -> bool): string
  {
    if s != [] && ws(s[0]) then TrimStartBy(s[1..], ws) else s
  }

  function TrimEndBy(s: string, ws: char -> bool): string
  {
    if s != [] && ws(s[|s| - 1]) then TrimEndBy(s[..|s| - 1], ws) else s
  }

  /** Trimming the start leaves a suffix. */
  lemma {:induction false} TrimStartIsSuffix(s: string, ws: char -> bool)
    ensures var r := TrimStartBy(s, ws); |r| <= |s| && r == s[|s| - |r|..]
  {
    if s != [] && ws(s[0]) {
      TrimStartIsSuffix(s[1..], ws);
    }
  }

  /** Trimming the end leaves a prefix. */
  lemma {:induction false} TrimEndIsPrefix(s: string, ws: char -> bool)
    ensures var r := TrimEndBy(s, ws); |r| <= |s| && r == s[..|r|]
  {
    if s != [] && ws(s[|s| - 1]) {
      TrimEndIsPrefix(s[..|s| - 1], ws);
    }
  }

  /** Trimming the start removes exactly the leading characters `ws` accepts. */
  lemma {:induction false} TrimStartRemovesSpace(s: string, ws: char -> bool)
    ensures var r := TrimStartBy(s, ws);
      (forall i :: 0 <= i < |s| - |r| ==> ws(s[i])) && (r != [] ==> !ws(r[0]))
  {
    TrimStartIsSuffix(s, ws);
    if s != [] && ws(s[0]) {
      TrimStartRemovesSpace(s[1..], ws);
      TrimStartIsSuffix(s[1..], ws);
      var r := TrimStartBy(s, ws);
      forall i | 1 <= i < |s| - |r| ensures ws(s[i]) {
        assert s[i] == s[1..][i - 1];
      }
    }
  }

  /** Trimming the end removes exactly the trailing characters `ws` accepts. */
  lemma {:induction false} TrimEndRemovesSpace(s: string, ws: char -> bool)
    ensures var r := TrimEndBy(s, ws);
      (forall i :: |r| <= i < |s| ==> ws(s[i])) && (r != [] ==> !ws(r[|r| - 1]))
  {
    TrimEndIsPrefix(s, ws);
    if s != [] && ws(s[|s| - 1]) {
      TrimEndRemovesSpace(s[..|s| - 1], ws);
      TrimEndIsPrefix(s[..|s| - 1], ws);
      var r := TrimEndBy(s, ws);
      forall i | |r| <= i < |s| - 1 ensures ws(s[i]) {
        assert s[i] == s[..|s| - 1][i];
      }
    }
  }

  /** Removes the characters `ws` accepts from both ends of `s`. */
  function TrimBy(s: string, ws: char -> bool): string
  {
    TrimEndBy(TrimStartBy(s, ws), ws)
  }

  /** The trimmed string is empty exactly when every character is one that trimming removes. */
  lemma TrimEmptyIffAllSpace(s: string, ws: char -> bool)
    ensures TrimBy(s, ws) == "" <==> forall i :: 0 <= i < |s| ==> ws(s[i])
  {
    var a := TrimStartBy(s, ws);
    TrimStartRemovesSpace(s, ws);
    TrimEndRemovesSpace(a, ws);
    TrimStartIsSuffix(s, ws);
    TrimEndIsPrefix(a, ws);
    if TrimBy(s, ws) == "" {
      assert a == [];
    }
  }

  /** Trimming twice is trimming once. */
  lemma TrimIdempotent(s: string, ws: char -> bool)
    ensures TrimBy(TrimBy(s, ws), ws) == TrimBy(s, ws)
  {
    var a := TrimStartBy(s, ws);
    var r := TrimEndBy(a, ws);
    TrimStartRemovesSpace(s, ws);
    TrimEndRemovesSpace(a, ws);
    TrimEndIsPrefix(a, ws);
    if r != [] {
      assert r[0] == a[0];
    }
    assert TrimStartBy(r, ws) == r;
  }

  /** JavaScript's `s.trim()`: removes white space and line terminators from both ends. */
  function JsTrim(s: string): string { TrimBy(s, IsJsSpace) }

  /** Java's `s.trim()`. */
  function JavaTrim(s: string): string { TrimBy(s, IsJavaSpace) }

  /** `s.includes(p)`. */
  predicate Contains(s: string, p: string)
    decreases |s|
  {
    p <= s || (s != [] && Contains(s[1..], p))
  }

  /** An occurrence of `p` at index `i` of `s` makes `s.includes(p)` true. */
  lemma {:induction false} ContainsAt(s: string, p: string, i: nat)
    requires i <= |s| && p <= s[i..]
    ensures Contains(s, p)
    decreases i
  {
    if i > 0 {
      assert s[1..][i - 1..] == s[i..];
      ContainsAt(s[1..], p, i - 1);
    }
  }

  /** Whatever contains `p` contains every prefix of `p`. */
  lemma {:induction false} ContainsPrefix(s: string, p: string, q: string)
    requires q <= p && Contains(s, p)
    ensures Contains(s, q)
    decreases |s|
  {
    if !(p <= s) {
      ContainsPrefix(s[1..], p, q);
    } else {
      assert s[..|q|] == p[..|q|] == q;
    }
  }

  function LowerChar(c: char): char
  {
    if 'A' <= c <= 'Z' then ((c as int) + 32) as char else c
  }

  function UpperChar(c: char): char
  {
    if 'a' <= c <= 'z' then ((c as int) - 32) as char else c
  }

  /** `s.toLowerCase()` on ASCII letters. */
  function Lower(s: string): (r: string)
    ensures |r| == |s| && forall i :: 0 <= i < |s| ==> r[i] == LowerChar(s[i])
  {
    seq(|s|, i requires 0 <= i < |s| => LowerChar(s[i]))
  }

  /** `s.toUpperCase()` on ASCII letters. */
  function Upper(s: string): (r: string)
    ensures |r| == |s| && forall i :: 0 <= i < |s| ==> r[i] == UpperChar(s[i])
  {
    seq(|s|, i requires 0 <= i < |s| => UpperChar(s[i]))
  }

  /** `xs.join(sep)`. */
  function Join(sep: string, xs: seq<string>): string
  {
    if |xs| == 0 then "" else if |xs| == 1 then xs[0] else xs[0] + sep + Join(sep, xs[1..])
  }

  /** `s.split(c)` for a one-character separator. */
  function Split(s: string, c: char): (parts: seq<string>)
    ensures |parts| >= 1
    ensures forall k :: 0 <= k < |parts| ==> c !in parts[k]
  {
    if s == [] then [""]
    else
      var rest := Split(s[1..], c);
      if s[0] == c then [""] + rest else [[s[0]] + rest[0]] + rest[1..]
  }

  /** Joining the pieces of a split with the separator gives back the string. */
  lemma {:induction false} JoinSplit(s: string, c: char)
    ensures Join([c], Split(s, c)) == s
  {
    if s != [] {
      var rest := Split(s[1..], c);
      JoinSplit(s[1..], c);
      if s[0] == c {
        assert Split(s, c) == [""] + rest;
        assert ([""] + rest)[1..] == rest;
      } else {
        var parts := [[s[0]] + rest[0]] + rest[1..];
        assert Split(s, c) == parts;
        if |rest| == 1 {
          assert Join([c], parts) == [s[0]] + rest[0];
        } else {
          assert parts[1..] == rest[1..];
          assert Join([c], parts) == [s[0]] + rest[0] + [c] + Join([c], rest[1..]);
        }
      }
    }
  }

  /** The first piece of a split is everything before the first separator. */
  lemma {:induction false} SplitHead(a: string, c: char, b: string)
    requires c !in a
    ensures Split(a + [c] + b, c)[0] == a
  {
    if a == [] {
      assert (a + [c] + b)[0] == c;
    } else {
      assert (a + [c] + b)[1..] == a[1..] + [c] + b;
      SplitHead(a[1..], c, b);
    }
  }

  /** A separator after a separator-free piece starts the next piece. */
  lemma {:induction false} SplitCons(a: string, c: char, b: string)
    requires c !in a
    ensures Split(a + [c] + b, c) == [a] + Split(b, c)
    decreases |a|
  {
    if a == [] {
      assert a + [c] + b == [c] + b;
      assert ([c] + b)[1..] == b;
    } else {
      assert (a + [c] + b)[1..] == a[1..] + [c] + b;
      SplitCons(a[1..], c, b);
      assert [a[0]] + a[1..] == a;
    }
  }

  /** A string without the separator splits into itself. */
  lemma {:induction false} SplitNoSep(a: string, c: char)
    requires c !in a
    ensures Split(a, c) == [a]
    decreases |a|
  {
    if a != [] {
      SplitNoSep(a[1..], c);
      assert [a[0]] + a[1..] == a;
    }
  }

  /** Appending two decimal digits: `String(a * 100 + b)` is `String(a)` followed by `b` padded to two digits. */
  lemma NatToStringAppend2(a: nat, b: nat)
    requires a >= 1 && b < 100
    ensures NatToString(a * 100 + b) == NatToString(a) + Pad2(b)
  {
    var n := a * 100 + b;
    assert n / 10 == a * 10 + b / 10 && n % 10 == b % 10;
    assert (a * 10 + b / 10) / 10 == a && (a * 10 + b / 10) % 10 == b / 10;
    assert NatToString(n) == NatToString(a * 10 + b / 10) + [DigitChar(b % 10)];
    assert NatToString(a * 10 + b / 10) == NatToString(a) + [DigitChar(b / 10)];
    NatToStringBelow100(b);
  }

  /** Four-digit numbers render as four characters. */
  lemma NatToStringLength4(n: nat)
    requires 1000 <= n < 10000
    ensures |NatToString(n)| == 4
  {
    assert NatToString(n) == NatToString(n / 10) + [DigitChar(n % 10)];
    assert NatToString(n / 10) == NatToString(n / 100) + [DigitChar((n / 10) % 10)];
    NatToStringBelow100(n / 100);
  }

  function Pow10(k: nat): (p: nat)
    ensures p >= 1
  {
    if k == 0 then 1 else 10 * Pow10(k - 1)
  }

  /** A number with k + 1 decimal digits renders as k + 1 characters. */
  lemma {:induction false} NatToStringLength(n: nat, k: nat)
    requires Pow10(k) <= n < Pow10(k + 1)
    ensures |NatToString(n)| == k + 1
  {
    if k > 0 {
      assert Pow10(k - 1) <= n / 10 < Pow10(k);
      NatToStringLength(n / 10, k - 1);
    }
  }
}
