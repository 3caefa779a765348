/** The few JavaScript string operations the core relies on: `trim`, `toLowerCase`,
    `includes`, `split(sep)[0]` / `split(sep)[1]`, and the decimal rendering of a
    non-negative integer inside a template literal. */
module JsText {
  import opened Wrappers

  /** ECMAScript WhiteSpace and LineTerminator code points: exactly what
      `String.prototype.trim` removes (U+0009..U+000D, U+0020, U+00A0, U+1680,
      U+2000..U+200A, U+2028, U+2029, U+202F, U+205F, U+3000, U+FEFF). */
  predicate IsSpace(c: char) {
    ('\t' <= c <= '\r') || c == ' ' || c == '\U{00A0}' || c == '\U{1680}'
    || ('\U{2000}' <= c <= '\U{200A}') || ('\U{2028}' <= c <= '\U{2029}')
    || c == '\U{202F}' || c == '\U{205F}' || c == '\U{3000}' || c == '\U{FEFF}'
  }

  predicate AllSpace(s: string) {
    forall i :: 0 <= i < |s| ==> IsSpace(s[i])
  }

  /** Neither end of `s` is whitespace: `s.trim() === s`. */
  predicate IsTrimmed(s: string) {
    s == [] || (!IsSpace(s[0]) && !IsSpace(s[|s| - 1]))
  }

  function Last<T>(s: seq<T>): T
    requires s != []
  {
    s[|s| - 1]
  }

  /** The longest suffix of `s` that does not start with whitespace. */
  function TrimStart(s: string): (r: string)
    ensures |r| <= |s| && forall i :: 0 <= i < |r| ==> r[i] == s[|s| - |r| + i]
    ensures AllSpace(s[..|s| - |r|])
    ensures r == [] || !IsSpace(r[0])
  {
    if s != [] && IsSpace(s[0]) then
      var t := s[1..];
      var r := TrimStart(t);
      assert forall i :: 0 <= i < |r| ==> r[i] == t[|t| - |r| + i] == s[|s| - |r| + i];
      assert AllSpace(s[..|s| - |r|]) by {
        var d := s[..|s| - |r|];
        forall i | 0 <= i < |d|
          ensures IsSpace(d[i])
        {
          if i > 0 {
            assert d[i] == t[..|t| - |r|][i - 1];
          }
        }
      }
      r
    else s
  }

  /** The longest prefix of `s` that does not end with whitespace. */
  function TrimEnd(s: string): (r: string)
    ensures |r| <= |s| && forall i :: 0 <= i < |r| ==> r[i] == s[i]
    ensures AllSpace(s[|r|..])
    ensures r == [] || !IsSpace(r[|r| - 1])
  {
    if s != [] && IsSpace(s[|s| - 1]) then
      var t := s[..|s| - 1];
      var r := TrimEnd(t);
      assert forall i :: 0 <= i < |r| ==> r[i] == t[i] == s[i];
      assert AllSpace(s[|r|..]) by {
        var d := s[|r|..];
        forall i | 0 <= i < |d|
          ensures IsSpace(d[i])
        {
          if i < |d| - 1 {
            assert d[i] == t[|r|..][i];
          }
        }
      }
      r
    else s
  }

  /** `s.trim()`. */
  function Trim(s: string): (r: string)
    ensures IsTrimmed(r) && |r| <= |s|
  {
    var t := TrimStart(s);
    var r := TrimEnd(t);
    assert r != [] ==> r[0] == t[0];
    r
  }

  /** `trim` leaves nothing exactly of a string that is all whitespace. */
  lemma TrimEmptyIffBlank(s: string)
    ensures Trim(s) == [] <==> AllSpace(s)
  {
    var t := TrimStart(s);
    var r := TrimEnd(t);
    if r == [] {
      assert t[|r|..] == t;
      assert t == [];
      assert s[..|s| - |t|] == s;
    } else {
      assert r[0] == t[0] == s[|s| - |t|];
    }
  }

  lemma {:induction false} TrimStartSkipsSpace(pre: string, s: string)
    requires AllSpace(pre)
    ensures TrimStart(pre + s) == TrimStart(s)
    decreases |pre|
  {
    if pre == [] {
      assert pre + s == s;
    } else {
      var t := pre + s;
      assert t[0] == pre[0] && IsSpace(t[0]);
      assert t[1..] == pre[1..] + s;
      assert TrimStart(t) == TrimStart(t[1..]);
      TrimStartSkipsSpace(pre[1..], s);
    }
  }

  lemma {:induction false} TrimEndSkipsSpace(s: string, post: string)
    requires AllSpace(post)
    ensures TrimEnd(s + post) == TrimEnd(s)
    decreases |post|
  {
    if post == [] {
      assert s + post == s;
    } else {
      var p := post[..|post| - 1];
      var t := s + post;
      assert t[|t| - 1] == post[|post| - 1];
      assert t[..|t| - 1] == s + p;
      assert TrimEnd(t) == TrimEnd(s + p);
      TrimEndSkipsSpace(s, p);
    }
  }

  lemma {:induction false} TrimStartOfAppend(s: string, t: string)
    requires !AllSpace(s)
    ensures TrimStart(s + t) == TrimStart(s) + t
    decreases |s|
  {
    if IsSpace(s[0]) {
      assert (s + t)[1..] == s[1..] + t;
      TrimStartOfAppend(s[1..], t);
    }
  }

  /** Whitespace around a string never reaches `trim`'s result. */
  lemma TrimIgnoresPadding(pre: string, s: string, post: string)
    requires AllSpace(pre) && AllSpace(post)
    ensures Trim(pre + s + post) == Trim(s)
  {
    if AllSpace(s) {
      assert AllSpace(pre + s + post);
      TrimEmptyIffBlank(s);
      TrimEmptyIffBlank(pre + s + post);
    } else {
      assert pre + s + post == pre + (s + post);
      TrimStartSkipsSpace(pre, s + post);
      TrimStartOfAppend(s, post);
      assert TrimStart(pre + s + post) == TrimStart(s) + post;
      TrimEndSkipsSpace(TrimStart(s), post);
    }
  }

  /** A string without surrounding whitespace is its own `trim`. */
  lemma TrimOfTrimmed(s: string)
    requires IsTrimmed(s)
    ensures Trim(s) == s
  {
    if s != [] {
      assert TrimStart(s) == s;
      assert TrimEnd(s) == s;
    }
  }

  lemma TrimIdempotent(s: string)
    ensures Trim(Trim(s)) == Trim(s)
  {
    TrimOfTrimmed(Trim(s));
  }

  /** The ASCII part of `toLowerCase`: 'A'..'Z' become 'a'..'z', everything else is kept. */
  function LowerChar(c: char): char {
    if 'A' <= c <= 'Z' then (c as int + 32) as char else c
  }

  /** `s.toLowerCase()` restricted to ASCII letters. */
  function ToLower(s: string): (r: string)
    ensures |r| == |s|
    ensures forall i :: 0 <= i < |s| ==> r[i] == LowerChar(s[i])
  {
    if s == [] then [] else [LowerChar(s[0])] + ToLower(s[1..])
  }

  lemma ToLowerIdempotent(s: string)
    ensures ToLower(ToLower(s)) == ToLower(s)
  {
  }

  /** Lower-casing neither creates nor removes whitespace. */
  lemma {:induction false} TrimStartOfLower(s: string)
    ensures TrimStart(ToLower(s)) == ToLower(TrimStart(s))
    decreases |s|
  {
    if s != [] {
      var l := ToLower(s);
      LowerKeepsSpace(s[0]);
      assert l[0] == LowerChar(s[0]);
      assert l[1..] == ToLower(s[1..]);
      TrimStartOfLower(s[1..]);
      if IsSpace(s[0]) {
        assert TrimStart(l) == TrimStart(l[1..]);
      } else {
        assert TrimStart(l) == l;
      }
    }
  }

  lemma LowerKeepsSpace(c: char)
    ensures IsSpace(LowerChar(c)) <==> IsSpace(c)
  {
  }

  lemma LowerOfInit(s: string)
    requires s != []
    ensures ToLower(s)[|s| - 1] == LowerChar(s[|s| - 1])
    ensures ToLower(s)[..|s| - 1] == ToLower(s[..|s| - 1])
  {
  }

  lemma {:induction false} TrimEndOfLower(s: string)
    ensures TrimEnd(ToLower(s)) == ToLower(TrimEnd(s))
    decreases |s|
  {
    if s != [] {
      var l := ToLower(s);
      LowerKeepsSpace(s[|s| - 1]);
      LowerOfInit(s);
      TrimEndOfLower(s[..|s| - 1]);
      if IsSpace(s[|s| - 1]) {
        assert TrimEnd(l) == TrimEnd(l[..|l| - 1]);
      } else {
        assert TrimEnd(l) == l;
      }
    }
  }

  lemma TrimOfLower(s: string)
    ensures Trim(ToLower(s)) == ToLower(Trim(s))
  {
    TrimStartOfLower(s);
    TrimEndOfLower(TrimStart(s));
  }

  /** `s.includes(sub)`: `sub` occurs at some position of `s`. */
  predicate Contains(s: string, sub: string)
    decreases |s|
  {
    |sub| <= |s| && (s[..|sub|] == sub || Contains(s[1..], sub))
  }

  lemma ContainsPrefix(a: string, b: string)
    ensures Contains(a + b, a)
  {
    assert (a + b)[..|a|] == a;
  }

  /** `s.split(c)[0]`: the part of `s` before the first `c`, or all of `s`. */
  function Before(s: string, c: char): (r: string)
    ensures |r| <= |s| && r == s[..|r|]
    ensures c !in r
    ensures |r| < |s| ==> s[|r|] == c
  {
    if s == [] || s[0] == c then [] else [s[0]] + Before(s[1..], c)
  }

  /** The part of `s` after its first `c`, if `s` contains one. */
  function After(s: string, c: char): (r: Option<string>)
    ensures r.None? <==> c !in s
    ensures r.Some? ==> s == Before(s, c) + [c] + r.value
  {
    var b := Before(s, c);
    if |b| == |s| then None else Some(s[|b| + 1..])
  }

  /** `Before` stops exactly at the end of a `c`-free prefix that is followed by `c`. */
  lemma {:induction false} BeforeOfJoin(a: string, c: char, b: string)
    requires c !in a
    requires b == [] || b[0] == c
    ensures Before(a + b, c) == a
    decreases |a|
  {
    if a == [] {
      assert a + b == b;
    } else {
      assert (a + b)[0] == a[0] != c;
      assert (a + b)[1..] == a[1..] + b;
      BeforeOfJoin(a[1..], c, b);
    }
  }

  lemma AfterOfJoin(a: string, c: char, b: string)
    requires c !in a
    ensures After(a + [c] + b, c) == Some(b)
  {
    assert a + [c] + b == a + ([c] + b);
    BeforeOfJoin(a, c, [c] + b);
    assert (a + [c] + b)[|a| + 1..] == b;
  }

  predicate IsDigit(c: char) {
    '0' <= c <= '9'
  }

  predicate AllDigits(s: string) {
    forall i :: 0 <= i < |s| ==> IsDigit(s[i])
  }

  function DigitChar(d: nat): (c: char)
    requires d < 10
    ensures IsDigit(c)
  {
    (48 + d) as char
  }

  function DigitValue(c: char): nat
    requires IsDigit(c)
  {
    c as int - 48
  }

  /** The decimal rendering of a non-negative integer, as `${n}` gives it. */
  function Decimal(n: nat): (s: string)
    ensures s != [] && AllDigits(s)
    ensures |s| > 1 ==> s[0] != '0'
  {
    if n < 10 then [DigitChar(n)] else Decimal(n / 10) + [DigitChar(n % 10)]
  }

  /** The number a string of decimal digits denotes. */
  function DecimalValue(s: string): nat
    requires AllDigits(s)
  {
    if s == [] then 0 else DecimalValue(s[..|s| - 1]) * 10 + DigitValue(s[|s| - 1])
  }

  lemma {:induction false} DecimalRoundTrip(n: nat)
    ensures DecimalValue(Decimal(n)) == n
    decreases n
  {
    if n >= 10 {
      var s := Decimal(n);
      assert s[..|s| - 1] == Decimal(n / 10);
      DecimalRoundTrip(n / 10);
    }
  }

  lemma DecimalInjective(a: nat, b: nat)
    requires Decimal(a) == Decimal(b)
    ensures a == b
  {
    DecimalRoundTrip(a);
    DecimalRoundTrip(b);
  }

  /** The number of leading decimal digits of `s`. */
  function DigitRun(s: string): nat {
    if s != [] && IsDigit(s[0]) then 1 + DigitRun(s[1..]) else 0
  }

  lemma {:induction false} DigitRunStopsAtSeparator(d: string, sep: char, x: string)
    requires AllDigits(d) && !IsDigit(sep)
    ensures DigitRun(d + [sep] + x) == |d|
    decreases |d|
  {
    if d != [] {
      assert (d + [sep] + x)[1..] == d[1..] + [sep] + x;
      DigitRunStopsAtSeparator(d[1..], sep, x);
    }
  }

  /** A number followed by a non-digit can be read back unambiguously. */
  lemma DecimalThenSeparator(a: nat, x: string, b: nat, y: string, sep: char)
    requires !IsDigit(sep)
    requires Decimal(a) + [sep] + x == Decimal(b) + [sep] + y
    ensures a == b && x == y
  {
    var da, db := Decimal(a), Decimal(b);
    var s := Decimal(a) + [sep] + x;
    DigitRunStopsAtSeparator(da, sep, x);
    DigitRunStopsAtSeparator(db, sep, y);
    assert da == s[..|da|] == db;
    DecimalInjective(a, b);
    assert x == s[|da| + 1..] == y;
  }
}
