/** Strings as the standard library sees them: the byte order, prefixes, splitting
    and joining on one separator, decimal numerals. */
module Texts {
  import opened Base

  // ----- The order of strings ----------------------------------------------------

  /** Lexicographic order (`Ord for str`). */
  predicate Less(a: string, b: string)
  {
    b != [] && (a == [] || a[0] < b[0] || (a[0] == b[0] && Less(a[1..], b[1..])))
  }

  predicate AtMost(a: string, b: string)
  {
    a == b || Less(a, b)
  }

  lemma {:induction false} Trichotomy(a: string, b: string)
    ensures a == b || Less(a, b) || Less(b, a)
    ensures !(Less(a, b) && Less(b, a)) && !Less(a, a)
  {
    if a != [] {
      Trichotomy(a[1..], a[1..]);
    }
    if a != [] && b != [] && a[0] == b[0] {
      Trichotomy(a[1..], b[1..]);
      assert a == [a[0]] + a[1..] && b == [b[0]] + b[1..];
    }
  }

  lemma {:induction false} Transitive(a: string, b: string, c: string)
    requires Less(a, b) && Less(b, c)
    ensures Less(a, c)
  {
    if a != [] && a[0] == b[0] && b[0] == c[0] {
      Transitive(a[1..], b[1..], c[1..]);
    }
  }

  // ----- Prefixes -------------------------------------------------------------------

  predicate StartsWith(s: string, p: string)
  {
    |p| <= |s| && s[..|p|] == p
  }

  predicate EndsWith(s: string, suffix: string)
  {
    |suffix| <= |s| && s[|s| - |suffix|..] == suffix
  }

  // ----- Whitespace -------------------------------------------------------------------

  /** `char::is_whitespace`. */
  predicate IsWhitespace(c: char)
  {
    || ('\U{0009}' <= c <= '\U{000D}') || c in {'\U{0020}', '\U{0085}', '\U{00A0}', '\U{1680}'}
    || ('\U{2000}' <= c <= '\U{200A}') || c in {'\U{2028}', '\U{2029}', '\U{202F}', '\U{205F}', '\U{3000}'}
  }

  /** `str::trim`. */
  function Trim(s: string): string
    decreases |s|
  {
    if s != "" && IsWhitespace(s[0]) then Trim(s[1..])
    else if s != "" && IsWhitespace(s[|s| - 1]) then Trim(s[..|s| - 1])
    else s
  }

  // ----- Splitting and joining ---------------------------------------------------------

  function Join(parts: seq<string>, sep: string): string
  {
    if parts == [] then ""
    else if |parts| == 1 then parts[0]
    else parts[0] + sep + Join(parts[1..], sep)
  }

  /** `str::split` on one character. */
  function Split(s: string, c: char): (parts: seq<string>)
    ensures |parts| >= 1
  {
    if s == [] then [""]
    else
      var rest := Split(s[1..], c);
      if s[0] == c then [""] + rest else [[s[0]] + rest[0]] + rest[1..]
  }

  lemma {:induction false} JoinCons(part: string, rest: seq<string>, sep: string)
    requires rest != []
    ensures Join([part] + rest, sep) == part + sep + Join(rest, sep)
  {
    assert ([part] + rest)[1..] == rest;
  }

  lemma {:induction false} JoinGrow(c: char, parts: seq<string>, sep: string)
    requires parts != []
    ensures Join([[c] + parts[0]] + parts[1..], sep) == [c] + Join(parts, sep)
  {
    if |parts| > 1 {
      JoinCons([c] + parts[0], parts[1..], sep);
    }
  }

  lemma {:induction false} JoinSplit(s: string, c: char)
    ensures Join(Split(s, c), [c]) == s
    ensures forall p :: p in Split(s, c) ==> c !in p
  {
    if s != [] {
      JoinSplit(s[1..], c);
      var rest := Split(s[1..], c);
      if s[0] == c {
        JoinCons("", rest, [c]);
      } else {
        JoinGrow(s[0], rest, [c]);
      }
      hide Join;
      assert s == [s[0]] + s[1..];
    }
  }

  lemma {:induction false} SplitPlain(p: string, c: char)
    requires c !in p
    ensures Split(p, c) == [p]
  {
    if p != [] {
      SplitPlain(p[1..], c);
      assert p[0] in p && [p[0]] + p[1..] == p;
    }
  }

  lemma {:induction false} SplitAfter(p: string, c: char, rest: string)
    requires c !in p
    ensures Split(p + [c] + rest, c) == [p] + Split(rest, c)
  {
    var s := p + [c] + rest;
    if p == [] {
      assert s[1..] == rest && s[0] == c;
    } else {
      assert s[0] == p[0] && p[0] in p && s[1..] == p[1..] + [c] + rest;
      SplitAfter(p[1..], c, rest);
      assert Split(s[1..], c)[1..] == Split(rest, c);
      assert [p[0]] + p[1..] == p;
    }
  }

  lemma SplitStep(x: char, s: string, c: char)
    ensures Split([x] + s, c)
         == if x == c then [""] + Split(s, c) else [[x] + Split(s, c)[0]] + Split(s, c)[1..]
  {
    assert ([x] + s)[1..] == s;
  }

  lemma {:induction false} SplitAround(a: string, c: char, b: string)
    ensures Split(a + [c] + b, c) == Split(a, c) + Split(b, c)
  {
    if a == [] {
      SplitStep(c, b, c);
      assert a + [c] + b == [c] + b && Split(a, c) == [""];
    } else {
      var x, rest := a[0], a[1..];
      SplitAround(rest, c, b);
      assert a == [x] + rest;
      hide Split;
      SplitAroundStep(x, rest, c, b);
    }
  }

  lemma SplitAroundStep(x: char, rest: string, c: char, b: string)
    requires Split(rest + [c] + b, c) == Split(rest, c) + Split(b, c)
    ensures Split([x] + rest + [c] + b, c) == Split([x] + rest, c) + Split(b, c)
  {
    hide Split;
    assert [x] + rest + [c] + b == [x] + (rest + [c] + b);
    SplitStep(x, rest + [c] + b, c);
    SplitStep(x, rest, c);
    FirstPieceGrows(x, Split(rest, c), Split(b, c));
    assert [""] + (Split(rest, c) + Split(b, c)) == ([""] + Split(rest, c)) + Split(b, c);
  }

  lemma FirstPieceGrows(x: char, s: seq<string>, t: seq<string>)
    requires s != []
    ensures [[x] + (s + t)[0]] + (s + t)[1..] == ([[x] + s[0]] + s[1..]) + t
  {
    assert (s + t)[1..] == s[1..] + t && (s + t)[0] == s[0];
  }

  /** Joining separator-free pieces loses nothing. */
  lemma {:induction false} SplitJoin(parts: seq<string>, c: char)
    requires parts != [] && forall p :: p in parts ==> c !in p
    ensures Split(Join(parts, [c]), c) == parts
  {
    hide Split;
    assert parts[0] in parts;
    if |parts| == 1 {
      SplitPlain(parts[0], c);
    } else {
      SplitJoin(parts[1..], c);
      SplitAfter(parts[0], c, Join(parts[1..], [c]));
    }
  }

  lemma {:induction false} JoinAppend(a: seq<string>, b: seq<string>, sep: string)
    requires a != [] && b != []
    ensures Join(a + b, sep) == Join(a, sep) + sep + Join(b, sep)
  {
    var x, rest := a[0], a[1..];
    assert a == [x] + rest;
    if rest == [] {
      assert a + b == [x] + b && a == [x];
      JoinCons(x, b, sep);
    } else {
      JoinAppend(rest, b, sep);
      hide Join;
      assert a + b == [x] + (rest + b);
      JoinCons(x, rest + b, sep);
      JoinCons(x, rest, sep);
      Regroup(x, sep, Join(rest, sep), Join(b, sep));
    }
  }

  lemma Regroup(x: string, sep: string, y: string, z: string)
    ensures x + sep + (y + sep + z) == x + sep + y + sep + z
  {
  }

  /** Joining the first pieces gives what stands before one of the separators. */
  lemma JoinFirst(parts: seq<string>, n: nat, sep: string)
    requires 0 < n < |parts|
    ensures StartsWith(Join(parts, sep), Join(parts[..n], sep) + sep)
  {
    JoinAppend(parts[..n], parts[n..], sep);
    assert parts == parts[..n] + parts[n..];
  }

  /** What stands before the first and after the last of one separator. */
  lemma FirstCut(c: char, a: string, b: string, x: string, y: string)
    requires c !in a && c !in b && a + [c] + x == b + [c] + y
    ensures a == b && x == y
  {
    SplitAfter(a, c, x);
    SplitAfter(b, c, y);
    assert Split(a + [c] + x, c)[0] == a && Split(b + [c] + y, c)[0] == b;
    assert x == (a + [c] + x)[|a| + 1..] && y == (b + [c] + y)[|b| + 1..];
  }

  lemma LastCut(c: char, a: string, b: string, x: string, y: string)
    requires c !in x && c !in y && a + [c] + x == b + [c] + y
    ensures a == b && x == y
  {
    var s := a + [c] + x;
    assert s[|a|] == c && s[|b|] == c;
    assert forall i :: |a| < i < |s| ==> s[i] == x[i - |a| - 1] && s[i] != c;
    assert forall i :: |b| < i < |s| ==> s[i] == y[i - |b| - 1] && s[i] != c;
    assert a == s[..|a|] && b == s[..|b|] && x == s[|a| + 1..] && y == s[|b| + 1..];
  }

  // ----- Numerals -------------------------------------------------------------------------

  /** Lower-case digits to base sixteen. */
  function Digit(d: nat): char
    requires d < 16
  {
    if d < 10 then '0' + d as char else 'a' + (d - 10) as char
  }

  predicate IsHexDigit(c: char)
  {
    '0' <= c <= '9' || 'a' <= c <= 'f' || 'A' <= c <= 'F'
  }

  predicate IsDigit(c: char)
  {
    '0' <= c <= '9'
  }

  function DigitValue(c: char): nat
    requires IsDigit(c)
  {
    (c - '0') as nat
  }

  lemma Euclid(n: nat, base: nat)
    requires base >= 1
    ensures base * (n / base) <= n < base * (n / base) + base
  {
  }

  lemma Scale(base: nat, a: nat, b: nat)
    requires a <= b
    ensures base * a <= base * b && a * base <= b * base
  {
  }

  function Quotient(n: nat, base: nat): (q: nat)
    requires base >= 2
    ensures n > 0 ==> q < n
  {
    Euclid(n, base);
    Scale(n / base, 2, base);
    n / base
  }

  function Remainder(n: nat, base: nat): (r: nat)
    requires base >= 2
    ensures r < base
  {
    n % base
  }

  function Numeral(n: nat, base: nat): (s: string)
    requires 2 <= base <= 16
    ensures s != []
    decreases n
  {
    if n < base then [Digit(n)] else Numeral(Quotient(n, base), base) + [Digit(Remainder(n, base))]
  }

  lemma {:induction false} NumeralDigits(n: nat)
    ensures forall c :: c in Numeral(n, 10) ==> IsDigit(c)
  {
    if n >= 10 {
      NumeralDigits(n / 10);
    }
  }

  /** `n.to_string()`. */
  function Decimal(n: nat): (s: string)
    ensures s != [] && forall c :: c in s ==> IsDigit(c)
  {
    NumeralDigits(n);
    Numeral(n, 10)
  }

  /** The number a string of digits denotes. */
  function Denoted(s: string): nat
    requires forall c :: c in s ==> IsDigit(c)
  {
    if s == [] then 0 else 10 * Denoted(s[..|s| - 1]) + DigitValue(s[|s| - 1])
  }

  lemma {:induction false} DecimalDenotes(n: nat)
    ensures Denoted(Decimal(n)) == n
  {
    if n >= 10 {
      DecimalDenotes(n / 10);
      var s := Decimal(n);
      assert s[..|s| - 1] == Decimal(n / 10);
    }
  }

  /** `b.to_string()`. */
  function BoolText(b: bool): string
  {
    if b then "true" else "false"
  }
}
