/** String helpers with Python's meaning: `str.replace`, `str.join`, ASCII case mapping
    and the code-point order `<` that `sorted` uses on strings. */
module Strings {
  import opened Wrappers


  /** `s.replace(pat, rep)` for a non-empty pattern: scan left to right and replace
      non-overlapping occurrences. */
  function Replace(s: string, pat: string, rep: string): string
    requires |pat| > 0
    decreases |s|
  {
    if s == [] then []
    else if pat <= s then rep + Replace(s[|pat|..], pat, rep)
    else [s[0]] + Replace(s[1..], pat, rep)
  }

  /** A prefix without the pattern's first character is copied unchanged. */
  lemma {:induction false} ReplaceSkip(x: string, rest: string, pat: string, rep: string)
    requires |pat| > 0
    requires pat[0] !in x
    ensures Replace(x + rest, pat, rep) == x + Replace(rest, pat, rep)
  {
    if x != [] {
      assert (x + rest)[0] == x[0];
      assert !(pat <= x + rest);
      assert (x + rest)[1..] == x[1..] + rest;
      ReplaceSkip(x[1..], rest, pat, rep);
      calc {
        Replace(x + rest, pat, rep);
        [x[0]] + Replace(x[1..] + rest, pat, rep);
        [x[0]] + (x[1..] + Replace(rest, pat, rep));
        { assert [x[0]] + x[1..] == x; }
        x + Replace(rest, pat, rep);
      }
    } else {
      assert x + rest == rest;
    }
  }

  /** Where the pattern does not start, one character is copied. */
  lemma ReplaceMiss(c: char, rest: string, pat: string, rep: string)
    requires |pat| > 0 && !(pat <= [c] + rest)
    ensures Replace([c] + rest, pat, rep) == [c] + Replace(rest, pat, rep)
  {
    assert ([c] + rest)[1..] == rest;
  }

  /** A chunk the pattern does not start at, and whose tail lacks the pattern's first
      character, is copied unchanged. */
  lemma ReplaceSkipTail(x: string, rest: string, pat: string, rep: string)
    requires |pat| > 0 && x != [] && pat[0] !in x[1..] && !(pat <= x + rest)
    ensures Replace(x + rest, pat, rep) == x + Replace(rest, pat, rep)
  {
    var y, r := x[1..] + rest, Replace(rest, pat, rep);
    assert x + rest == [x[0]] + y;
    assert Replace(y, pat, rep) == x[1..] + r by {
      ReplaceSkip(x[1..], rest, pat, rep);
    }
    assert Replace([x[0]] + y, pat, rep) == [x[0]] + (x[1..] + r) by {
      ReplaceMiss(x[0], y, pat, rep);
    }
    assert [x[0]] + (x[1..] + r) == x + r;
  }

  lemma ReplaceHead(rest: string, pat: string, rep: string)
    requires |pat| > 0
    ensures Replace(pat + rest, pat, rep) == rep + Replace(rest, pat, rep)
  {
    assert pat <= pat + rest;
    assert (pat + rest)[|pat|..] == rest;
  }

  /** `sep.join(xs)`. */
  function Join(xs: seq<string>, sep: string): string
  {
    if |xs| == 0 then ""
    else if |xs| == 1 then xs[0]
    else xs[0] + sep + Join(xs[1..], sep)
  }

  /** Cut a text at every `", "`: the inverse of `Join(_, ", ")` on pieces without a comma. */
  function SplitList(s: string): (r: seq<string>)
    ensures |r| > 0
    decreases |s|
  {
    if s == [] then [""]
    else if ", " <= s then [""] + SplitList(s[2..])
    else
      var rest := SplitList(s[1..]);
      [[s[0]] + rest[0]] + rest[1..]
  }

  /** A comma-free prefix becomes the front of the first piece. */
  lemma {:induction false} SplitListPrefix(p: string, rest: string)
    requires ',' !in p
    ensures SplitList(p + rest) == [p + SplitList(rest)[0]] + SplitList(rest)[1..]
  {
    if p == [] {
      var r := SplitList(rest);
      assert p + rest == rest && p + r[0] == r[0];
      assert [r[0]] + r[1..] == r;
    } else {
      assert (p + rest)[0] == p[0];
      assert (p + rest)[1..] == p[1..] + rest;
      SplitListPrefix(p[1..], rest);
      assert [p[0]] + (p[1..] + SplitList(rest)[0]) == p + SplitList(rest)[0];
    }
  }

  /** Splitting reads back what joining with `", "` wrote, when no piece has a comma. */
  lemma {:induction false} SplitJoin(ps: seq<string>)
    requires |ps| > 0 && forall i :: 0 <= i < |ps| ==> ',' !in ps[i]
    ensures SplitList(Join(ps, ", ")) == ps
  {
    if |ps| == 1 {
      SplitListPrefix(ps[0], "");
      assert ps[0] + "" == ps[0];
    } else {
      var j := Join(ps[1..], ", ");
      SplitJoin(ps[1..]);
      assert (", " + j)[2..] == j;
      assert ", " <= ", " + j;
      assert SplitList(", " + j) == [""] + ps[1..];
      SplitListPrefix(ps[0], ", " + j);
      assert Join(ps, ", ") == ps[0] + (", " + j);
      assert ps[0] + "" == ps[0];
      assert ps == [ps[0]] + ps[1..];
    }
  }

  /** Number of occurrences of `c` in `s`. */
  function Count(s: string, c: char): nat
  {
    if s == [] then 0 else (if s[0] == c then 1 else 0) + Count(s[1..], c)
  }

  function UpperChar(c: char): char
  {
    if 'a' <= c <= 'z' then (c as int - 32) as char else c
  }

  function LowerChar(c: char): char
  {
    if 'A' <= c <= 'Z' then (c as int + 32) as char else c
  }

  /** `s.upper()` on ASCII letters. */
  function Upper(s: string): (r: string)
    ensures |r| == |s|
  {
    seq(|s|, i requires 0 <= i < |s| => UpperChar(s[i]))
  }

  /** `s.lower()` on ASCII letters. */
  function Lower(s: string): (r: string)
    ensures |r| == |s|
  {
    seq(|s|, i requires 0 <= i < |s| => LowerChar(s[i]))
  }

  predicate UpperLetters(s: string)
  {
    forall i :: 0 <= i < |s| ==> 'A' <= s[i] <= 'Z'
  }

  /** Lower-casing loses nothing on upper-case ASCII names. */
  lemma LowerInjective(x: string, y: string)
    requires UpperLetters(x) && UpperLetters(y)
    requires Lower(x) == Lower(y)
    ensures x == y
  {
    assert |x| == |y|;
    forall i | 0 <= i < |x|
      ensures x[i] == y[i]
    {
      assert Lower(x)[i] == Lower(y)[i];
    }
  }

  /** The lower-cased form of an upper-case name holds only lower-case letters. */
  lemma LowerOfUpperLetters(x: string)
    requires UpperLetters(x)
    ensures forall i :: 0 <= i < |x| ==> 'a' <= Lower(x)[i] <= 'z'
  {
  }

  /** Upper-casing, one character at a time. */
  lemma UpperLiteral(s: string, t: string)
    requires |s| == |t| && forall i :: 0 <= i < |s| ==> UpperChar(s[i]) == t[i]
    ensures Upper(s) == t
  {
  }

  /** Upper-casing undoes lower-casing on upper-case ASCII names. */
  lemma UpperOfLower(x: string)
    requires UpperLetters(x)
    ensures Upper(Lower(x)) == x
  {
    forall i | 0 <= i < |x|
      ensures Upper(Lower(x))[i] == x[i]
    {
      assert Lower(x)[i] == LowerChar(x[i]);
    }
  }

  predicate IsDigit(c: char)
  {
    '0' <= c <= '9'
  }

  predicate AllDigits(s: string)
  {
    forall i :: 0 <= i < |s| ==> IsDigit(s[i])
  }

  /** The number a run of decimal digits spells. */
  function DigitsValue(s: string): nat
    requires AllDigits(s)
  {
    if s == [] then 0 else DigitsValue(s[..|s| - 1]) * 10 + (s[|s| - 1] as int - '0' as int)
  }

  /** Python's `int(s)` on an optional sign followed by ASCII digits; every other string raises
      `ValueError`, here `None`. */
  function ParseInt(s: string): Option<int>
  {
    if |s| > 1 && (s[0] == '-' || s[0] == '+') && AllDigits(s[1..]) then
      Some(if s[0] == '-' then -(DigitsValue(s[1..]) as int) else DigitsValue(s[1..]) as int)
    else if |s| > 0 && AllDigits(s) then Some(DigitsValue(s) as int)
    else None
  }

  /** `str(n)`: the decimal digits of `n`, without leading zeros. */
  function Decimal(n: nat): (r: string)
    ensures |r| > 0 && AllDigits(r)
  {
    if n < 10 then [('0' as int + n) as char] else Decimal(n / 10) + [('0' as int + n % 10) as char]
  }

  lemma {:induction false} DecimalValue(n: nat)
    ensures DigitsValue(Decimal(n)) == n
  {
    var r := Decimal(n);
    if n >= 10 {
      DecimalValue(n / 10);
      assert r[..|r| - 1] == Decimal(n / 10);
    }
  }

  /** Parsing reads back what `str` writes, with or without a minus sign. */
  lemma ParseDecimal(n: nat)
    ensures ParseInt(Decimal(n)) == Some(n)
    ensures ParseInt("-" + Decimal(n)) == Some(-(n as int))
  {
    DecimalValue(n);
    assert ("-" + Decimal(n))[1..] == Decimal(n);
  }

  /** Python's `a <= b` on strings: lexicographic by code point. */
  predicate LexLe(a: string, b: string)
  {
    a == [] || (b != [] && (a[0] < b[0] || (a[0] == b[0] && LexLe(a[1..], b[1..]))))
  }

  lemma {:induction false} LexLeTotal(a: string, b: string)
    ensures LexLe(a, b) || LexLe(b, a)
  {
    if a != [] && b != [] && a[0] == b[0] {
      LexLeTotal(a[1..], b[1..]);
    }
  }

  lemma {:induction false} LexLeReflexive(a: string)
    ensures LexLe(a, a)
  {
    if a != [] {
      LexLeReflexive(a[1..]);
    }
  }
}
