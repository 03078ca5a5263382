/**
 * String helpers the cache store relies on: splitting a file name on '.',
 * Go's byte-wise string order, the decimal rendering and parsing of a Unix
 * second count, and sorting a list of names in descending order.
 */
module Text {

  datatype Option<T> = None | Some(value: T)

  // ------------------------------------------------------------------
  // Character classes
  // ------------------------------------------------------------------

  predicate IsDigit(c: char) { '0' <= c <= '9' }

  /** The POSIX class [:alnum:], which Go's regexp package reads as ASCII only. */
  predicate IsAlnum(c: char) { IsDigit(c) || 'a' <= c <= 'z' || 'A' <= c <= 'Z' }

  predicate AllDigits(s: string) { forall i :: 0 <= i < |s| ==> IsDigit(s[i]) }

  /** `s` begins with `prefix`. */
  predicate StartsWith(s: string, prefix: string)
  {
    |prefix| <= |s| && s[..|prefix|] == prefix
  }

  // ------------------------------------------------------------------
  // strings.Split(s, ".") and strings.Join(fields, ".")
  // ------------------------------------------------------------------

  function JoinDots(fields: seq<string>): string
    requires |fields| >= 1
  {
    if |fields| == 1 then fields[0] else fields[0] + "." + JoinDots(fields[1..])
  }

  /** Splitting on '.': at least one field, and a second one exactly when there is a dot. */
  function SplitDots(s: string): (fields: seq<string>)
    ensures |fields| >= 1
    ensures |fields| >= 2 <==> '.' in s
  {
    if |s| == 0 then [""]
    else if s[0] == '.' then
      var rest := SplitDots(s[1..]);
      assert s == "." + s[1..];
      [""] + rest
    else
      var rest := SplitDots(s[1..]);
      assert s == [s[0]] + s[1..];
      [[s[0]] + rest[0]] + rest[1..]
  }

  /** The fields contain no dot. */
  lemma {:induction false} SplitDotsFieldsDotFree(s: string)
    ensures forall i :: 0 <= i < |SplitDots(s)| ==> '.' !in SplitDots(s)[i]
  {
    if |s| > 0 {
      var rest := SplitDots(s[1..]);
      SplitDotsFieldsDotFree(s[1..]);
      var fields := SplitDots(s);
      if s[0] == '.' {
        assert fields == [""] + rest;
        assert forall i :: 1 <= i < |fields| ==> fields[i] == rest[i - 1];
      } else {
        assert fields == [[s[0]] + rest[0]] + rest[1..];
        assert forall i :: 1 <= i < |fields| ==> fields[i] == rest[i];
        assert '.' !in [s[0]] + rest[0];
      }
    }
  }

  /** Joining the fields with dots gives the input back. */
  lemma {:induction false} SplitDotsJoin(s: string)
    ensures JoinDots(SplitDots(s)) == s
  {
    if |s| > 0 {
      var rest := SplitDots(s[1..]);
      SplitDotsJoin(s[1..]);
      var fields := SplitDots(s);
      if s[0] == '.' {
        assert fields == [""] + rest && fields[1..] == rest;
        assert JoinDots(fields) == "" + "." + JoinDots(rest);
        assert s == "." + s[1..];
      } else {
        var head := [s[0]] + rest[0];
        assert fields == [head] + rest[1..];
        if |rest| == 1 {
          assert JoinDots(fields) == head;
          assert JoinDots(rest) == rest[0];
        } else {
          assert fields[1..] == rest[1..];
          assert JoinDots(fields) == head + "." + JoinDots(rest[1..]);
          assert JoinDots(rest) == rest[0] + "." + JoinDots(rest[1..]);
        }
        assert s == [s[0]] + s[1..];
      }
    }
  }

  /** A dot-free string is its own only field. */
  lemma {:induction false} SplitDotFree(s: string)
    requires '.' !in s
    ensures SplitDots(s) == [s]
  {
    if |s| > 0 {
      assert '.' !in s[1..] by {
        assert forall i :: 0 <= i < |s[1..]| ==> s[1..][i] == s[i + 1];
      }
      SplitDotFree(s[1..]);
      assert [s[0]] + s[1..] == s;
    }
  }

  /** The fields of `a + "." + b` when `a` has no dot: `a` itself, then those of `b`. */
  lemma {:induction false} SplitAfterDotFree(a: string, b: string)
    requires '.' !in a
    ensures SplitDots(a + "." + b) == [a] + SplitDots(b)
  {
    if |a| > 0 {
      assert (a + "." + b)[1..] == a[1..] + "." + b;
      SplitAfterDotFree(a[1..], b);
      assert [a[0]] + a[1..] == a;
    } else {
      assert a + "." + b == "." + b;
      assert ("." + b)[1..] == b;
    }
  }

  /** Appending `"." + suffix` never changes the first field. */
  lemma {:induction false} FirstFieldOfAppended(prefix: string, suffix: string)
    ensures SplitDots(prefix + "." + suffix)[0] == SplitDots(prefix)[0]
  {
    var s := prefix + "." + suffix;
    if |prefix| == 0 {
      assert s == "." + suffix;
    } else {
      assert s[0] == prefix[0];
      assert s[1..] == prefix[1..] + "." + suffix;
      if prefix[0] != '.' {
        FirstFieldOfAppended(prefix[1..], suffix);
      }
    }
  }

  /**
   * Fields of `prefix + "." + suffix` for a dot-free suffix: the first field
   * is always that of `prefix`, and the second field is `suffix` only when
   * `prefix` itself has no dot.
   */
  lemma {:induction false} SplitAppendedField(prefix: string, suffix: string)
    requires '.' !in suffix
    ensures var f := SplitDots(prefix + "." + suffix);
      |f| >= 2 && f[0] == SplitDots(prefix)[0]
      && f[1] == (if '.' in prefix then SplitDots(prefix)[1] else suffix)
  {
    var s := prefix + "." + suffix;
    assert s[|prefix|] == '.';
    FirstFieldOfAppended(prefix, suffix);
    if |prefix| == 0 {
      assert s == "." + suffix;
      assert s[1..] == suffix;
      SplitDotFree(suffix);
    } else {
      assert s[0] == prefix[0];
      assert s[1..] == prefix[1..] + "." + suffix;
      assert prefix == [prefix[0]] + prefix[1..];
      if prefix[0] == '.' {
        FirstFieldOfAppended(prefix[1..], suffix);
      } else {
        SplitAppendedField(prefix[1..], suffix);
        assert '.' in prefix <==> '.' in prefix[1..];
      }
    }
  }

  // ------------------------------------------------------------------
  // Go's string order: byte-wise lexicographic. UTF-8 preserves the order
  // of code points, so comparing characters gives the same order.
  // ------------------------------------------------------------------

  predicate LexLess(a: string, b: string)
  {
    if |a| == 0 then |b| > 0
    else if |b| == 0 then false
    else if a[0] != b[0] then a[0] < b[0]
    else LexLess(a[1..], b[1..])
  }

  lemma {:induction false} LexLessAsymmetric(a: string, b: string)
    requires LexLess(a, b)
    ensures !LexLess(b, a)
  {
    if |a| > 0 && |b| > 0 && a[0] == b[0] {
      LexLessAsymmetric(a[1..], b[1..]);
    }
  }

  lemma {:induction false} LexLessTransitive(a: string, b: string, c: string)
    requires LexLess(a, b) && LexLess(b, c)
    ensures LexLess(a, c)
  {
    if |a| > 0 && |b| > 0 && |c| > 0 && a[0] == b[0] && b[0] == c[0] {
      LexLessTransitive(a[1..], b[1..], c[1..]);
    }
  }

  lemma {:induction false} LexLessTotal(a: string, b: string)
    requires a != b
    ensures LexLess(a, b) || LexLess(b, a)
  {
    if |a| > 0 && |b| > 0 && a[0] == b[0] {
      assert a == [a[0]] + a[1..] && b == [b[0]] + b[1..];
      LexLessTotal(a[1..], b[1..]);
    }
  }

  /**
   * Sorting strings that share a prefix orders them as their suffixes: paths
   * under one root sort like their base names.
   */
  lemma {:induction false} CommonPrefixKeepsOrder(p: string, a: string, b: string)
    ensures LexLess(p + a, p + b) <==> LexLess(a, b)
  {
    if |p| > 0 {
      assert (p + a)[1..] == p[1..] + a;
      assert (p + b)[1..] == p[1..] + b;
      CommonPrefixKeepsOrder(p[1..], a, b);
    } else {
      assert p + a == a && p + b == b;
    }
  }

  /** Comparing equal-length strings extended by one character each. */
  lemma {:induction false} LexLessSnoc(x: string, y: string, a: char, b: char)
    requires |x| == |y|
    ensures LexLess(x + [a], y + [b]) <==> LexLess(x, y) || (x == y && a < b)
  {
    if |x| == 0 {
      assert x + [a] == [a] && y + [b] == [b];
      assert [a][1..] == [] && [b][1..] == [];
    } else {
      assert (x + [a])[1..] == x[1..] + [a];
      assert (y + [b])[1..] == y[1..] + [b];
      LexLessSnoc(x[1..], y[1..], a, b);
      assert x == [x[0]] + x[1..] && y == [y[0]] + y[1..];
    }
  }

  // ------------------------------------------------------------------
  // Descending order (sort.Slice with `found[x] > found[y]`)
  // ------------------------------------------------------------------

  /** Strictly descending, hence free of duplicates. */
  predicate Descending(s: seq<string>)
  {
    forall i, j :: 0 <= i < j < |s| ==> LexLess(s[j], s[i])
  }

  predicate Distinct(s: seq<string>)
  {
    forall i, j :: 0 <= i < j < |s| ==> s[i] != s[j]
  }

  lemma DescendingCons(h: string, t: seq<string>)
    requires Descending(t)
    requires forall y :: y in t ==> LexLess(y, h)
    ensures Descending([h] + t)
  {
    var s := [h] + t;
    forall i, j | 0 <= i < j < |s| ensures LexLess(s[j], s[i]) {
      if i == 0 {
        assert s[j] == t[j - 1];
        assert t[j - 1] in t;
      } else {
        assert s[i] == t[i - 1] && s[j] == t[j - 1];
      }
    }
  }

  lemma DescendingSnoc(s: seq<string>, x: string)
    requires Descending(s)
    requires forall y :: y in s ==> LexLess(x, y)
    ensures Descending(s + [x])
  {
    var r := s + [x];
    forall i, j | 0 <= i < j < |r| ensures LexLess(r[j], r[i]) {
      assert r[i] == s[i];
      if j == |s| {
        assert s[i] in s;
      } else {
        assert r[j] == s[j];
      }
    }
  }

  /** In a descending list, each element is below everything before it. */
  lemma BelowEarlier(s: seq<string>, i: nat)
    requires Descending(s) && i < |s|
    ensures forall y :: y in s[..i] ==> LexLess(s[i], y)
  {
    forall y | y in s[..i] ensures LexLess(s[i], y) {
      var j :| 0 <= j < i && s[..i][j] == y;
      assert s[j] == y;
    }
  }

  function InsertDescending(x: string, s: seq<string>): (r: seq<string>)
    requires Descending(s) && x !in s
    ensures Descending(r) && |r| == |s| + 1
    ensures forall y :: y in r <==> y == x || y in s
  {
    if |s| == 0 then [x]
    else
      LexLessTotal(x, s[0]);
      if LexLess(s[0], x) then
        assert forall y :: y in s ==> LexLess(y, x) by {
          forall y | y in s ensures LexLess(y, x) {
            var j :| 0 <= j < |s| && s[j] == y;
            if j > 0 { LexLessTransitive(y, s[0], x); }
          }
        }
        DescendingCons(x, s);
        [x] + s
      else
        assert s == [s[0]] + s[1..];
        var rest := InsertDescending(x, s[1..]);
        assert forall y :: y in rest ==> LexLess(y, s[0]) by {
          forall y | y in rest ensures LexLess(y, s[0]) {
            if y != x {
              var j :| 0 <= j < |s[1..]| && s[1..][j] == y;
              assert s[j + 1] == y;
            }
          }
        }
        DescendingCons(s[0], rest);
        [s[0]] + rest
  }

  /** Sorting distinct names descending: the same names, each once, largest first. */
  function SortDescending(s: seq<string>): (r: seq<string>)
    requires Distinct(s)
    ensures Descending(r) && |r| == |s|
    ensures forall y :: y in r <==> y in s
  {
    if |s| == 0 then []
    else
      assert Distinct(s[1..]);
      var sorted := SortDescending(s[1..]);
      assert s[0] !in s[1..];
      assert s == [s[0]] + s[1..];
      InsertDescending(s[0], sorted)
  }

  // ------------------------------------------------------------------
  // Decimal timestamps: strconv.Itoa on a non-negative int, and
  // strconv.Atoi on an unsigned digit string
  // ------------------------------------------------------------------

  function DigitChar(d: nat): (c: char)
    requires d < 10
    ensures IsDigit(c)
  {
    ('0' as int + d) as char
  }

  function DigitValue(c: char): (d: nat)
    requires IsDigit(c)
    ensures d < 10
  {
    c as int - '0' as int
  }

  /** Atoi's accumulation, left to right: value := value * 10 + digit. */
  function DigitsValue(s: string): nat
    requires AllDigits(s)
  {
    if |s| == 0 then 0 else DigitsValue(s[..|s| - 1]) * 10 + DigitValue(s[|s| - 1])
  }

  /** strconv.Atoi restricted to unsigned decimal text. */
  function ParseDecimal(s: string): Option<nat>
  {
    if |s| > 0 && AllDigits(s) then Some(DigitsValue(s)) else None
  }

  /** strconv.Itoa on a non-negative value: digits, no leading zero. */
  function Decimal(n: nat): (s: string)
    ensures |s| >= 1 && AllDigits(s)
    ensures |s| > 1 ==> s[0] != '0'
    ensures '.' !in s
  {
    if n < 10 then [DigitChar(n)] else Decimal(n / 10) + [DigitChar(n % 10)]
  }

  /** Parsing the rendering of a second count gives that count back. */
  lemma {:induction false} ParseDecimalOfDecimal(n: nat)
    ensures ParseDecimal(Decimal(n)) == Some(n)
  {
    if n >= 10 {
      ParseDecimalOfDecimal(n / 10);
      var s := Decimal(n);
      assert s[..|s| - 1] == Decimal(n / 10);
      assert DigitValue(s[|s| - 1]) == n % 10;
      assert DigitsValue(s) == DigitsValue(Decimal(n / 10)) * 10 + n % 10;
    }
  }

  /**
   * The converse for digit strings without a leading zero: rendering the
   * parsed value gives the text back. ("007" parses too, to 7, which
   * renders as "7".)
   */
  lemma DecimalOfParseDecimal(s: string)
    requires ParseDecimal(s).Some? && (|s| > 1 ==> s[0] != '0')
    ensures Decimal(ParseDecimal(s).value) == s
  {
    DecimalOfDigitsValue(s);
  }

  lemma {:induction false} DecimalOfDigitsValue(s: string)
    requires |s| >= 1 && AllDigits(s) && (|s| > 1 ==> s[0] != '0')
    ensures Decimal(DigitsValue(s)) == s
    ensures |s| > 1 ==> DigitsValue(s) >= 10
  {
    var last := s[|s| - 1];
    var d := DigitValue(last);
    assert DigitChar(d) == last;
    var s' := s[..|s| - 1];
    var a := DigitsValue(s');
    assert DigitsValue(s) == a * 10 + d;
    if |s| > 1 {
      assert s'[0] == s[0];
      DecimalOfDigitsValue(s');
      assert a >= 1 by {
        if |s'| == 1 {
          assert DigitsValue(s') == DigitsValue(s'[..0]) * 10 + DigitValue(s'[0]);
        }
      }
      DivModTen(a, d);
      assert Decimal(a * 10 + d) == Decimal(a) + [DigitChar(d)];
      assert s == s' + [last];
    } else {
      assert a == 0;
    }
  }

  lemma DivModTen(a: nat, d: nat)
    requires d < 10
    ensures (a * 10 + d) / 10 == a && (a * 10 + d) % 10 == d
  {
  }

  /**
   * For digit strings of one width, string order is numeric order, and
   * equal values mean equal strings.
   */
  lemma {:induction false} DigitsOrder(x: string, y: string)
    requires AllDigits(x) && AllDigits(y) && |x| == |y|
    ensures LexLess(x, y) <==> DigitsValue(x) < DigitsValue(y)
    ensures x == y <==> DigitsValue(x) == DigitsValue(y)
  {
    if |x| > 0 {
      var x', y' := x[..|x| - 1], y[..|y| - 1];
      var a, b := x[|x| - 1], y[|y| - 1];
      assert x == x' + [a] && y == y' + [b];
      DigitsOrder(x', y');
      LexLessSnoc(x', y', a, b);
      assert DigitsValue(x) == DigitsValue(x') * 10 + DigitValue(a);
      assert DigitsValue(y) == DigitsValue(y') * 10 + DigitValue(b);
      assert a == b <==> DigitValue(a) == DigitValue(b);
    }
  }

  /** Timestamps rendered with the same number of digits sort numerically. */
  lemma DecimalOrder(m: nat, n: nat)
    requires |Decimal(m)| == |Decimal(n)|
    ensures LexLess(Decimal(m), Decimal(n)) <==> m < n
  {
    DigitsOrder(Decimal(m), Decimal(n));
    ParseDecimalOfDecimal(m);
    ParseDecimalOfDecimal(n);
  }
}
