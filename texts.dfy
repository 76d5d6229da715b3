/**
 * The string operations the program relies on, with Python's meaning: str and
 * int of integers, hex and int(_, 16), str.split and str.join on one
 * separator character, str.lstrip and str.rstrip with a set of characters.
 */
module Texts {
  import opened Outcomes

  // ---------------------------------------------------------------------------
  // Decimal numerals

  /** An ASCII decimal digit; Python's int also accepts other Unicode decimal digits, which are not modelled. */
  predicate IsDigit(c: char)
  {
    '0' <= c <= '9'
  }

  predicate AllDigits(s: string)
  {
    forall i :: 0 <= i < |s| ==> IsDigit(s[i])
  }

  function DigitChar(d: int): (c: char)
    requires 0 <= d < 10
    ensures IsDigit(c) && c as int - '0' as int == d
  {
    ('0' as int + d) as char
  }

  /** The digits of n without leading zeros, as str writes a natural number. */
  function Decimal(n: nat): (s: string)
    ensures s != [] && AllDigits(s)
    decreases n
  {
    if n < 10 then [DigitChar(n)] else Decimal(n / 10) + [DigitChar(n % 10)]
  }

  /** The value of a string of decimal digits, most significant first. */
  function DigitsValue(s: string): nat
    requires AllDigits(s)
  {
    if s == [] then 0 else DigitsValue(s[..|s| - 1]) * 10 + (s[|s| - 1] as int - '0' as int)
  }

  lemma {:induction false} DecimalValue(n: nat)
    ensures DigitsValue(Decimal(n)) == n
    decreases n
  {
    if n >= 10 {
      var s := Decimal(n);
      assert s[..|s| - 1] == Decimal(n / 10);
      DecimalValue(n / 10);
    }
  }

  /** str of an integer: a minus sign before the digits of a negative number. */
  function Show(i: int): (s: string)
    ensures s != [] && ' ' !in s && '\n' !in s && ',' !in s
  {
    if i < 0 then "-" + Decimal(-i) else Decimal(i)
  }

  /**
   * int of a string: an optional sign and at least one decimal digit;
   * anything else raises ValueError, returned here as Err with the text.
   */
  function ParseInt(s: string): (r: Result<int, string>)
    ensures r.Ok? <==> (s != [] && AllDigits(s)) || (|s| >= 2 && (s[0] == '-' || s[0] == '+') && AllDigits(s[1..]))
  {
    if s != [] && (s[0] == '-' || s[0] == '+') then
      var body := s[1..];
      if body != [] && AllDigits(body) then
        var v: int := DigitsValue(body);
        Ok(if s[0] == '-' then -v else v)
      else Err(s)
    else if s != [] && AllDigits(s) then Ok(DigitsValue(s))
    else Err(s)
  }

  /** Reading back what str writes gives the integer again. */
  lemma ShowParses(i: int)
    ensures ParseInt(Show(i)) == Ok(i)
  {
    var s := Show(i);
    if i < 0 {
      var d := Decimal(-i);
      assert s == ['-'] + d;
      assert s[1..] == d;
      DecimalValue(-i);
    } else {
      var d := Decimal(i);
      assert s == d && IsDigit(s[0]);
      DecimalValue(i);
    }
  }

  // ---------------------------------------------------------------------------
  // Hexadecimal numerals

  predicate IsLowerHexDigit(c: char)
  {
    '0' <= c <= '9' || 'a' <= c <= 'f'
  }

  /** An ASCII hex digit of either case. */
  predicate IsHexDigit(c: char)
  {
    IsLowerHexDigit(c) || 'A' <= c <= 'F'
  }

  predicate AllHexDigits(s: string)
  {
    forall i :: 0 <= i < |s| ==> IsHexDigit(s[i])
  }

  function HexValue(c: char): (v: int)
    requires IsHexDigit(c)
    ensures 0 <= v < 16
  {
    if '0' <= c <= '9' then c as int - '0' as int
    else if 'a' <= c <= 'f' then c as int - 'a' as int + 10
    else c as int - 'A' as int + 10
  }

  /** The lower-case digit of value d, as hex writes it. */
  function HexDigit(d: int): (c: char)
    requires 0 <= d < 16
    ensures IsLowerHexDigit(c) && HexValue(c) == d
  {
    if d < 10 then ('0' as int + d) as char else ('a' as int + d - 10) as char
  }

  lemma HexDigitOfValue(c: char)
    requires IsLowerHexDigit(c)
    ensures HexDigit(HexValue(c)) == c
  {
  }

  /** The digits of n in base 16 without leading zeros (what hex writes after "0x"). */
  function Hex(n: nat): (s: string)
    ensures s != []
    decreases n
  {
    if n < 16 then [HexDigit(n)] else Hex(n / 16) + [HexDigit(n % 16)]
  }

  /** hex of an integer: "0x" and the digits, or "-0x" and the digits of a negative number. */
  function PyHex(i: int): string
  {
    if i < 0 then "-0x" + Hex(-i) else "0x" + Hex(i)
  }

  /** The value of a string of hexadecimal digits of either case, most significant first. */
  function HexDigitsValue(s: string): nat
    requires AllHexDigits(s)
  {
    if s == [] then 0 else HexDigitsValue(s[..|s| - 1]) * 16 + HexValue(s[|s| - 1])
  }

  function Pow16(k: nat): (r: nat)
    ensures r >= 1
  {
    if k == 0 then 1 else 16 * Pow16(k - 1)
  }

  /** The last k base-16 digits of n, with leading zeros. */
  function Fixed(n: nat, k: nat): (s: string)
    ensures |s| == k && forall i :: 0 <= i < k ==> IsLowerHexDigit(s[i])
  {
    if k == 0 then [] else Fixed(n / 16, k - 1) + [HexDigit(n % 16)]
  }

  /** n and the remainder of a division of n by 16 * m, through the quotient by 16. */
  lemma DivModSixteen(n: nat, m: nat)
    requires m >= 1
    ensures (n / 16 % m) * 16 + n % 16 == n % (16 * m)
  {
    var q, r := n / 16, n % 16;
    var a, c := q / m, q % m;
    assert n == 16 * m * a + (16 * c + r);
    ModOfDecomposition(n, 16 * m, a, 16 * c + r);
  }

  /** The remainder is the unique part of a decomposition below the divisor. */
  lemma ModOfDecomposition(n: int, m: int, a: int, r: int)
    requires m > 0 && 0 <= r < m && n == m * a + r
    ensures n % m == r && n / m == a
  {
    var a', r' := n / m, n % m;
    assert n == m * a' + r';
    if a < a' {
      assert m * (a' - a) == r - r';
      MulAtLeast(m, a' - a);
    } else if a' < a {
      assert m * (a - a') == r' - r;
      MulAtLeast(m, a - a');
    }
  }

  lemma {:induction false} MulAtLeast(m: int, k: int)
    requires m > 0 && k >= 1
    ensures m * k >= m
  {
    if k > 1 {
      MulAtLeast(m, k - 1);
      assert m * k == m * (k - 1) + m;
    }
  }

  /** k fixed digits read back give n modulo 16^k. */
  lemma {:induction false} FixedValue(n: nat, k: nat)
    ensures HexDigitsValue(Fixed(n, k)) == n % Pow16(k)
  {
    if k > 0 {
      var s := Fixed(n, k);
      assert s[..k - 1] == Fixed(n / 16, k - 1);
      FixedValue(n / 16, k - 1);
      DivModSixteen(n, Pow16(k - 1));
    }
  }

  /** Fixed digits of the value of lower-case digits are the digits themselves. */
  lemma {:induction false} FixedOfValue(s: string)
    requires forall i :: 0 <= i < |s| ==> IsLowerHexDigit(s[i])
    ensures HexDigitsValue(s) < Pow16(|s|)
    ensures Fixed(HexDigitsValue(s), |s|) == s
  {
    if s != [] {
      var front, last := s[..|s| - 1], s[|s| - 1];
      FixedOfValue(front);
      var v := HexDigitsValue(s);
      ModOfDecomposition(v, 16, HexDigitsValue(front), HexValue(last));
      HexDigitOfValue(last);
      assert s == front + [last];
    }
  }

  /** A number from 16^k up to 2 * 16^k is written as a 1 followed by its last k digits. */
  lemma {:induction false} HexWithLeadingOne(n: nat, k: nat)
    requires Pow16(k) <= n < 2 * Pow16(k)
    ensures Hex(n) == "1" + Fixed(n, k)
  {
    if k > 0 {
      ModOfDecomposition(n, 16, n / 16, n % 16);
      assert Pow16(k - 1) <= n / 16 < 2 * Pow16(k - 1);
      HexWithLeadingOne(n / 16, k - 1);
    }
  }

  /**
   * int of a string in base 16: an optional sign, an optional "0x" prefix and
   * at least one hexadecimal digit of either case; anything else is Err.
   */
  function ParseHex(s: string): (r: Result<int, string>)
    ensures AllHexDigits(s) && s != [] ==> r == Ok(HexDigitsValue(s))
  {
    var neg := s != [] && s[0] == '-';
    var unsigned := if s != [] && (s[0] == '-' || s[0] == '+') then s[1..] else s;
    var body := if |unsigned| >= 2 && unsigned[0] == '0' && (unsigned[1] == 'x' || unsigned[1] == 'X') then unsigned[2..] else unsigned;
    if body != [] && AllHexDigits(body) then
      var v: int := HexDigitsValue(body);
      Ok(if neg then -v else v)
    else Err(s)
  }

  // ---------------------------------------------------------------------------
  // Splitting, joining, stripping

  /** str.split(sep): the pieces between the separators; the empty string gives one empty piece. */
  function Split(s: string, sep: char): (r: seq<string>)
    ensures r != [] && forall i :: 0 <= i < |r| ==> sep !in r[i]
  {
    if s == [] then [[]]
    else
      var rest := Split(s[1..], sep);
      if s[0] == sep then [[]] + rest else [[s[0]] + rest[0]] + rest[1..]
  }

  /** sep.join(pieces) for a non-empty list of pieces. */
  function Join(pieces: seq<string>, sep: char): string
    requires pieces != []
  {
    if |pieces| == 1 then pieces[0] else pieces[0] + [sep] + Join(pieces[1..], sep)
  }

  /** Joining the pieces of a split gives the string back. */
  lemma {:induction false} JoinSplit(s: string, sep: char)
    ensures Join(Split(s, sep), sep) == s
  {
    if s != [] {
      var rest := Split(s[1..], sep);
      JoinSplit(s[1..], sep);
      if s[0] != sep {
        if |rest| == 1 {
        } else {
          assert ([s[0]] + rest[0]) + [sep] + Join(rest[1..], sep) == [s[0]] + (rest[0] + [sep] + Join(rest[1..], sep));
        }
      }
    }
  }

  /** Splitting pieces joined with a separator they do not contain gives the pieces back. */
  lemma {:induction false} SplitJoin(pieces: seq<string>, sep: char)
    requires pieces != [] && forall i :: 0 <= i < |pieces| ==> sep !in pieces[i]
    ensures Split(Join(pieces, sep), sep) == pieces
    decreases |pieces|, |pieces[0]|
  {
    var p := pieces[0];
    if p == [] {
      if |pieces| > 1 {
        SplitJoin(pieces[1..], sep);
        assert Join(pieces, sep)[1..] == Join(pieces[1..], sep);
      }
    } else {
      var shorter := [p[1..]] + pieces[1..];
      assert shorter[1..] == pieces[1..];
      SplitJoin(shorter, sep);
      if |pieces| == 1 {
        assert Join(pieces, sep)[1..] == Join(shorter, sep);
      } else {
        assert Join(pieces, sep)[1..] == Join(shorter, sep);
      }
      assert [p[0]] + p[1..] == p;
    }
  }

  /** str.rstrip(chars): the string without its longest suffix made of those characters. */
  function RStrip(s: string, chars: set<char>): (r: string)
    ensures |r| <= |s| && r == s[..|r|]
    ensures r != [] ==> r[|r| - 1] !in chars
    ensures forall i :: |r| <= i < |s| ==> s[i] in chars
  {
    if s != [] && s[|s| - 1] in chars then RStrip(s[..|s| - 1], chars) else s
  }

  /** str.lstrip(chars): the string without its longest prefix made of those characters. */
  function LStrip(s: string, chars: set<char>): (r: string)
    ensures |r| <= |s| && r == s[|s| - |r|..]
    ensures r != [] ==> r[0] !in chars
    ensures forall i :: 0 <= i < |s| - |r| ==> s[i] in chars
  {
    if s != [] && s[0] in chars then LStrip(s[1..], chars) else s
  }
}
