/**
 * The string operations the back end relies on: decimal rendering of integers
 * (Rust's `Display` for `usize` and `i64`), `str::split` on one character and
 * `join` on a vector of strings.
 */
module Text {

  predicate IsDigit(ch: char) {
    '0' <= ch <= '9'
  }

  function DigitChar(d: nat): (ch: char)
    requires d < 10
    ensures IsDigit(ch)
  {
    (48 + d) as char
  }

  function DigitValue(ch: char): (d: nat)
    requires IsDigit(ch)
    ensures d < 10
  {
    ch as int - '0' as int
  }

  /** The number a string of decimal digits denotes. */
  function DigitsValue(s: string): nat
    requires forall k :: 0 <= k < |s| ==> IsDigit(s[k])
  {
    if s == [] then 0 else DigitsValue(s[..|s| - 1]) * 10 + DigitValue(s[|s| - 1])
  }

  /** Decimal text of a natural number: digits only, and no leading zero except for 0 itself. */
  function NatToString(n: nat): (s: string)
    ensures |s| >= 1
    ensures forall k :: 0 <= k < |s| ==> IsDigit(s[k])
    ensures s[0] == '0' <==> n == 0
    decreases n
  {
    if n < 10 then [DigitChar(n)] else NatToString(n / 10) + [DigitChar(n % 10)]
  }

  /** Reading the digits back gives the number that was written. */
  lemma {:induction false} NatToStringRoundTrip(n: nat)
    ensures DigitsValue(NatToString(n)) == n
    decreases n
  {
    var s := NatToString(n);
    if n >= 10 {
      var p := NatToString(n / 10);
      assert s == p + [DigitChar(n % 10)];
      assert s[..|s| - 1] == p;
      NatToStringRoundTrip(n / 10);
    }
  }

  /** Distinct numbers are written as distinct texts. */
  lemma NatToStringInjective(m: nat, n: nat)
    ensures NatToString(m) == NatToString(n) <==> m == n
  {
    NatToStringRoundTrip(m);
    NatToStringRoundTrip(n);
  }

  /** Decimal text of an integer: a minus sign before the magnitude when it is negative. */
  function IntToString(i: int): (s: string)
    ensures |s| >= 1
    ensures forall k :: 0 <= k < |s| ==> IsDigit(s[k]) || (k == 0 && s[k] == '-')
    ensures s[0] == '-' <==> i < 0
  {
    if i < 0 then "-" + NatToString(-i) else NatToString(i)
  }

  /** The digits after the optional `-` denote the magnitude of the integer. */
  lemma IntToStringValue(i: int)
    ensures i >= 0 ==> DigitsValue(IntToString(i)) == i
    ensures i < 0 ==> IntToString(i)[1..] == NatToString(-i) && DigitsValue(IntToString(i)[1..]) == -i
  {
    if i < 0 {
      assert IntToString(i)[1..] == NatToString(-i);
      NatToStringRoundTrip(-i);
    } else {
      NatToStringRoundTrip(i);
    }
  }

  /** Distinct integers are written as distinct texts. */
  lemma IntToStringInjective(i: int, j: int)
    ensures IntToString(i) == IntToString(j) <==> i == j
  {
    if IntToString(i) == IntToString(j) {
      assert (i < 0) == (j < 0);
      if i < 0 {
        assert IntToString(i)[1..] == NatToString(-i);
        assert IntToString(j)[1..] == NatToString(-j);
      }
      NatToStringInjective(if i < 0 then -i else i, if j < 0 then -j else j);
    }
  }

  /** How many times `ch` occurs in `s`. */
  function Count(s: string, ch: char): nat {
    if s == [] then 0 else (if s[0] == ch then 1 else 0) + Count(s[1..], ch)
  }

  lemma {:induction false} CountZero(s: string, ch: char)
    ensures Count(s, ch) == 0 <==> ch !in s
  {
    if s != [] {
      CountZero(s[1..], ch);
      assert s == [s[0]] + s[1..];
    }
  }

  /**
   * Rust's `str::split` on a single character: the pieces between the
   * separators, so an empty string gives one empty piece and every separator
   * adds one piece.
   */
  function Split(s: string, sep: char): (parts: seq<string>)
    ensures |parts| == Count(s, sep) + 1
    ensures forall k :: 0 <= k < |parts| ==> sep !in parts[k]
  {
    if s == [] then [[]]
    else
      var rest := Split(s[1..], sep);
      if s[0] == sep then [[]] + rest else [[s[0]] + rest[0]] + rest[1..]
  }

  /** Rust's `join`: the parts with `sep` between neighbours; no parts give the empty string. */
  function Join(parts: seq<string>, sep: string): string {
    if |parts| == 0 then []
    else if |parts| == 1 then parts[0]
    else parts[0] + sep + Join(parts[1..], sep)
  }

  /** Putting the pieces back together with the separator restores the string. */
  lemma {:induction false} JoinSplit(s: string, sep: char)
    ensures Join(Split(s, sep), [sep]) == s
  {
    if s != [] {
      var rest := Split(s[1..], sep);
      JoinSplit(s[1..], sep);
      if s[0] == sep {
        assert Split(s, sep)[1..] == rest;
      } else {
        var parts := Split(s, sep);
        if |rest| > 1 {
          assert parts[1..] == rest[1..];
          assert Join(rest, [sep]) == rest[0] + [sep] + Join(rest[1..], [sep]);
        }
        assert s == [s[0]] + s[1..];
      }
    }
  }

  /** A separator-free prefix is glued to the first piece of what follows it. */
  lemma {:induction false} SplitFreePrefix(x: string, y: string, sep: char)
    requires sep !in x
    ensures Split(x + y, sep) == [x + Split(y, sep)[0]] + Split(y, sep)[1..]
  {
    if x != [] {
      assert (x + y)[1..] == x[1..] + y;
      SplitFreePrefix(x[1..], y, sep);
      assert [x[0]] + (x[1..] + Split(y, sep)[0]) == x + Split(y, sep)[0];
    } else {
      var parts := Split(y, sep);
      assert x + y == y;
      assert x + parts[0] == parts[0];
      assert parts == [parts[0]] + parts[1..];
    }
  }

  /** Splitting a join of separator-free parts gives the parts back. */
  lemma {:induction false} SplitJoin(parts: seq<string>, sep: char)
    requires |parts| >= 1
    requires forall k :: 0 <= k < |parts| ==> sep !in parts[k]
    ensures Split(Join(parts, [sep]), sep) == parts
  {
    if |parts| == 1 {
      SplitFreePrefix(parts[0], [], sep);
      assert parts[0] + [] == parts[0];
    } else {
      var tail := Join(parts[1..], [sep]);
      SplitJoin(parts[1..], sep);
      assert Join(parts, [sep]) == parts[0] + ([sep] + tail);
      SplitFreePrefix(parts[0], [sep] + tail, sep);
      assert ([sep] + tail)[1..] == tail;
      assert parts[0] + [] == parts[0];
      assert parts == [parts[0]] + parts[1..];
    }
  }

  /** There is exactly one piece when, and only when, the separator does not occur. */
  lemma SplitCount(s: string, sep: char)
    ensures |Split(s, sep)| == 1 <==> sep !in s
  {
    CountZero(s, sep);
  }
}
