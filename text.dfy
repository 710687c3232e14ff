/** The parts of Python's `str` and `int` that the handler relies on:
    `str(n)` and `int(s)` for non-negative numbers, the `:02d` format,
    `str.split`, `str.partition` and `str.replace(c, '')`. */
module Text {
  import opened Wrappers

  predicate IsDigit(c: char) { '0' <= c <= '9' }

  predicate AllDigits(s: string) { forall i :: 0 <= i < |s| ==> IsDigit(s[i]) }

  function DigitChar(d: nat): (c: char)
    requires d < 10
    ensures IsDigit(c) && c as int - '0' as int == d
  {
    (d + '0' as int) as char
  }

  /** `str(n)`: the decimal digits of n, with no sign and no leading zero. */
  function Show(n: nat): (s: string)
    ensures |s| >= 1 && AllDigits(s)
    ensures n > 0 ==> s[0] != '0'
    ensures n < 10 <==> |s| == 1
  {
    if n < 10 then [DigitChar(n)] else Show(n / 10) + [DigitChar(n % 10)]
  }

  /** The number a string of decimal digits denotes (leading zeros allowed). */
  function DigitsValue(s: string): nat
    requires AllDigits(s)
  {
    if s == [] then 0 else DigitsValue(s[..|s| - 1]) * 10 + (s[|s| - 1] as int - '0' as int)
  }

  /** `int(s)` on a string of one or more ASCII digits, the only strings
      this program hands it. None for every other string: `int` itself
      also takes a sign, surrounding blanks and '_' between digits, which
      the resolutions built here never hold. */
  function Parse(s: string): Option<nat>
  {
    if s != [] && AllDigits(s) then Some(DigitsValue(s)) else None
  }

  /** `int(str(n)) == n`. */
  lemma {:induction false} ParseShow(n: nat)
    ensures Parse(Show(n)) == Some(n)
  {
    if n >= 10 {
      ParseShow(n / 10);
      var s := Show(n);
      assert s[..|s| - 1] == Show(n / 10);
      assert s[|s| - 1] == DigitChar(n % 10);
      assert DigitsValue(s) == (n / 10) * 10 + n % 10;
    }
  }

  /** Distinct numbers print differently. */
  lemma ShowInjective(a: nat, b: nat)
    ensures Show(a) == Show(b) ==> a == b
  {
    ParseShow(a);
    ParseShow(b);
  }

  /** `f'{n:02d}'`: at least two digits, padded with one leading zero. */
  function ZeroPad2(n: nat): (s: string)
    ensures AllDigits(s) && |s| >= 2
    ensures n < 100 ==> |s| == 2
  {
    if n < 10 then "0" + Show(n) else Show(n)
  }

  /** Padding does not change the value. */
  lemma ParseZeroPad2(n: nat)
    ensures Parse(ZeroPad2(n)) == Some(n)
  {
    ParseShow(n);
    if n < 10 {
      var s := ZeroPad2(n);
      assert s == ['0', DigitChar(n)];
      assert s[..1] == "0";
      assert DigitsValue(s[..1]) == 0;
    }
  }

  /** `s.split(sep)`: the pieces between occurrences of sep, always at least one. */
  function SplitOn(s: string, sep: char): (parts: seq<string>)
    ensures |parts| >= 1
  {
    if s == [] then [""]
    else
      var rest := SplitOn(s[1..], sep);
      if s[0] == sep then [""] + rest else [[s[0]] + rest[0]] + rest[1..]
  }

  lemma {:induction false} SplitOnNone(s: string, sep: char)
    requires sep !in s
    ensures SplitOn(s, sep) == [s]
  {
    if s != [] {
      SplitOnNone(s[1..], sep);
      assert [s[0]] + s[1..] == s;
    }
  }

  /** Splitting at the first separator peels off the piece before it. */
  lemma {:induction false} SplitOnFirst(a: string, sep: char, b: string)
    requires sep !in a
    ensures SplitOn(a + [sep] + b, sep) == [a] + SplitOn(b, sep)
  {
    var s := a + [sep] + b;
    if a == [] {
      assert s[1..] == b;
    } else {
      assert s[1..] == a[1..] + [sep] + b;
      SplitOnFirst(a[1..], sep, b);
      assert [a[0]] + a[1..] == a;
    }
  }

  /** `s.partition(sep)` without the separator: the text before the first
      sep and the text after it (everything and "" when sep is absent). */
  function Partition(s: string, sep: char): (string, string)
  {
    if s == [] then ("", "")
    else if s[0] == sep then ("", s[1..])
    else
      var (before, after) := Partition(s[1..], sep);
      ([s[0]] + before, after)
  }

  lemma {:induction false} PartitionFirst(a: string, sep: char, b: string)
    requires sep !in a
    ensures Partition(a + [sep] + b, sep) == (a, b)
  {
    var s := a + [sep] + b;
    if a == [] {
      assert s[1..] == b;
    } else {
      assert s[1..] == a[1..] + [sep] + b;
      PartitionFirst(a[1..], sep, b);
      assert [a[0]] + a[1..] == a;
    }
  }

  /** `s.replace(c, '')`. */
  function RemoveChar(s: string, c: char): (r: string)
    ensures c !in r
  {
    if s == [] then ""
    else RemoveChar(s[..|s| - 1], c) + (if s[|s| - 1] == c then "" else [s[|s| - 1]])
  }

  lemma {:induction false} RemoveAbsent(s: string, c: char)
    requires c !in s
    ensures RemoveChar(s, c) == s
  {
    if s != [] {
      RemoveAbsent(s[..|s| - 1], c);
      assert s[..|s| - 1] + [s[|s| - 1]] == s;
    }
  }

  /** A run of digits followed by a non-digit is fixed by where the
      non-digit stands: two such strings that are equal agree on both parts. */
  lemma DigitsPrefix(a: string, x: string, b: string, y: string)
    requires AllDigits(a) && AllDigits(b)
    requires |x| > 0 && |y| > 0 && !IsDigit(x[0]) && !IsDigit(y[0])
    requires a + x == b + y
    ensures a == b && x == y
  {
    assert forall k :: 0 <= k < |a| ==> IsDigit((a + x)[k]);
    assert forall k :: 0 <= k < |b| ==> IsDigit((b + y)[k]);
    assert !IsDigit((a + x)[|a|]) && !IsDigit((b + y)[|b|]);
    assert |a| == |b|;
    assert a == (a + x)[..|a|] && b == (b + y)[..|b|];
    assert x == (a + x)[|a|..] && y == (b + y)[|b|..];
  }
}
