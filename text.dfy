/**
 * The parts of Go's `strings` and `strconv` packages that the parser relies on.
 * A Go string is a sequence of bytes; here each byte is one `char`.
 */
module Text {
  import opened Wrappers

  /** Smallest and largest value of Go's 64-bit `int`. */
  const MinInt64: int := -0x8000_0000_0000_0000
  const MaxInt64: int := 0x7fff_ffff_ffff_ffff

  predicate InInt64(n: int) {
    MinInt64 <= n <= MaxInt64
  }

  /** strings.HasPrefix */
  predicate HasPrefix(s: string, prefix: string) {
    |prefix| <= |s| && s[..|prefix|] == prefix
  }

  /** Number of occurrences of `c` in `s`. */
  function Count(s: string, c: char): nat {
    if s == [] then 0 else (if s[0] == c then 1 else 0) + Count(s[1..], c)
  }

  /** strings.Split(s, sep) for a one-character separator: every occurrence cuts. */
  function Split(s: string, sep: char): (parts: seq<string>)
    ensures |parts| >= 1
  {
    if s == [] then [""]
    else
      var rest := Split(s[1..], sep);
      if s[0] == sep then [""] + rest
      else [[s[0]] + rest[0]] + rest[1..]
  }

  /** No part holds the separator. */
  lemma {:induction false} SplitPartsHaveNoSeparator(s: string, sep: char)
    ensures forall i :: 0 <= i < |Split(s, sep)| ==> sep !in Split(s, sep)[i]
  {
    if s != [] {
      SplitPartsHaveNoSeparator(s[1..], sep);
      var rest := Split(s[1..], sep);
      if s[0] != sep {
        assert sep !in [s[0]] + rest[0];
      }
    }
  }

  /** strings.Join(parts, sep) for a one-character separator: every part, with one separator between neighbours. */
  function Join(parts: seq<string>, sep: char): (s: string)
    ensures |parts| >= 1 ==> |s| == |Concat(parts)| + |parts| - 1
  {
    if |parts| == 0 then ""
    else if |parts| == 1 then parts[0]
    else parts[0] + [sep] + Join(parts[1..], sep)
  }

  /** Splitting cuts at every separator: one more part than separators. */
  lemma {:induction false} SplitLength(s: string, sep: char)
    ensures |Split(s, sep)| == Count(s, sep) + 1
  {
    if s != [] {
      SplitLength(s[1..], sep);
    }
  }

  /** Joining the parts back with the separator gives the original string. */
  lemma {:induction false} JoinSplit(s: string, sep: char)
    ensures Join(Split(s, sep), sep) == s
  {
    if s != [] {
      var rest := Split(s[1..], sep);
      JoinSplit(s[1..], sep);
      if s[0] == sep {
        assert Split(s, sep) == [""] + rest;
        assert ([""] + rest)[1..] == rest;
        assert s == [sep] + s[1..];
      } else if |rest| == 1 {
        assert Split(s, sep) == [[s[0]] + rest[0]];
        assert s == [s[0]] + s[1..];
      } else {
        var parts := [[s[0]] + rest[0]] + rest[1..];
        assert Split(s, sep) == parts;
        assert parts[1..] == rest[1..];
        assert Join(rest, sep) == rest[0] + [sep] + Join(rest[1..], sep);
        assert s == [s[0]] + s[1..];
      }
    }
  }

  /** A string without the separator is a single part. */
  lemma {:induction false} SplitNoSeparator(a: string, sep: char)
    requires sep !in a
    ensures Split(a, sep) == [a]
  {
    if a != [] {
      SplitNoSeparator(a[1..], sep);
      assert [a[0]] + a[1..] == a;
    }
  }

  /** A separator after a separator-free prefix cuts exactly there. */
  lemma {:induction false} SplitCons(a: string, sep: char, b: string)
    requires sep !in a
    ensures Split(a + [sep] + b, sep) == [a] + Split(b, sep)
  {
    var s := a + [sep] + b;
    if a == [] {
      assert s[1..] == b;
    } else {
      assert s[1..] == a[1..] + [sep] + b;
      SplitCons(a[1..], sep, b);
      assert [a[0]] + a[1..] == a;
    }
  }

  /**
   * Splitting a join cuts at the separators the join put in, when the parts before
   * the last hold none themselves; the last part is split further.
   */
  lemma {:induction false} SplitJoinLast(parts: seq<string>, sep: char)
    requires |parts| >= 1
    requires forall i :: 0 <= i < |parts| - 1 ==> sep !in parts[i]
    ensures Split(Join(parts, sep), sep) == parts[..|parts| - 1] + Split(parts[|parts| - 1], sep)
  {
    if |parts| > 1 {
      var rest := parts[1..];
      assert forall i :: 0 <= i < |rest| - 1 ==> sep !in rest[i] by {
        forall i | 0 <= i < |rest| - 1 ensures sep !in rest[i] {
          assert rest[i] == parts[i + 1];
        }
      }
      SplitJoinLast(rest, sep);
      var tail := Join(rest, sep);
      assert Join(parts, sep) == parts[0] + [sep] + tail;
      SplitCons(parts[0], sep, tail);
      assert parts[..|parts| - 1] == [parts[0]] + rest[..|rest| - 1];
      assert parts[|parts| - 1] == rest[|rest| - 1];
      calc {
        Split(Join(parts, sep), sep);
        [parts[0]] + Split(tail, sep);
        [parts[0]] + (rest[..|rest| - 1] + Split(rest[|rest| - 1], sep));
        parts[..|parts| - 1] + Split(parts[|parts| - 1], sep);
      }
    }
  }

  /** Splitting a join of separator-free parts gives the parts back. */
  lemma SplitJoin(parts: seq<string>, sep: char)
    requires |parts| >= 1
    requires forall i :: 0 <= i < |parts| ==> sep !in parts[i]
    ensures Split(Join(parts, sep), sep) == parts
  {
    SplitJoinLast(parts, sep);
    SplitNoSeparator(parts[|parts| - 1], sep);
    assert parts[..|parts| - 1] + [parts[|parts| - 1]] == parts;
  }

  /** Concatenation of lines without a separator (writing each into a bytes.Buffer). */
  function Concat(lines: seq<string>): string {
    if lines == [] then "" else lines[0] + Concat(lines[1..])
  }

  lemma {:induction false} ConcatAppend(a: seq<string>, b: seq<string>)
    ensures Concat(a + b) == Concat(a) + Concat(b)
  {
    if a == [] {
      assert a + b == b;
    } else {
      assert (a + b)[1..] == a[1..] + b;
      ConcatAppend(a[1..], b);
      assert Concat(a + b) == a[0] + Concat(a[1..] + b);
    }
  }

  predicate IsDigit(c: char) {
    '0' <= c <= '9'
  }

  predicate AllDigits(s: string) {
    forall i :: 0 <= i < |s| ==> IsDigit(s[i])
  }

  /** The value of a string of decimal digits, most significant first. */
  function DigitsValue(s: string): nat
    requires AllDigits(s)
  {
    if s == [] then 0
    else DigitsValue(s[..|s| - 1]) * 10 + (s[|s| - 1] as int - '0' as int)
  }

  /**
   * strconv.Atoi on a 64-bit platform: an optional '+' or '-', then at least one
   * decimal digit and nothing else; a value outside int64 is a range error.
   */
  function Atoi(s: string): (r: Option<int>)
    ensures r.Some? ==> InInt64(r.value)
    ensures r.Some? ==> |s| >= 1 && ' ' !in s
  {
    if |s| == 0 then None
    else
      var digits := if s[0] == '+' || s[0] == '-' then s[1..] else s;
      if |digits| == 0 || !AllDigits(digits) then None
      else
        var v: int := if s[0] == '-' then -(DigitsValue(digits) as int) else DigitsValue(digits);
        if InInt64(v) then
          assert s == digits || s == [s[0]] + digits;
          Some(v)
        else None
  }

  function DigitChar(d: nat): char
    requires d < 10
  {
    ('0' as int + d) as char
  }

  /** Canonical decimal form of a natural number. */
  function NatToDigits(n: nat): (s: string)
    ensures |s| >= 1 && AllDigits(s)
  {
    if n < 10 then [DigitChar(n)]
    else NatToDigits(n / 10) + [DigitChar(n % 10)]
  }

  /** strconv.Itoa */
  function Itoa(n: int): string {
    if n < 0 then "-" + NatToDigits(-n) else NatToDigits(n)
  }

  lemma {:induction false} NatToDigitsValue(n: nat)
    ensures DigitsValue(NatToDigits(n)) == n
  {
    if n >= 10 {
      var d := NatToDigits(n / 10);
      var s := d + [DigitChar(n % 10)];
      assert s[..|s| - 1] == d;
      NatToDigitsValue(n / 10);
    }
  }

  /** Atoi reads back what Itoa writes, for every 64-bit integer. */
  lemma AtoiItoa(n: int)
    requires InInt64(n)
    ensures Atoi(Itoa(n)) == Some(n)
  {
    var d := NatToDigits(if n < 0 then -n else n);
    NatToDigitsValue(if n < 0 then -n else n);
    if n < 0 {
      assert Itoa(n)[1..] == d;
    } else {
      assert IsDigit(d[0]);
    }
  }
}
