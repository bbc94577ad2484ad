/** Text primitives the dashboard relies on: ASCII lower-casing (`toLowerCase`),
    substring search (`includes`), `Array.prototype.join` on one separator
    character, the decimal rendering of integers, and the one-decimal rendering
    of `toFixed(1)` on an exact rational. `Split` is the reader's side of
    `Join`: it cuts a text at every separator, as a naive CSV reader does. */
module Strings {

  /// Lower-casing

  predicate IsUpper(c: char) {
    'A' <= c <= 'Z'
  }

  /** An upper-case ASCII letter becomes its lower-case letter, 32 code
      points higher; every other character is left alone. */
  function LowerChar(c: char): (r: char)
    ensures !IsUpper(r)
    ensures IsUpper(c) ==> r as int == c as int + 32 && 'a' <= r <= 'z'
    ensures !IsUpper(c) ==> r == c
  {
    if IsUpper(c) then (c as int - 'A' as int + 'a' as int) as char else c
  }

  /** c and d are the same character, or the same ASCII letter in the two cases. */
  predicate SameIgnoringCase(c: char, d: char) {
    c == d || (IsUpper(c) && d as int == c as int + 32) || (IsUpper(d) && c as int == d as int + 32)
  }

  /** Two characters lower-case alike exactly when they differ at most in case. */
  lemma LowerCharIgnoresCase(c: char, d: char)
    ensures LowerChar(c) == LowerChar(d) <==> SameIgnoringCase(c, d)
  {
  }

  /** ASCII `toLowerCase`: every upper-case letter is replaced, position by
      position, so the result holds no upper-case letter and a text without one
      comes back unchanged. */
  function Lower(s: string): (r: string)
    ensures |r| == |s|
    ensures forall i :: 0 <= i < |r| ==> !IsUpper(r[i])
    ensures (forall i :: 0 <= i < |s| ==> !IsUpper(s[i])) ==> r == s
  {
    seq(|s|, i requires 0 <= i < |s| => LowerChar(s[i]))
  }

  lemma LowerIdempotent(s: string)
    ensures Lower(Lower(s)) == Lower(s)
  {
  }

  /** s and t are the same text up to the case of ASCII letters. */
  predicate SameTextIgnoringCase(s: string, t: string) {
    |s| == |t| && forall i :: 0 <= i < |s| ==> SameIgnoringCase(s[i], t[i])
  }

  /** Two texts lower-case alike exactly when they match letter by letter,
      ignoring ASCII case. */
  lemma LowerIgnoresCase(s: string, t: string)
    ensures Lower(s) == Lower(t) <==> SameTextIgnoringCase(s, t)
  {
    if Lower(s) == Lower(t) {
      forall i | 0 <= i < |s| ensures SameIgnoringCase(s[i], t[i]) {
        assert Lower(s)[i] == Lower(t)[i];
        LowerCharIgnoresCase(s[i], t[i]);
      }
    }
    if SameTextIgnoringCase(s, t) {
      forall i | 0 <= i < |s| ensures Lower(s)[i] == Lower(t)[i] {
        LowerCharIgnoresCase(s[i], t[i]);
      }
    }
  }

  /// Substring search

  /** The needle occupies positions i .. i + |needle| of hay. */
  predicate OccursAt(hay: string, needle: string, i: int) {
    0 <= i && i + |needle| <= |hay| && hay[i..i + |needle|] == needle
  }

  /** `hay.includes(needle)`: the needle occurs at some position of hay. A
      found needle is no longer than hay, and a prefix of hay is always found. */
  predicate Contains(hay: string, needle: string)
    ensures Contains(hay, needle) ==> |needle| <= |hay|
    ensures needle <= hay ==> Contains(hay, needle)
  {
    assert needle <= hay ==> OccursAt(hay, needle, 0);
    exists i :: 0 <= i <= |hay| && OccursAt(hay, needle, i)
  }

  /** A text that includes the needle holds every character of the needle. */
  lemma ContainsChars(hay: string, needle: string, j: int)
    requires Contains(hay, needle) && 0 <= j < |needle|
    ensures needle[j] in hay
  {
    var i :| 0 <= i <= |hay| && OccursAt(hay, needle, i);
    assert hay[i..i + |needle|][j] == hay[i + j];
  }

  /** Every text includes the empty text. */
  lemma ContainsEmpty(hay: string)
    ensures Contains(hay, "")
  {
    assert OccursAt(hay, "", 0);
  }

  /// Counting one character

  function CountChar(s: string, c: char): (n: nat)
    ensures n <= |s|
    ensures n == 0 <==> c !in s
  {
    if |s| == 0 then 0 else (if s[0] == c then 1 else 0) + CountChar(s[1..], c)
  }

  lemma {:induction false} CountCharAppend(a: string, b: string, c: char)
    ensures CountChar(a + b, c) == CountChar(a, c) + CountChar(b, c)
    decreases |a|
  {
    if |a| == 0 {
      assert a + b == b;
    } else {
      assert (a + b)[1..] == a[1..] + b;
      CountCharAppend(a[1..], b, c);
    }
  }

  /// Join and split on one separator

  /** `parts.join(sep)`: the parts in order, one separator between neighbours,
      none at either end. The text begins with the first part and ends with the
      last one; an empty list joins to "". */
  function Join(sep: char, parts: seq<string>): (r: string)
    ensures |parts| == 0 ==> r == ""
    ensures |parts| > 0 ==> parts[0] <= r
    ensures |parts| > 0 ==> EndsWith(r, parts[|parts| - 1])
    decreases |parts|
  {
    if |parts| == 0 then ""
    else if |parts| == 1 then parts[0]
    else
      var rest := Join(sep, parts[1..]);
      var last := parts[|parts| - 1];
      assert last == parts[1..][|parts[1..]| - 1];
      var r := parts[0] + [sep] + rest;
      assert r[|r| - |last|..] == rest[|rest| - |last|..];
      r
  }

  /** s ends with the text t. */
  predicate EndsWith(s: string, t: string) {
    |t| <= |s| && s[|s| - |t|..] == t
  }

  /** Joining one more part appends a separator and that part. */
  lemma {:induction false} JoinSnoc(sep: char, parts: seq<string>, last: string)
    requires |parts| > 0
    ensures Join(sep, parts + [last]) == Join(sep, parts) + [sep] + last
    decreases |parts|
  {
    if |parts| == 1 {
      assert (parts + [last])[1..] == [last];
    } else {
      assert (parts + [last])[1..] == parts[1..] + [last];
      JoinSnoc(sep, parts[1..], last);
    }
  }

  /** The separators in a joined text are the |parts| - 1 inserted ones and
      those the parts already held. */
  lemma {:induction false} CountCharJoin(sep: char, parts: seq<string>)
    requires |parts| > 0
    ensures CountChar(Join(sep, parts), sep) == |parts| - 1 + CountCharAll(parts, sep)
    decreases |parts|
  {
    if |parts| > 1 {
      CountCharAppend(parts[0] + [sep], Join(sep, parts[1..]), sep);
      CountCharAppend(parts[0], [sep], sep);
      CountCharJoin(sep, parts[1..]);
    }
  }

  /** Total number of occurrences of c over all parts. */
  function CountCharAll(parts: seq<string>, c: char): (n: nat)
    ensures n == 0 <==> forall k :: 0 <= k < |parts| ==> c !in parts[k]
    decreases |parts|
  {
    if |parts| == 0 then 0 else CountChar(parts[0], c) + CountCharAll(parts[1..], c)
  }

  /** Occurrences of a character other than the separator come from the parts alone. */
  lemma {:induction false} CountCharJoinOther(sep: char, c: char, parts: seq<string>)
    requires c != sep
    ensures CountChar(Join(sep, parts), c) == CountCharAll(parts, c)
    decreases |parts|
  {
    if |parts| > 1 {
      CountCharAppend(parts[0] + [sep], Join(sep, parts[1..]), c);
      CountCharAppend(parts[0], [sep], c);
      CountCharJoinOther(sep, c, parts[1..]);
    }
  }

  lemma {:induction false} CountCharAllAppend(a: seq<string>, b: seq<string>, c: char)
    ensures CountCharAll(a + b, c) == CountCharAll(a, c) + CountCharAll(b, c)
    decreases |a|
  {
    if |a| == 0 {
      assert a + b == b;
    } else {
      assert (a + b)[1..] == a[1..] + b;
      CountCharAllAppend(a[1..], b, c);
    }
  }

  /** Cut s at every occurrence of sep; the pieces do not contain sep. */
  function Split(s: string, sep: char): (r: seq<string>)
    ensures |r| > 0
    ensures forall k :: 0 <= k < |r| ==> sep !in r[k]
    decreases |s|
  {
    if |s| == 0 then [""]
    else if s[0] == sep then [""] + Split(s[1..], sep)
    else
      var rest := Split(s[1..], sep);
      [[s[0]] + rest[0]] + rest[1..]
  }

  /** A reader that cuts at sep finds one field more than there are separators. */
  lemma {:induction false} SplitLength(s: string, sep: char)
    ensures |Split(s, sep)| == CountChar(s, sep) + 1
    decreases |s|
  {
    if |s| > 0 {
      SplitLength(s[1..], sep);
    }
  }

  lemma {:induction false} SplitFree(p: string, sep: char)
    requires sep !in p
    ensures Split(p, sep) == [p]
    decreases |p|
  {
    if |p| > 0 {
      SplitFree(p[1..], sep);
      assert [p[0]] + p[1..] == p;
    }
  }

  lemma {:induction false} SplitCons(p: string, sep: char, rest: string)
    requires sep !in p
    ensures Split(p + [sep] + rest, sep) == [p] + Split(rest, sep)
    decreases |p|
  {
    var s := p + [sep] + rest;
    if |p| == 0 {
      assert s[1..] == rest;
    } else {
      assert s[1..] == p[1..] + [sep] + rest;
      SplitCons(p[1..], sep, rest);
      assert [p[0]] + p[1..] == p;
    }
  }

  /** Round trip: splitting a join gives the parts back, provided no part
      contains the separator. */
  lemma {:induction false} SplitJoin(sep: char, parts: seq<string>)
    requires |parts| > 0
    requires forall k :: 0 <= k < |parts| ==> sep !in parts[k]
    ensures Split(Join(sep, parts), sep) == parts
    decreases |parts|
  {
    if |parts| == 1 {
      SplitFree(parts[0], sep);
    } else {
      var tail := parts[1..];
      var rest := Join(sep, tail);
      assert Join(sep, parts) == parts[0] + [sep] + rest;
      SplitCons(parts[0], sep, rest);
      assert forall k :: 0 <= k < |tail| ==> tail[k] == parts[k + 1];
      SplitJoin(sep, tail);
      assert [parts[0]] + tail == parts;
    }
  }

  /// Decimal rendering of integers

  predicate IsDigit(c: char) {
    '0' <= c <= '9'
  }

  function DigitChar(d: int): (c: char)
    requires 0 <= d < 10
    ensures IsDigit(c)
  {
    ('0' as int + d) as char
  }

  function DigitValue(c: char): int {
    c as int - '0' as int
  }

  /** `String(n)` for a non-negative integer: its decimal digits, no leading zero. */
  function NatToString(n: nat): (r: string)
    ensures |r| > 0
    ensures forall k :: 0 <= k < |r| ==> IsDigit(r[k])
    ensures |r| > 1 ==> r[0] != '0'
    decreases n
  {
    if n < 10 then [DigitChar(n)] else NatToString(n / 10) + [DigitChar(n % 10)]
  }

  /** `String(i)` for an integer: a minus sign before the digits of a negative
      one, at least one digit, and no leading zero. */
  function IntToString(i: int): (r: string)
    ensures |r| > 0
    ensures r[0] == '-' <==> i < 0
    ensures r[0] == '-' || IsDigit(r[0])
    ensures forall k :: 0 < k < |r| ==> IsDigit(r[k])
    ensures var d := if i < 0 then 1 else 0; |r| > d && (|r| > d + 1 ==> r[d] != '0')
  {
    if i < 0 then "-" + NatToString(-i) else NatToString(i)
  }

  /** The value of a string of decimal digits. */
  function ParseNat(s: string): int
    decreases |s|
  {
    if |s| == 0 then 0 else ParseNat(s[..|s| - 1]) * 10 + DigitValue(s[|s| - 1])
  }

  /** The value of an optionally '-'-signed string of decimal digits. */
  function ParseInt(s: string): int {
    if |s| > 0 && s[0] == '-' then -ParseNat(s[1..]) else ParseNat(s)
  }

  lemma {:induction false} ParseNatToString(n: nat)
    ensures ParseNat(NatToString(n)) == n
    decreases n
  {
    if n >= 10 {
      var s := NatToString(n / 10) + [DigitChar(n % 10)];
      assert s[..|s| - 1] == NatToString(n / 10);
      ParseNatToString(n / 10);
    }
  }

  /** Round trip: the decimal text of an integer reads back as that integer. */
  lemma ParseIntToString(i: int)
    ensures ParseInt(IntToString(i)) == i
  {
    if i < 0 {
      assert ("-" + NatToString(-i))[1..] == NatToString(-i);
      ParseNatToString(-i);
    } else {
      ParseNatToString(i);
    }
  }

  /// One-decimal rendering (`toFixed(1)`)

  /** The integer nearest to 10 * num / den, halves rounded up. */
  function RoundTenths(num: nat, den: nat): (n: nat)
    requires den > 0
  {
    (20 * num + den) / (2 * den)
  }

  /** RoundTenths(num, den) is within half a tenth of num / den: in integers,
      n - 1/2 <= 10 * num / den < n + 1/2. */
  lemma RoundTenthsNearest(num: nat, den: nat)
    requires den > 0
    ensures 2 * den * RoundTenths(num, den) <= 20 * num + den < 2 * den * (RoundTenths(num, den) + 1)
  {
    var a, b := 20 * num + den, 2 * den;
    var q, m := a / b, a % b;
    assert a == b * q + m && 0 <= m < b;
  }

  /** A value of at most w rounds to at most w: 10 * w tenths. */
  lemma RoundTenthsAtMost(num: nat, den: nat, w: nat)
    requires den > 0 && num <= w * den
    ensures RoundTenths(num, den) <= 10 * w
  {
    RoundTenthsNearest(num, den);
    var t := RoundTenths(num, den);
    assert 2 * den * t <= 20 * (w * den) + den;
    assert den * (2 * t) < den * (20 * w + 2);
  }

  /** a / b <= c / d on reals when a * d <= c * b and both denominators are positive. */
  lemma FractionLe(a: int, b: int, c: int, d: int)
    requires b > 0 && d > 0 && a * d <= c * b
    ensures a as real / b as real <= c as real / d as real
  {
    var x, y := a as real / b as real, c as real / d as real;
    var bd := b as real * d as real;
    assert x * b as real == a as real && y * d as real == c as real;
    assert (a * d) as real == x * bd && (c * b) as real == y * bd;
    assert (x - y) * bd <= 0.0;
  }

  /** a / b < c / d on reals when a * d < c * b and both denominators are positive. */
  lemma FractionLt(a: int, b: int, c: int, d: int)
    requires b > 0 && d > 0 && a * d < c * b
    ensures a as real / b as real < c as real / d as real
  {
    var x, y := a as real / b as real, c as real / d as real;
    var bd := b as real * d as real;
    assert x * b as real == a as real && y * d as real == c as real;
    assert (a * d) as real == x * bd && (c * b) as real == y * bd;
    assert (x - y) * bd < 0.0;
  }

  /** x lies within half a tenth of t tenths (ties rounded up). */
  predicate NearTenths(t: int, x: real) {
    t as real / 10.0 - 0.05 <= x < t as real / 10.0 + 0.05
  }

  /** The integer bracket 2 * den * t <= 20 * num + den < 2 * den * (t + 1)
      read as reals: num / den is within 0.05 of t / 10. */
  lemma TenthsNearReal(num: nat, den: nat, t: nat)
    requires den > 0
    requires 2 * den * t <= 20 * num + den < 2 * den * (t + 1)
    ensures NearTenths(t, num as real / den as real)
  {
    assert (2 * t - 1) * den <= num * 20;
    assert num * 20 < (2 * t + 1) * den;
    FractionLe(2 * t - 1, 20, num, den);
    FractionLt(num, den, 2 * t + 1, 20);
  }

  /** `(num / den).toFixed(1)` on the exact rational num / den: the sign of a
      negative value, the magnitude rounded to tenths (halves away from zero),
      then the integer part, a point and one digit. */
  function Fixed1(num: int, den: int): (r: string)
    requires den > 0
    ensures |r| >= 3 && r[|r| - 2] == '.' && IsDigit(r[|r| - 1])
    ensures forall k :: 0 <= k < |r| ==> IsDigit(r[k]) || r[k] == '-' || r[k] == '.'
    ensures r[0] == '-' <==> num < 0
    ensures var d := if num < 0 then 1 else 0;
            |r| >= d + 3 && (forall k :: d <= k < |r| - 2 ==> IsDigit(r[k]))
            && (|r| - 2 - d > 1 ==> r[d] != '0')
  {
    var n := RoundTenths(if num < 0 then -num else num, den);
    (if num < 0 then "-" else "") + NatToString(n / 10) + "." + [DigitChar(n % 10)]
  }

  /** Reads a one-decimal text "[-]digits.d" back as a whole number of tenths. */
  function ParseTenths(s: string): int {
    if |s| < 3 then 0
    else
      var start := if s[0] == '-' then 1 else 0;
      var magnitude := ParseNat(s[start..|s| - 2]) * 10 + DigitValue(s[|s| - 1]);
      if s[0] == '-' then -magnitude else magnitude
  }

  /** Round trip: the one-decimal text reads back as the signed, rounded
      number of tenths it was printed from. */
  lemma Fixed1ReadsBack(num: int, den: int)
    requires den > 0
    ensures ParseTenths(Fixed1(num, den)) ==
            if num < 0 then -(RoundTenths(-num, den) as int) else RoundTenths(num, den) as int
  {
    var n := RoundTenths(if num < 0 then -num else num, den);
    var sign := if num < 0 then "-" else "";
    var digits := NatToString(n / 10);
    var s := sign + digits + "." + [DigitChar(n % 10)];
    assert s == Fixed1(num, den);
    assert s[|s| - 1] == DigitChar(n % 10);
    assert s[0] == '-' <==> num < 0;
    assert s[|sign|..|s| - 2] == digits;
    ParseNatToString(n / 10);
  }
}
