/** The handful of Python string operations the scripts rely on, written out
    with Python's exact edge cases: str.split with a one-character separator,
    str.split() with no argument, "".join, str.zfill, clamped slicing, and
    decimal digit strings. */
module Text {

  datatype Option<T> = None | Some(value: T)

  // ---------------------------------------------------------------------------
  // Characters

  /** The characters Python's str.isspace accepts, which str.split() splits on. */
  predicate IsSpace(c: char) {
    c == ' ' || ('\t' <= c <= '\r') || ('\U{1c}' <= c <= '\U{1f}')
    || c == '\U{85}' || c == '\U{a0}' || c == '\U{1680}'
    || ('\U{2000}' <= c <= '\U{200a}') || c == '\U{2028}' || c == '\U{2029}'
    || c == '\U{202f}' || c == '\U{205f}' || c == '\U{3000}'
  }

  predicate NoSpace(s: string) {
    forall i :: 0 <= i < |s| ==> !IsSpace(s[i])
  }

  lemma NoSpaceConcat(a: string, b: string)
    requires NoSpace(a) && NoSpace(b)
    ensures NoSpace(a + b)
  {
    assert forall i :: 0 <= i < |a| ==> (a + b)[i] == a[i];
    assert forall i :: |a| <= i < |a + b| ==> (a + b)[i] == b[i - |a|];
  }

  predicate IsDigit(c: char) {
    '0' <= c <= '9'
  }

  predicate AllDigits(s: string) {
    forall i :: 0 <= i < |s| ==> IsDigit(s[i])
  }

  /** Python's `t in s` for strings: t occurs in s as a contiguous substring. */
  predicate Contains(s: string, t: string)
    decreases |s|
  {
    t <= s || (|s| > 0 && Contains(s[1..], t))
  }

  /** Python's clamped slice s[i:j] for non-negative bounds. */
  function Slice(s: string, i: nat, j: nat): string {
    var hi := if j <= |s| then j else |s|;
    var lo := if i <= hi then i else hi;
    s[lo..hi]
  }

  // ---------------------------------------------------------------------------
  // s.split(c) and c.join(parts)

  /** Python's s.split(c) for a one-character separator: the pieces between
      consecutive occurrences of c, including the empty ones. */
  function Split(s: string, c: char): (r: seq<string>)
    ensures |r| > 0
    ensures forall k :: 0 <= k < |r| ==> c !in r[k]
    decreases |s|
  {
    if |s| == 0 then [""]
    else
      var rest := Split(s[1..], c);
      if s[0] == c then [""] + rest
      else [[s[0]] + rest[0]] + rest[1..]
  }

  /** Python's c.join(parts) for a one-character separator. */
  function Join(parts: seq<string>, c: char): string
    requires |parts| > 0
  {
    if |parts| == 1 then parts[0] else parts[0] + [c] + Join(parts[1..], c)
  }

  /** Python's "".join(parts). */
  function Concat(parts: seq<string>): string {
    if |parts| == 0 then "" else parts[0] + Concat(parts[1..])
  }

  /** s with every occurrence of c deleted. */
  function RemoveAll(s: string, c: char): (r: string)
    ensures c !in r
    ensures |r| <= |s|
  {
    if |s| == 0 then ""
    else if s[0] == c then RemoveAll(s[1..], c)
    else [s[0]] + RemoveAll(s[1..], c)
  }

  /** The last piece of s.split(c), Python's s.split(c)[-1]. */
  function LastPiece(s: string, c: char): (r: string)
    ensures c !in r
    ensures |r| <= |s| && r == s[|s| - |r|..]
    ensures |r| == |s| || s[|s| - |r| - 1] == c
  {
    SplitLast(s, c);
    var p := Split(s, c);
    p[|p| - 1]
  }

  /** The first piece of s.split(c), Python's s.split(c)[0]. */
  function FirstPiece(s: string, c: char): (r: string)
    ensures c !in r
    ensures r <= s
    ensures |r| == |s| || s[|r|] == c
  {
    SplitFirst(s, c);
    Split(s, c)[0]
  }

  lemma {:induction false} SplitFirst(s: string, c: char)
    ensures Split(s, c)[0] <= s
    ensures |Split(s, c)[0]| == |s| || s[|Split(s, c)[0]|] == c
    decreases |s|
  {
    if |s| > 0 && s[0] != c {
      SplitFirst(s[1..], c);
    }
  }

  lemma {:induction false} SplitLast(s: string, c: char)
    ensures var p := Split(s, c); var r := p[|p| - 1];
      |r| <= |s| && r == s[|s| - |r|..] && (|r| == |s| || s[|s| - |r| - 1] == c)
      && (|p| > 1 ==> |r| < |s|)
    decreases |s|
  {
    if |s| > 0 {
      SplitLast(s[1..], c);
      var rest := Split(s[1..], c);
      var p := Split(s, c);
      var last := rest[|rest| - 1];
      if s[0] == c || |rest| > 1 {
        assert p[|p| - 1] == last;
        assert s[1..][|s| - 1 - |last|..] == s[|s| - |last|..];
      } else {
        JoinSplit(s[1..], c);
        assert p[|p| - 1] == [s[0]] + s[1..] == s;
      }
    }
  }

  /** Splitting distributes over an occurrence of the separator:
      (x + c + y).split(c) == x.split(c) + y.split(c). */
  lemma {:induction false} SplitAround(x: string, c: char, y: string)
    ensures Split(x + [c] + y, c) == Split(x, c) + Split(y, c)
    decreases |x|
  {
    if |x| == 0 {
      assert x + [c] + y == [c] + y;
      assert ([c] + y)[1..] == y;
    } else {
      assert (x + [c] + y)[1..] == x[1..] + [c] + y;
      assert (x + [c] + y)[0] == x[0];
      SplitAround(x[1..], c, y);
    }
  }

  /** A string without the separator splits into itself alone. */
  lemma {:induction false} SplitNone(x: string, c: char)
    requires c !in x
    ensures Split(x, c) == [x]
    decreases |x|
  {
    if |x| > 0 {
      assert c !in x[1..] by { assert forall i :: 0 <= i < |x| - 1 ==> x[1..][i] == x[i + 1]; }
      SplitNone(x[1..], c);
      assert [x[0]] + x[1..] == x;
    }
  }

  /** A string holding the separator splits into at least two pieces. */
  lemma SplitSome(x: string, c: char)
    requires c in x
    ensures |Split(x, c)| > 1
  {
    var i :| 0 <= i < |x| && x[i] == c;
    assert x == x[..i] + [c] + x[i + 1..];
    SplitAround(x[..i], c, x[i + 1..]);
  }

  /** s.split(c) has more than one piece exactly when c occurs in s. */
  lemma SplitMany(s: string, c: char)
    ensures |Split(s, c)| > 1 <==> c in s
  {
    if c in s {
      SplitSome(s, c);
    } else {
      SplitNone(s, c);
    }
  }

  /** Deleting c from a + c + b where a has no c. */
  lemma RemoveSeparated(a: string, c: char, b: string)
    requires c !in a
    ensures RemoveAll(a + [c] + b, c) == a + RemoveAll(b, c)
  {
    RemoveAppend(a + [c], b, c);
    RemoveAppend(a, [c], c);
    RemoveAbsent(a, c);
  }

  /** The piece after the last separator. */
  lemma LastPieceAfter(a: string, c: char, b: string)
    requires c !in b
    ensures LastPiece(a + [c] + b, c) == b
  {
    SplitAround(a, c, b);
    SplitNone(b, c);
  }

  /** The piece before the first separator, and the pieces after it. */
  lemma FirstPieceBefore(a: string, c: char, b: string)
    requires c !in a
    ensures Split(a + [c] + b, c) == [a] + Split(b, c)
    ensures FirstPiece(a + [c] + b, c) == a
  {
    SplitAround(a, c, b);
    SplitNone(a, c);
  }

  /** Joining the pieces of a split gives the string back. */
  lemma {:induction false} JoinSplit(s: string, c: char)
    ensures Join(Split(s, c), c) == s
    decreases |s|
  {
    if |s| > 0 {
      JoinSplit(s[1..], c);
      var rest := Split(s[1..], c);
      if s[0] == c {
        assert Split(s, c)[1..] == rest;
      } else {
        var p := Split(s, c);
        assert p[1..] == rest[1..];
        if |rest| == 1 {
          assert Join(p, c) == [s[0]] + rest[0];
        } else {
          assert Join(rest, c) == rest[0] + [c] + Join(rest[1..], c);
          assert Join(p, c) == [s[0]] + rest[0] + [c] + Join(rest[1..], c);
        }
        assert [s[0]] + s[1..] == s;
      }
    }
  }

  /** Splitting a join of separator-free pieces gives the pieces back. */
  lemma {:induction false} SplitJoin(parts: seq<string>, c: char)
    requires |parts| > 0
    requires forall k :: 0 <= k < |parts| ==> c !in parts[k]
    ensures Split(Join(parts, c), c) == parts
    decreases |parts|
  {
    SplitNone(parts[0], c);
    if |parts| > 1 {
      SplitJoin(parts[1..], c);
      SplitAround(parts[0], c, Join(parts[1..], c));
      assert [parts[0]] + parts[1..] == parts;
    }
  }

  /** "".join(s.split(c)) deletes every c from s. */
  lemma {:induction false} ConcatSplit(s: string, c: char)
    ensures Concat(Split(s, c)) == RemoveAll(s, c)
    decreases |s|
  {
    if |s| > 0 {
      ConcatSplit(s[1..], c);
      var rest := Split(s[1..], c);
      if s[0] == c {
        assert Concat([""] + rest) == Concat(rest);
      } else {
        assert [[s[0]] + rest[0]] + rest[1..] == [[s[0]] + rest[0]] + rest[1..];
        assert Concat(rest) == rest[0] + Concat(rest[1..]);
      }
    }
  }

  lemma {:induction false} RemoveAppend(a: string, b: string, c: char)
    ensures RemoveAll(a + b, c) == RemoveAll(a, c) + RemoveAll(b, c)
    decreases |a|
  {
    if |a| == 0 {
      assert a + b == b;
    } else {
      assert (a + b)[1..] == a[1..] + b;
      RemoveAppend(a[1..], b, c);
    }
  }

  lemma {:induction false} RemoveAbsent(a: string, c: char)
    requires c !in a
    ensures RemoveAll(a, c) == a
    decreases |a|
  {
    if |a| > 0 {
      assert c !in a[1..] by { assert forall i :: 0 <= i < |a| - 1 ==> a[1..][i] == a[i + 1]; }
      RemoveAbsent(a[1..], c);
      assert [a[0]] + a[1..] == a;
    }
  }

  // ---------------------------------------------------------------------------
  // s.split() with no argument

  /** Length of the maximal run of non-space characters at the start of s. */
  function WordLength(s: string): (n: nat)
    ensures n <= |s|
    ensures forall i :: 0 <= i < n ==> !IsSpace(s[i])
    ensures n == |s| || IsSpace(s[n])
  {
    if |s| == 0 || IsSpace(s[0]) then 0 else 1 + WordLength(s[1..])
  }

  /** Python's s.split() with no argument: the maximal runs of non-space
      characters, in order; leading, trailing and repeated whitespace produce
      no empty fields. */
  function Fields(s: string): (r: seq<string>)
    ensures forall k :: 0 <= k < |r| ==> |r[k]| > 0 && NoSpace(r[k])
    decreases |s|
  {
    if |s| == 0 then []
    else if IsSpace(s[0]) then Fields(s[1..])
    else
      var n := WordLength(s);
      [s[..n]] + Fields(s[n..])
  }

  /** A word followed by the end or by whitespace is the first field. */
  lemma FieldsOfWord(a: string, b: string)
    requires |a| > 0 && NoSpace(a)
    requires |b| == 0 || IsSpace(b[0])
    ensures Fields(a + b) == [a] + Fields(b)
  {
    var s := a + b;
    var n := WordLength(s);
    assert n == |a| by {
      assert forall i :: 0 <= i < |a| ==> s[i] == a[i];
      assert |b| > 0 ==> s[|a|] == b[0];
    }
    assert s[..n] == a;
    assert s[n..] == b;
  }

  /** Leading whitespace does not change the fields. */
  lemma FieldsOfSpace(c: char, b: string)
    requires IsSpace(c)
    ensures Fields([c] + b) == Fields(b)
  {
    assert ([c] + b)[1..] == b;
  }

  // ---------------------------------------------------------------------------
  // str.zfill

  function Zeros(n: nat): (r: string)
    ensures |r| == n
    ensures forall i :: 0 <= i < n ==> r[i] == '0'
  {
    if n == 0 then "" else "0" + Zeros(n - 1)
  }

  /** Python's s.zfill(width): pads with '0' on the left up to width, after a
      leading sign if there is one, and never truncates. */
  function ZFill(s: string, width: nat): (r: string)
    ensures |r| == if |s| >= width then |s| else width
    ensures |s| >= width ==> r == s
    ensures |s| < width && (|s| == 0 || (s[0] != '+' && s[0] != '-')) ==> r == Zeros(width - |s|) + s
    ensures |s| < width && |s| > 0 && (s[0] == '+' || s[0] == '-') ==>
      r == [s[0]] + Zeros(width - |s|) + s[1..]
  {
    if |s| >= width then s
    else if |s| > 0 && (s[0] == '+' || s[0] == '-') then [s[0]] + Zeros(width - |s|) + s[1..]
    else Zeros(width - |s|) + s
  }

  // ---------------------------------------------------------------------------
  // Decimal digit strings

  function DigitValue(c: char): nat
    requires IsDigit(c)
  {
    (c as int - '0' as int) as nat
  }

  function Pow10(n: nat): (r: nat)
    ensures r >= 1
  {
    if n == 0 then 1 else 10 * Pow10(n - 1)
  }

  /** The number a string of ASCII digits denotes (leading zeros allowed). */
  function DigitsValue(s: string): nat
    requires AllDigits(s)
  {
    if |s| == 0 then 0 else DigitValue(s[0]) * Pow10(|s| - 1) + DigitsValue(s[1..])
  }

  /** Leading zeros do not change the value. */
  lemma {:induction false} ValueOfZeros(n: nat, s: string)
    requires AllDigits(s)
    ensures AllDigits(Zeros(n) + s)
    ensures DigitsValue(Zeros(n) + s) == DigitsValue(s)
    decreases n
  {
    if n > 0 {
      ValueOfZeros(n - 1, s);
      assert (Zeros(n) + s)[1..] == Zeros(n - 1) + s;
      assert (Zeros(n) + s)[0] == '0';
      assert DigitsValue(Zeros(n) + s) == DigitValue('0') * Pow10(n + |s| - 1) + DigitsValue(Zeros(n - 1) + s);
    } else {
      assert Zeros(n) + s == s;
    }
  }

  /** Zero padding keeps a digit string's digits and its value. */
  lemma ZFillDigits(s: string, w: nat)
    requires AllDigits(s)
    ensures AllDigits(ZFill(s, w)) && DigitsValue(ZFill(s, w)) == DigitsValue(s)
  {
    if |s| < w {
      ValueOfZeros(w - |s|, s);
    }
  }

  lemma {:induction false} ValueAppend(s: string, c: char)
    requires AllDigits(s) && IsDigit(c)
    ensures AllDigits(s + [c])
    ensures DigitsValue(s + [c]) == 10 * DigitsValue(s) + DigitValue(c)
    decreases |s|
  {
    if |s| > 0 {
      assert (s + [c])[1..] == s[1..] + [c];
      ValueAppend(s[1..], c);
      var d, p := DigitValue(s[0]), Pow10(|s| - 1);
      assert DigitsValue(s + [c]) == d * Pow10(|s|) + DigitsValue(s[1..] + [c]);
      assert DigitsValue(s) == d * p + DigitsValue(s[1..]);
      assert d * Pow10(|s|) == 10 * (d * p) by {
        assert Pow10(|s|) == 10 * p;
        MulTen(d, p);
      }
    }
  }

  lemma MulTen(a: int, b: int)
    ensures a * (10 * b) == 10 * (a * b)
  {
  }

  function DigitChar(d: nat): (c: char)
    requires d < 10
    ensures IsDigit(c) && DigitValue(c) == d
  {
    ('0' as int + d) as char
  }

  /** Python's str(n) for a natural number: decimal, no leading zeros. */
  function NatToString(n: nat): (s: string)
    ensures |s| > 0 && AllDigits(s)
    ensures DigitsValue(s) == n
    ensures n > 0 ==> s[0] != '0'
  {
    if n < 10 then [DigitChar(n)]
    else
      var p := NatToString(n / 10);
      ValueAppend(p, DigitChar(n % 10));
      p + [DigitChar(n % 10)]
  }

  /** Python's str(i) (and "%s" % i) for an integer. */
  function IntToString(i: int): (s: string)
    ensures |s| > 0
    ensures '\n' !in s && '/' !in s
  {
    if i < 0 then "-" + NatToString(-i) else NatToString(i)
  }
}
