/**
 * The JavaScript string built-ins the puzzle code relies on, restricted to
 * the way it uses them: `String.prototype.trim`, `split` with a non-empty
 * string separator, `split('')`, `Array.prototype.join`, and `Number` on
 * decimal integer text. Strings are sequences of characters.
 */
module Strings {

  /** The ECMAScript WhiteSpace and LineTerminator code points: what `trim` removes. */
  predicate IsWhitespace(c: char) {
    || c == '\t' || c == '\U{B}' || c == '\U{C}' || c == ' ' || c == '\U{A0}' || c == '\U{FEFF}'
    || c == '\U{1680}' || ('\U{2000}' <= c <= '\U{200A}') || c == '\U{202F}' || c == '\U{205F}'
    || c == '\U{3000}'
    || c == '\n' || c == '\r' || c == '\U{2028}' || c == '\U{2029}'
  }

  predicate AllWhitespace(s: string) {
    forall i :: 0 <= i < |s| ==> IsWhitespace(s[i])
  }

  /** Neither end of `s` is whitespace (vacuously true of the empty string). */
  predicate Unpadded(s: string) {
    s == [] || (!IsWhitespace(s[0]) && !IsWhitespace(s[|s| - 1]))
  }

  function TrimStart(s: string): (r: string)
    ensures |r| <= |s| && r == s[|s| - |r|..]
    ensures AllWhitespace(s[..|s| - |r|])
    ensures r == [] || !IsWhitespace(r[0])
  {
    if s == [] || !IsWhitespace(s[0]) then s else TrimStart(s[1..])
  }

  function TrimEnd(s: string): (r: string)
    ensures |r| <= |s| && r == s[..|r|]
    ensures AllWhitespace(s[|r|..])
    ensures r == [] || !IsWhitespace(r[|r| - 1])
  {
    if s == [] || !IsWhitespace(s[|s| - 1]) then s else TrimEnd(s[..|s| - 1])
  }

  /**
   * `s.trim()`: the result is a slice of `s`, everything cut off on either
   * side is whitespace, and neither end of the result is whitespace.
   */
  function Trim(s: string): (r: string)
    ensures Unpadded(r)
    ensures exists i :: TrimmedAt(s, r, i)
    decreases |s|
  {
    if s == [] then
      assert TrimmedAt(s, [], 0);
      []
    else if IsWhitespace(s[0]) then
      TrimmedFront(s, s[1..], Trim(s[1..]));
      Trim(s[1..])
    else if IsWhitespace(s[|s| - 1]) then
      TrimmedBack(s, s[..|s| - 1], Trim(s[..|s| - 1]));
      Trim(s[..|s| - 1])
    else
      assert TrimmedAt(s, s, 0);
      s
  }

  /** Whitespace in front of a trimmed slice can be cut off as well. */
  lemma TrimmedFront(s: string, t: string, r: string)
    requires s != [] && IsWhitespace(s[0]) && t == s[1..]
    requires exists i :: TrimmedAt(t, r, i)
    ensures exists i :: TrimmedAt(s, r, i)
  {
    var i :| TrimmedAt(t, r, i);
    assert s[..i + 1] == [s[0]] + s[1..][..i];
    assert s[i + 1..i + 1 + |r|] == s[1..][i..i + |r|];
    assert s[i + 1 + |r|..] == s[1..][i + |r|..];
    assert TrimmedAt(s, r, i + 1);
  }

  /** Whitespace behind a trimmed slice can be cut off as well. */
  lemma TrimmedBack(s: string, t: string, r: string)
    requires s != [] && IsWhitespace(s[|s| - 1]) && t == s[..|s| - 1]
    requires exists i :: TrimmedAt(t, r, i)
    ensures exists i :: TrimmedAt(s, r, i)
  {
    var i :| TrimmedAt(t, r, i);
    assert s[..i] == t[..i];
    assert s[i..i + |r|] == t[i..i + |r|];
    assert s[i + |r|..] == t[i + |r|..] + [s[|s| - 1]];
    assert TrimmedAt(s, r, i);
  }

  /** `r` sits in `s` at offset `i` with only whitespace around it. */
  ghost predicate TrimmedAt(s: string, r: string, i: int) {
    0 <= i && i + |r| <= |s| && s[i..i + |r|] == r && AllWhitespace(s[..i]) && AllWhitespace(s[i + |r|..])
  }

  /** Trimming leaves an unpadded string alone, so it is idempotent. */
  lemma TrimUnpadded(s: string)
    requires Unpadded(s)
    ensures Trim(s) == s
  {
  }

  lemma TrimIdempotent(s: string)
    ensures Trim(Trim(s)) == Trim(s)
  {
    TrimUnpadded(Trim(s));
  }

  /** Trimming gives the empty string exactly when the input is all whitespace. */
  lemma {:induction false} TrimEmpty(s: string)
    ensures Trim(s) == [] <==> AllWhitespace(s)
  {
    var i :| TrimmedAt(s, Trim(s), i);
    TrimmedEmpty(s, Trim(s), i);
  }

  lemma TrimmedEmpty(s: string, r: string, i: int)
    requires TrimmedAt(s, r, i) && Unpadded(r)
    ensures r == [] <==> AllWhitespace(s)
  {
    if r == [] {
      assert s == s[..i] + s[i..];
    } else {
      assert s[i] == r[0];
    }
  }

  /** `s` holds `sep` at position `i`. */
  ghost predicate OccursAt(s: string, sep: string, i: int) {
    0 <= i && i + |sep| <= |s| && s[i..i + |sep|] == sep
  }

  ghost predicate Contains(s: string, sep: string) {
    exists i :: OccursAt(s, sep, i)
  }

  /**
   * `s.split(sep)` for a non-empty separator: `s` is cut at every leftmost,
   * non-overlapping occurrence of `sep`; there is always at least one piece.
   */
  function Split(s: string, sep: string): (r: seq<string>)
    requires |sep| > 0
    ensures |r| >= 1
    decreases |s|
  {
    if |s| < |sep| then [s]
    else if s[..|sep|] == sep then [""] + Split(s[|sep|..], sep)
    else
      PrependFirst(s[0], Split(s[1..], sep))
  }

  /** `pieces` with `x` put in front of the first piece. */
  function PrependFirst(x: char, pieces: seq<string>): (r: seq<string>)
    requires |pieces| >= 1
    ensures |r| == |pieces| && r[0] == [x] + pieces[0] && r[1..] == pieces[1..]
  {
    [[x] + pieces[0]] + pieces[1..]
  }

  /** Putting a character in front of the first piece does not reach the later pieces. */
  lemma PrependFirstConcat(x: char, p: seq<string>, q: seq<string>)
    requires |p| >= 1
    ensures PrependFirst(x, p + q) == PrependFirst(x, p) + q
  {
    assert (p + q)[1..] == p[1..] + q;
  }

  /** `parts.join(sep)`. */
  function Join(parts: seq<string>, sep: string): string
  {
    if |parts| == 0 then ""
    else if |parts| == 1 then parts[0]
    else parts[0] + sep + Join(parts[1..], sep)
  }

  /** Joining the pieces of a split with the same separator gives back the string. */
  lemma {:induction false} JoinSplit(s: string, sep: string)
    requires |sep| > 0
    ensures Join(Split(s, sep), sep) == s
    decreases |s|
  {
    if |s| < |sep| {
    } else if s[..|sep|] == sep {
      var rest := Split(s[|sep|..], sep);
      assert Split(s, sep) == [""] + rest;
      JoinSplit(s[|sep|..], sep);
      JoinEmptyHead(rest, sep);
      assert s == sep + s[|sep|..];
    } else {
      var rest := Split(s[1..], sep);
      assert Split(s, sep) == PrependFirst(s[0], rest);
      JoinSplit(s[1..], sep);
      JoinCharHead(s[0], rest, sep);
      assert s == [s[0]] + s[1..];
    }
  }

  /** An empty first piece contributes only the separator after it. */
  lemma JoinEmptyHead(rest: seq<string>, sep: string)
    requires |rest| >= 1
    ensures Join([""] + rest, sep) == sep + Join(rest, sep)
  {
    assert ([""] + rest)[1..] == rest;
  }

  /** A character put in front of the first piece comes first in the join. */
  lemma JoinCharHead(c: char, rest: seq<string>, sep: string)
    requires |rest| >= 1
    ensures Join(PrependFirst(c, rest), sep) == [c] + Join(rest, sep)
  {
    var parts := PrependFirst(c, rest);
    if |rest| > 1 {
      assert parts[1..] == rest[1..];
    }
  }

  /** The first piece of a split is a prefix of the string. */
  lemma {:induction false} SplitFirstIsPrefix(s: string, sep: string)
    requires |sep| > 0
    ensures |Split(s, sep)[0]| <= |s| && Split(s, sep)[0] == s[..|Split(s, sep)[0]|]
    decreases |s|
  {
    if |s| < |sep| {
      assert Split(s, sep) == [s];
    } else if s[..|sep|] == sep {
      assert Split(s, sep)[0] == "";
    } else {
      var rest := Split(s[1..], sep);
      assert Split(s, sep)[0] == [s[0]] + rest[0];
      SplitFirstIsPrefix(s[1..], sep);
      ConsPrefix(s, |rest[0]|);
    }
  }

  lemma ConsPrefix<T>(s: seq<T>, k: int)
    requires 0 <= k < |s|
    ensures [s[0]] + s[1..][..k] == s[..k + 1]
  {
  }

  /** No piece of a split contains the separator. */
  lemma {:induction false} SplitPiecesFree(s: string, sep: string, k: int)
    requires |sep| > 0 && 0 <= k < |Split(s, sep)|
    ensures !Contains(Split(s, sep)[k], sep)
    decreases |s|
  {
    var r := Split(s, sep);
    if |s| < |sep| {
      if OccursAt(s, sep, 0) {
      }
      forall i | OccursAt(s, sep, i) ensures false {
      }
    } else if s[..|sep|] == sep {
      if k > 0 {
        SplitPiecesFree(s[|sep|..], sep, k - 1);
      } else {
        forall i | OccursAt(r[0], sep, i) ensures false {
        }
      }
    } else {
      var rest := Split(s[1..], sep);
      if k > 0 {
        SplitPiecesFree(s[1..], sep, k);
        assert r[k] == rest[k];
      } else {
        SplitPiecesFree(s[1..], sep, 0);
        SplitFirstIsPrefix(s[1..], sep);
        var p := r[0];
        forall i | OccursAt(p, sep, i) ensures false {
          OccursInPrefix(p, s, sep);
          OccursAfterHead(s[0], rest[0], sep, i);
        }
      }
    }
  }

  lemma OccursInPrefix(p: string, s: string, sep: string)
    ensures OccursAt(p, sep, 0) && |p| <= |s| && p == s[..|p|] ==> s[..|sep|] == sep
  {
    if OccursAt(p, sep, 0) && |p| <= |s| && p == s[..|p|] {
      assert s[..|sep|] == p[..|sep|];
    }
  }

  lemma OccursAfterHead(x: char, a: string, sep: string, i: int)
    ensures OccursAt([x] + a, sep, i) && i > 0 ==> OccursAt(a, sep, i - 1)
  {
    if OccursAt([x] + a, sep, i) && i > 0 {
      assert ([x] + a)[i..i + |sep|] == a[i - 1..i - 1 + |sep|];
    }
  }

  /** A string without the one-character separator splits into itself. */
  lemma {:induction false} SplitWithout(s: string, c: char)
    requires c !in s
    ensures Split(s, [c]) == [s]
    decreases |s|
  {
    if s != [] {
      assert s[..1] == [s[0]];
      SplitWithout(s[1..], c);
      assert s == [s[0]] + s[1..];
    }
  }

  /**
   * Splitting on one character distributes over a concatenation glued by
   * that character: the split of `a + [c] + b` is the split of `a`
   * followed by the split of `b`.
   */
  lemma {:induction false} SplitConcat(a: string, c: char, b: string)
    ensures Split(a + [c] + b, [c]) == Split(a, [c]) + Split(b, [c])
    decreases |a|
  {
    var s := a + [c] + b;
    if a == [] {
      assert s[..1] == [c] && s[1..] == b;
    } else if a[0] == c {
      assert s[..1] == [c];
      assert s[1..] == a[1..] + [c] + b;
      assert a[..1] == [c];
      SplitConcat(a[1..], c, b);
    } else {
      assert s[..1] == [a[0]] && a[..1] == [a[0]];
      assert s[1..] == a[1..] + [c] + b;
      assert Split(s, [c]) == PrependFirst(a[0], Split(s[1..], [c]));
      assert Split(a, [c]) == PrependFirst(a[0], Split(a[1..], [c]));
      SplitConcat(a[1..], c, b);
      PrependFirstConcat(a[0], Split(a[1..], [c]), Split(b, [c]));
    }
  }

  /**
   * Splitting a join on a one-character separator that no part contains
   * gives back the parts.
   */
  lemma {:induction false} SplitJoin(parts: seq<string>, c: char)
    requires |parts| >= 1
    requires forall k :: 0 <= k < |parts| ==> c !in parts[k]
    ensures Split(Join(parts, [c]), [c]) == parts
    decreases |parts|
  {
    if |parts| == 1 {
      SplitWithout(parts[0], c);
    } else {
      SplitJoin(parts[1..], c);
      SplitWithout(parts[0], c);
      SplitConcat(parts[0], c, Join(parts[1..], [c]));
      assert parts == [parts[0]] + parts[1..];
    }
  }

  /** A string that does not contain the separator splits into itself. */
  lemma {:induction false} SplitFree(s: string, sep: string)
    requires |sep| > 0 && !Contains(s, sep)
    ensures Split(s, sep) == [s]
    decreases |s|
  {
    if |s| >= |sep| {
      assert !OccursAt(s, sep, 0);
      forall i | 0 <= i && i + |sep| <= |s| - 1 ensures !OccursAt(s[1..], sep, i) {
        assert s[1..][i..i + |sep|] == s[i + 1..i + 1 + |sep|];
        assert !OccursAt(s, sep, i + 1);
      }
      SplitFree(s[1..], sep);
      assert s == [s[0]] + s[1..];
    }
  }

  /**
   * When `sep` first occurs right after `a`, splitting `a + sep + b` cuts
   * off `a` as the first piece and goes on with `b`.
   */
  lemma {:induction false} SplitLead(a: string, sep: string, b: string)
    requires |sep| > 0
    requires forall i :: 0 <= i < |a| ==> !OccursAt(a + sep + b, sep, i)
    ensures Split(a + sep + b, sep) == [a] + Split(b, sep)
    decreases |a|
  {
    var s := a + sep + b;
    if a == [] {
      assert s[..|sep|] == sep && s[|sep|..] == b;
    } else {
      assert !OccursAt(s, sep, 0);
      assert s[1..] == a[1..] + sep + b;
      forall i | 0 <= i < |a| - 1 ensures !OccursAt(s[1..], sep, i) {
        assert s[1..][i..i + |sep|] == s[i + 1..i + 1 + |sep|];
        assert !OccursAt(s, sep, i + 1);
      }
      SplitLead(a[1..], sep, b);
      assert [s[0]] + a[1..] == a;
    }
  }

  /** Joining distributes over concatenating non-empty part lists. */
  lemma {:induction false} JoinConcat(p: seq<string>, q: seq<string>, sep: string)
    requires |p| >= 1 && |q| >= 1
    ensures Join(p + q, sep) == Join(p, sep) + sep + Join(q, sep)
    decreases |p|
  {
    if |p| == 1 {
      assert (p + q)[1..] == q;
    } else {
      JoinConcat(p[1..], q, sep);
      assert (p + q)[1..] == p[1..] + q;
    }
  }

  /** `s.split('')`: one single-character string per character. */
  function Chars(s: string): (r: seq<string>)
    ensures |r| == |s|
    ensures forall i :: 0 <= i < |r| ==> r[i] == [s[i]]
  {
    seq(|s|, i requires 0 <= i < |s| => [s[i]])
  }

  /** The concatenation of a list of strings. */
  function Concat(parts: seq<string>): string
  {
    if parts == [] then "" else Concat(parts[..|parts| - 1]) + parts[|parts| - 1]
  }

  /** The characters of `split('')` concatenate back to the string. */
  lemma {:induction false} ConcatChars(s: string)
    ensures Concat(Chars(s)) == s
  {
    if s != [] {
      var n := |s| - 1;
      ConcatChars(s[..n]);
      assert Chars(s)[..n] == Chars(s[..n]);
      assert s == s[..n] + [s[n]];
    }
  }

  // ---------------------------------------------------------------------
  // Decimal integers
  // ---------------------------------------------------------------------

  predicate IsDigit(c: char) {
    '0' <= c <= '9'
  }

  predicate AllDigits(s: string) {
    forall i :: 0 <= i < |s| ==> IsDigit(s[i])
  }

  function DigitValue(c: char): (d: nat)
    requires IsDigit(c)
    ensures d < 10
  {
    (c as int) - ('0' as int)
  }

  function DigitChar(d: nat): (c: char)
    requires d < 10
    ensures IsDigit(c) && DigitValue(c) == d
  {
    (('0' as int) + d) as char
  }

  /** The value of a run of decimal digits, most significant first. */
  function DigitsValue(ds: string): nat
    requires AllDigits(ds)
  {
    if ds == [] then 0 else DigitsValue(ds[..|ds| - 1]) * 10 + DigitValue(ds[|ds| - 1])
  }

  /** Text of a decimal integer: digits, optionally preceded by a minus sign. */
  predicate IsDecimal(s: string) {
    || (|s| >= 1 && AllDigits(s))
    || (|s| >= 2 && s[0] == '-' && AllDigits(s[1..]))
  }

  /** `Number(s)` on decimal integer text. */
  function DecimalValue(s: string): int
    requires IsDecimal(s)
  {
    if s[0] == '-' then -(DigitsValue(s[1..]) as int) else DigitsValue(s)
  }

  /** The shortest digit string of a natural number. */
  function Digits(n: nat): (ds: string)
    ensures |ds| >= 1 && AllDigits(ds)
  {
    if n < 10 then [DigitChar(n)] else Digits(n / 10) + [DigitChar(n % 10)]
  }

  /** `String(n)` for an integer. */
  function ToDecimal(n: int): string
  {
    if n < 0 then "-" + Digits(-n) else Digits(n)
  }

  lemma {:induction false} DigitsRoundTrip(n: nat)
    ensures DigitsValue(Digits(n)) == n
  {
    if n >= 10 {
      DigitsRoundTrip(n / 10);
      var ds := Digits(n);
      assert ds[..|ds| - 1] == Digits(n / 10);
    }
  }

  /** Printing an integer and reading it back with `Number` gives the integer. */
  lemma DecimalRoundTrip(n: int)
    ensures IsDecimal(ToDecimal(n)) && DecimalValue(ToDecimal(n)) == n
  {
    if n < 0 {
      DigitsRoundTrip(-n);
      assert ToDecimal(n)[1..] == Digits(-n);
    } else {
      DigitsRoundTrip(n);
    }
  }

  /** Decimal text never starts or ends with whitespace. */
  lemma DecimalUnpadded(s: string)
    requires IsDecimal(s)
    ensures Unpadded(s) && '\n' !in s
  {
    if s[0] == '-' {
      assert forall i :: 1 <= i < |s| ==> s[1..][i - 1] == s[i];
    }
  }

  /**
   * The text JavaScript's `Number` maps to an integer in this model: the
   * empty string (after trimming), which is 0, or decimal integer text.
   */
  predicate IsNumberText(s: string) {
    Trim(s) == [] || IsDecimal(Trim(s))
  }

  /** `Number(s)` on text that `IsNumberText` admits. */
  function NumberValue(s: string): int
    requires IsNumberText(s)
  {
    if Trim(s) == [] then 0 else DecimalValue(Trim(s))
  }
}
