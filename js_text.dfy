/**
 * The JavaScript string operations the module relies on: `trim`, `startsWith`,
 * `split` on one character, `Array.prototype.join`, the default order of
 * `Array.prototype.sort` on strings, and the decimal rendering of integers.
 */
module JsText {

  /** The characters ECMAScript counts as white space or line terminators:
      what `trim()` removes and what `\s` in a regular expression matches. */
  predicate IsSpace(c: char) {
    c == '\t' || c == '\n' || c == '\U{000B}' || c == '\U{000C}' || c == '\r' || c == ' '
    || c == '\U{00A0}' || c == '\U{1680}' || ('\U{2000}' <= c <= '\U{200A}')
    || c == '\U{2028}' || c == '\U{2029}' || c == '\U{202F}' || c == '\U{205F}'
    || c == '\U{3000}' || c == '\U{FEFF}'
  }

  predicate AllSpace(s: string) {
    forall i :: 0 <= i < |s| ==> IsSpace(s[i])
  }

  predicate StartsWith(s: string, prefix: string) {
    |prefix| <= |s| && s[..|prefix|] == prefix
  }

  /** The end of the run of white space that starts at `i`. */
  function SpaceRunEnd(s: string, i: nat): (n: nat)
    requires i <= |s|
    decreases |s| - i
    ensures i <= n <= |s|
    ensures forall j :: i <= j < n ==> IsSpace(s[j])
    ensures n == |s| || !IsSpace(s[n])
  {
    if i < |s| && IsSpace(s[i]) then SpaceRunEnd(s, i + 1) else i
  }

  /** `String.prototype.trimStart`: drops the leading white space. */
  function TrimStart(s: string): (r: string)
    ensures |r| <= |s| && r == s[|s| - |r|..]
    ensures AllSpace(s[..|s| - |r|])
    ensures r == [] || !IsSpace(r[0])
  {
    var n := SpaceRunEnd(s, 0);
    assert forall j :: 0 <= j < n ==> s[..n][j] == s[j];
    s[n..]
  }

  /** `String.prototype.trimEnd`: drops the trailing white space. */
  function TrimEnd(s: string): (r: string)
    ensures |r| <= |s| && r == s[..|r|]
    ensures AllSpace(s[|r|..])
    ensures r == [] || !IsSpace(r[|r| - 1])
  {
    if |s| > 0 && IsSpace(s[|s| - 1]) then
      var r := TrimEnd(s[..|s| - 1]);
      assert s[|r|..] == s[..|s| - 1][|r|..] + [s[|s| - 1]];
      r
    else s
  }

  /** `String.prototype.trim`: white space removed at both ends, so what is
      left neither starts nor ends with white space. */
  function Trim(s: string): (r: string)
    ensures |r| <= |s|
    ensures r == [] || (!IsSpace(r[0]) && !IsSpace(r[|r| - 1]))
  {
    var t := TrimStart(s);
    var r := TrimEnd(t);
    assert r != [] ==> r[0] == t[0];
    r
  }

  /** What is left after trimming is the piece of `s` between its leading and
      its trailing white space. */
  lemma TrimIsInnerPiece(s: string)
    ensures var r, i := Trim(s), |s| - |TrimStart(s)|;
      && i + |r| <= |s| && r == s[i..i + |r|]
      && AllSpace(s[..i]) && AllSpace(s[i + |r|..])
  {
    var t := TrimStart(s);
    var r := TrimEnd(t);
    assert Trim(s) == r;
    SuffixPrefix(s, t, r);
    var i := |s| - |t|;
    assert s[i + |r|..] == t[|r|..];
  }

  /** A prefix `r` of a suffix `t` of `s` is a slice of `s`, and what follows
      it in `t` is what follows it in `s`. */
  lemma SuffixPrefix(s: string, t: string, r: string)
    requires |t| <= |s| && t == s[|s| - |t|..]
    requires |r| <= |t| && r == t[..|r|]
    ensures var i := |s| - |t|; r == s[i..i + |r|] && s[i + |r|..] == t[|r|..]
  {
  }

  /** A string that neither starts nor ends with white space is its own trim. */
  lemma TrimUnchanged(s: string)
    requires s == [] || (!IsSpace(s[0]) && !IsSpace(s[|s| - 1]))
    ensures Trim(s) == s
  {
    assert TrimStart(s) == s;
  }

  /** Trimming twice is trimming once. */
  lemma {:induction false} TrimIdempotent(s: string)
    ensures Trim(Trim(s)) == Trim(s)
  {
    var r := Trim(s);
    assert TrimStart(r) == r;
    assert r == [] || !IsSpace(r[|r| - 1]);
    assert TrimEnd(r) == r;
  }

  /** `s.split(sep)` for a one-character separator: the pieces between the
      separators, in order; there is always at least one piece. */
  function Split(s: string, sep: char): (r: seq<string>)
    ensures |r| >= 1
    ensures forall k :: 0 <= k < |r| ==> sep !in r[k]
  {
    if |s| == 0 then [""]
    else
      var rest := Split(s[1..], sep);
      if s[0] == sep then [""] + rest
      else [[s[0]] + rest[0]] + rest[1..]
  }

  /** `parts.join(sep)`. */
  function Join(parts: seq<string>, sep: string): string {
    if |parts| == 0 then ""
    else if |parts| == 1 then parts[0]
    else parts[0] + sep + Join(parts[1..], sep)
  }

  /** Splitting loses nothing: joining the pieces back gives the input. */
  lemma {:induction false} JoinSplit(s: string, sep: char)
    ensures Join(Split(s, sep), [sep]) == s
  {
    if |s| > 0 {
      JoinSplit(s[1..], sep);
      var rest := Split(s[1..], sep);
      if s[0] != sep && |rest| > 1 {
        assert Join(rest, [sep]) == rest[0] + [sep] + Join(rest[1..], [sep]);
        assert s == [s[0]] + s[1..];
      }
    }
  }

  /** Splitting a joined list whose pieces hold no separator gives the pieces back. */
  lemma {:induction false} SplitJoin(parts: seq<string>, sep: char)
    requires |parts| >= 1
    requires forall k :: 0 <= k < |parts| ==> sep !in parts[k]
    ensures Split(Join(parts, [sep]), sep) == parts
  {
    if |parts| == 1 {
      SplitNoSeparator(parts[0], sep);
    } else {
      SplitJoin(parts[1..], sep);
      SplitAppend(parts[0], Join(parts[1..], [sep]), sep);
      assert [parts[0]] + parts[1..] == parts;
    }
  }

  /** A string without the separator is one piece. */
  lemma {:induction false} SplitNoSeparator(s: string, sep: char)
    requires sep !in s
    ensures Split(s, sep) == [s]
  {
    if |s| > 0 {
      assert sep !in s[1..];
      SplitNoSeparator(s[1..], sep);
      assert [s[0]] + s[1..] == s;
    }
  }

  /** The pieces of `a + [sep] + b` are `a` followed by the pieces of `b`,
      when `a` holds no separator. */
  lemma {:induction false} SplitAppend(a: string, b: string, sep: char)
    requires sep !in a
    ensures Split(a + [sep] + b, sep) == [a] + Split(b, sep)
  {
    if |a| == 0 {
      assert a + [sep] + b == [sep] + b;
      assert ([sep] + b)[1..] == b;
    } else {
      assert sep !in a[1..];
      SplitAppend(a[1..], b, sep);
      assert (a + [sep] + b)[1..] == a[1..] + [sep] + b;
      assert [a[0]] + a[1..] == a;
    }
  }

  /** Lexicographic order on strings, the order `sort()` uses by default. */
  predicate LessEq(a: string, b: string) {
    |a| == 0 || (|b| > 0 && (a[0] < b[0] || (a[0] == b[0] && LessEq(a[1..], b[1..]))))
  }

  lemma {:induction false} LessEqReflexive(a: string)
    ensures LessEq(a, a)
  {
    if |a| > 0 {
      LessEqReflexive(a[1..]);
    }
  }

  lemma {:induction false} LessEqTotal(a: string, b: string)
    ensures LessEq(a, b) || LessEq(b, a)
  {
    if |a| > 0 && |b| > 0 && a[0] == b[0] {
      LessEqTotal(a[1..], b[1..]);
    }
  }

  lemma {:induction false} LessEqAntisymmetric(a: string, b: string)
    requires LessEq(a, b) && LessEq(b, a)
    ensures a == b
  {
    if |a| > 0 {
      LessEqAntisymmetric(a[1..], b[1..]);
      assert a == [a[0]] + a[1..] && b == [b[0]] + b[1..];
    }
  }

  lemma {:induction false} LessEqTransitive(a: string, b: string, c: string)
    requires LessEq(a, b) && LessEq(b, c)
    ensures LessEq(a, c)
  {
    if |a| > 0 && a[0] == b[0] && b[0] == c[0] {
      LessEqTransitive(a[1..], b[1..], c[1..]);
    }
  }

  predicate Sorted(s: seq<string>) {
    forall i, j :: 0 <= i < j < |s| ==> LessEq(s[i], s[j])
  }

  /** Inserts `x` before the first element of `s` that is not below it. */
  function Insert(x: string, s: seq<string>): (r: seq<string>)
    ensures multiset(r) == multiset(s) + multiset{x}
  {
    if |s| == 0 then [x]
    else if LessEq(x, s[0]) then [x] + s
    else
      assert s == [s[0]] + s[1..];
      [s[0]] + Insert(x, s[1..])
  }

  /** Inserting into a sorted list keeps it sorted. */
  lemma {:induction false} InsertSorted(x: string, s: seq<string>)
    requires Sorted(s)
    ensures Sorted(Insert(x, s))
  {
    if |s| > 0 {
      if LessEq(x, s[0]) {
        forall j | 0 < j < |s| ensures LessEq(x, s[j]) { LessEqTransitive(x, s[0], s[j]); }
      } else {
        LessEqTotal(x, s[0]);
        InsertSorted(x, s[1..]);
        var t := Insert(x, s[1..]);
        forall k | 0 <= k < |t| ensures LessEq(s[0], t[k]) {
          assert t[k] in multiset(t);
          assert t[k] == x || t[k] in multiset(s[1..]);
          if t[k] != x {
            var m :| 0 <= m < |s[1..]| && s[1..][m] == t[k];
            assert s[1 + m] == t[k];
          }
        }
      }
    }
  }

  /** The strings of `s`, sorted (insertion sort). */
  function Sort(s: seq<string>): (r: seq<string>)
    ensures Sorted(r)
    ensures multiset(r) == multiset(s)
  {
    if |s| == 0 then []
    else
      assert s == [s[0]] + s[1..];
      var t := Sort(s[1..]);
      InsertSorted(s[0], t);
      Insert(s[0], t)
  }

  /** A sorted list is determined by its elements: two sorted arrangements of
      the same strings are equal. */
  lemma {:induction false} SortedUnique(a: seq<string>, b: seq<string>)
    requires Sorted(a) && Sorted(b)
    requires multiset(a) == multiset(b)
    ensures a == b
  {
    if |a| > 0 {
      SortedHeadsEqual(a, b);
      SameTails(a, b);
      SortedTail(a);
      SortedTail(b);
      SortedUnique(a[1..], b[1..]);
      assert a == [a[0]] + a[1..] && b == [b[0]] + b[1..];
    } else {
      assert |b| == |multiset(b)| == 0;
    }
  }

  /** Two sorted arrangements of the same strings start alike. */
  lemma SortedHeadsEqual(a: seq<string>, b: seq<string>)
    requires Sorted(a) && Sorted(b) && multiset(a) == multiset(b) && |a| > 0
    ensures |b| > 0 && a[0] == b[0]
  {
    assert |b| > 0 by { assert |multiset(b)| == |multiset(a)| == |a|; }
    assert a[0] in multiset(b) && b[0] in multiset(a);
    var i :| 0 <= i < |b| && b[i] == a[0];
    var j :| 0 <= j < |a| && a[j] == b[0];
    LessEqReflexive(a[0]);
    assert LessEq(b[0], a[0]) by { if i > 0 { assert LessEq(b[0], b[i]); } }
    assert LessEq(a[0], b[0]) by { if j > 0 { assert LessEq(a[0], a[j]); } }
    LessEqAntisymmetric(a[0], b[0]);
  }

  lemma SameTails(a: seq<string>, b: seq<string>)
    requires |a| > 0 && |b| > 0 && a[0] == b[0] && multiset(a) == multiset(b)
    ensures multiset(a[1..]) == multiset(b[1..])
  {
    assert a == [a[0]] + a[1..] && b == [b[0]] + b[1..];
    assert multiset(a[1..]) == multiset(a) - multiset{a[0]};
    assert multiset(b[1..]) == multiset(b) - multiset{b[0]};
  }

  lemma SortedTail(a: seq<string>)
    requires Sorted(a) && |a| > 0
    ensures Sorted(a[1..])
  {
    forall i, j | 0 <= i < j < |a[1..]| ensures LessEq(a[1..][i], a[1..][j]) {
      assert a[1..][i] == a[i + 1] && a[1..][j] == a[j + 1];
    }
  }

  /** Sorting forgets the order of its input. */
  lemma SortPermutationInvariant(a: seq<string>, b: seq<string>)
    requires multiset(a) == multiset(b)
    ensures Sort(a) == Sort(b)
  {
    SortedUnique(Sort(a), Sort(b));
  }

  function DigitChar(d: nat): char
    requires d < 10
  {
    ('0' as int + d) as char
  }

  predicate IsDigit(c: char) {
    '0' <= c <= '9'
  }

  /** The number a string of decimal digits denotes. */
  function DecimalValue(s: string): nat
    requires forall k :: 0 <= k < |s| ==> IsDigit(s[k])
  {
    if |s| == 0 then 0
    else
      var last := s[|s| - 1];
      assert IsDigit(last);
      10 * DecimalValue(s[..|s| - 1]) + (last as int - '0' as int)
  }

  /** The decimal digits of `n`, as `String(n)` renders a non-negative integer:
      digits that denote `n`, with no leading zero. */
  function NatToDecimal(n: nat): (r: string)
    ensures |r| >= 1
    ensures forall k :: 0 <= k < |r| ==> IsDigit(r[k])
    ensures DecimalValue(r) == n
    ensures |r| == 1 || r[0] != '0'
  {
    if n < 10 then [DigitChar(n)]
    else
      var r := NatToDecimal(n / 10) + [DigitChar(n % 10)];
      assert r[..|r| - 1] == NatToDecimal(n / 10);
      r
  }

  /** `String(n)` for an integer `n`. */
  function IntToDecimal(n: int): string {
    if n < 0 then "-" + NatToDecimal(-n) else NatToDecimal(n)
  }
}
