/**
 * String operations of the JavaScript runtime that the application relies
 * on: whitespace (the set `String.prototype.trim` and the regular-expression
 * class `\s` share), trimming, substring search, `split` on one character,
 * `Array.prototype.join`, `slice`, a character-class `replace` and the
 * decimal rendering of a number; and the separator both front ends join
 * transcript turns with.  Strings are sequences of `char`.
 */
module Text {
  import opened Wrappers

  /** JavaScript WhiteSpace and LineTerminator code points (ECMA-262, sections 12.2 and 12.3). */
  predicate IsSpace(c: char) {
    var n := c as int;
    (9 <= n <= 13) || n == 0x20 || n == 0xA0 || n == 0x1680 ||
    (0x2000 <= n <= 0x200A) || n == 0x2028 || n == 0x2029 ||
    n == 0x202F || n == 0x205F || n == 0x3000 || n == 0xFEFF
  }

  predicate AllSpace(s: string) {
    forall k | 0 <= k < |s| :: IsSpace(s[k])
  }

  /** No leading and no trailing whitespace. */
  predicate Trimmed(s: string) {
    s == [] || (!IsSpace(s[0]) && !IsSpace(s[|s| - 1]))
  }

  /** `s.trimStart()`: what is left after dropping the leading whitespace. */
  function TrimStart(s: string): (r: string)
    ensures |r| <= |s|
    ensures AllSpace(s[..|s| - |r|])
    ensures r == [] || !IsSpace(r[0])
  {
    if s != [] && IsSpace(s[0]) then TrimStart(s[1..]) else s
  }

  /** What `trimStart` keeps is a suffix. */
  lemma {:induction false} TrimStartIsSuffix(s: string)
    ensures TrimStart(s) == s[|s| - |TrimStart(s)|..]
    decreases |s|
  {
    if s != [] && IsSpace(s[0]) {
      TrimStartIsSuffix(s[1..]);
      assert s[1..][|s[1..]| - |TrimStart(s[1..])|..] == s[|s| - |TrimStart(s)|..];
    }
  }

  /** `s.trimEnd()`: what is left after dropping the trailing whitespace. */
  function TrimEnd(s: string): (r: string)
    ensures |r| <= |s|
    ensures AllSpace(s[|r|..])
    ensures r == [] || !IsSpace(r[|r| - 1])
  {
    if s != [] && IsSpace(s[|s| - 1]) then TrimEnd(s[..|s| - 1]) else s
  }

  /** What `trimEnd` keeps is a prefix. */
  lemma {:induction false} TrimEndIsPrefix(s: string)
    ensures TrimEnd(s) == s[..|TrimEnd(s)|]
    decreases |s|
  {
    if s != [] && IsSpace(s[|s| - 1]) {
      TrimEndIsPrefix(s[..|s| - 1]);
      assert s[..|s| - 1][..|TrimEnd(s)|] == s[..|TrimEnd(s)|];
    }
  }

  /** `s.trim()`: an infix of `s` surrounded by whitespace only, itself trimmed. */
  function Trim(s: string): (r: string)
    ensures Trimmed(r)
  {
    TrimEndIsPrefix(TrimStart(s));
    TrimEnd(TrimStart(s))
  }

  /** What `trim` keeps is an infix with only whitespace around it. */
  lemma TrimIsInfix(s: string)
    ensures exists i, j | 0 <= i <= j <= |s| :: Trim(s) == s[i..j] && AllSpace(s[..i]) && AllSpace(s[j..])
  {
    var u := TrimStart(s);
    TrimStartIsSuffix(s);
    var r := TrimEnd(u);
    TrimEndIsPrefix(u);
    var i := |s| - |u|;
    assert r == s[i..i + |r|];
    assert s[i + |r|..] == u[|r|..];
  }

  lemma {:induction false} TrimStartOfTrimmed(s: string)
    requires s == [] || !IsSpace(s[0])
    ensures TrimStart(s) == s
  {
  }

  lemma {:induction false} TrimEndOfTrimmed(s: string)
    requires s == [] || !IsSpace(s[|s| - 1])
    ensures TrimEnd(s) == s
  {
  }

  /** Trimming is idempotent, and a string without surrounding whitespace is its own trim. */
  lemma {:induction false} TrimOfTrimmed(s: string)
    requires Trimmed(s)
    ensures Trim(s) == s
  {
    TrimStartOfTrimmed(s);
    TrimEndOfTrimmed(s);
  }

  /** Whitespace before a string does not survive `trimStart`. */
  lemma {:induction false} TrimStartSpacePrefix(w: string, x: string)
    requires AllSpace(w)
    ensures TrimStart(w + x) == TrimStart(x)
    decreases |w|
  {
    if w == [] {
      assert w + x == x;
    } else {
      assert (w + x)[0] == w[0];
      assert (w + x)[1..] == w[1..] + x;
      TrimStartSpacePrefix(w[1..], x);
    }
  }

  /** Whitespace before a string does not survive `trim`. */
  lemma TrimSpacePrefix(w: string, x: string)
    requires AllSpace(w)
    ensures Trim(w + x) == Trim(x)
  {
    TrimStartSpacePrefix(w, x);
  }

  /** `trimStart` stops inside `x` when `x` has a non-space character. */
  lemma {:induction false} TrimStartStopsEarly(x: string, y: string)
    requires TrimStart(x) != []
    ensures TrimStart(x + y) == TrimStart(x) + y
    decreases |x|
  {
    assert x != [];
    assert (x + y)[0] == x[0];
    if IsSpace(x[0]) {
      assert TrimStart(x) == TrimStart(x[1..]);
      assert (x + y)[1..] == x[1..] + y;
      TrimStartStopsEarly(x[1..], y);
    } else {
      assert TrimStart(x) == x;
    }
  }

  /** `trimEnd` of `x + y` keeps all of `x` when `x` ends with a non-space character. */
  lemma {:induction false} TrimEndStopsEarly(x: string, y: string)
    requires x != [] && !IsSpace(x[|x| - 1])
    ensures TrimEnd(x + y) == x + TrimEnd(y)
    decreases |y|
  {
    if y == [] {
      assert x + y == x;
      TrimEndOfTrimmed(x);
    } else {
      assert (x + y)[|x + y| - 1] == y[|y| - 1];
      if IsSpace(y[|y| - 1]) {
        assert (x + y)[..|x + y| - 1] == x + y[..|y| - 1];
        TrimEndStopsEarly(x, y[..|y| - 1]);
      }
    }
  }

  lemma {:induction false} TrimStartAllSpace(s: string)
    requires TrimStart(s) == []
    ensures AllSpace(s)
  {
    assert AllSpace(s[..|s| - 0]);
    assert s[..|s|] == s;
  }

  /** `pat` occurs in `s` at index `k`. */
  predicate StartsAt(s: string, pat: string, k: int) {
    0 <= k && k + |pat| <= |s| && s[k..k + |pat|] == pat
  }

  /** `s.includes(pat)`. */
  predicate Contains(s: string, pat: string) {
    exists k | 0 <= k <= |s| :: StartsAt(s, pat, k)
  }

  /** `s.indexOf(pat, from)`: the first index at or after `from` where `pat` occurs. */
  function IndexOf(s: string, pat: string, from: nat): (r: Option<nat>)
    ensures r.Some? ==> from <= r.value && StartsAt(s, pat, r.value)
    ensures r.Some? ==> forall k | from <= k < r.value :: !StartsAt(s, pat, k)
    ensures r.None? ==> forall k | from <= k :: !StartsAt(s, pat, k)
    decreases |s| - from
  {
    if from + |pat| > |s| then None
    else if s[from..from + |pat|] == pat then Some(from)
    else IndexOf(s, pat, from + 1)
  }

  lemma IndexOfFindsContained(s: string, pat: string)
    requires Contains(s, pat)
    ensures IndexOf(s, pat, 0).Some?
  {
    var k :| StartsAt(s, pat, k);
  }

  /** Whether `pat` occurs at `k` of `x + y`, for an occurrence that ends within `x`, is decided by `x`. */
  lemma StartsAtPrefix(x: string, y: string, pat: string, k: nat)
    requires k + |pat| <= |x|
    ensures StartsAt(x + y, pat, k) == StartsAt(x, pat, k)
  {
    assert (x + y)[k..k + |pat|] == x[k..k + |pat|];
  }

  /** Whether `pat` occurs at `k` of `x + y`, at or after `|x|`, is decided by `y`. */
  lemma StartsAtShift(x: string, y: string, pat: string, k: nat)
    requires |x| <= k
    ensures StartsAt(x + y, pat, k) == StartsAt(y, pat, k - |x|)
  {
    if k + |pat| <= |x + y| {
      assert (x + y)[k..k + |pat|] == y[k - |x|..k - |x| + |pat|];
    }
  }

  /** An occurrence with none before it, from `from` on, is what `indexOf` finds. */
  lemma IndexOfAt(s: string, pat: string, from: nat, i: nat)
    requires from <= i && StartsAt(s, pat, i)
    requires forall k | from <= k < i :: !StartsAt(s, pat, k)
    ensures IndexOf(s, pat, from) == Some(i)
  {
  }

  /** Text appended behind the first occurrence does not move it. */
  lemma IndexOfExtends(x: string, y: string, pat: string)
    requires IndexOf(x, pat, 0).Some?
    ensures IndexOf(x + y, pat, 0) == IndexOf(x, pat, 0)
  {
    var i := IndexOf(x, pat, 0).value;
    StartsAtPrefix(x, y, pat, i);
    forall k | 0 <= k < i
      ensures !StartsAt(x + y, pat, k)
    {
      StartsAtPrefix(x, y, pat, k);
    }
    IndexOfAt(x + y, pat, 0, i);
  }

  /** An occurrence inside an infix is an occurrence in the whole string. */
  lemma OccurrenceInInfix(s: string, r: string, off: nat, pat: string, k: nat)
    requires off + |r| <= |s| && r == s[off..off + |r|]
    requires StartsAt(r, pat, k)
    ensures StartsAt(s, pat, off + k)
  {
    forall m | 0 <= m < |pat|
      ensures s[off + k..off + k + |pat|][m] == pat[m]
    {
      assert r[k + m] == s[off + k + m];
      assert r[k..k + |pat|][m] == r[k + m];
    }
    assert s[off + k..off + k + |pat|] == pat;
  }

  /** An occurrence at or after `off` is an occurrence in the suffix from `off`. */
  lemma OccurrenceInSuffix(s: string, off: nat, pat: string, k: nat)
    requires off <= k && StartsAt(s, pat, k)
    ensures StartsAt(s[off..], pat, k - off)
  {
    assert s[off..][k - off..k - off + |pat|] == s[k..k + |pat|];
  }

  /** An occurrence's first character is the pattern's first character. */
  lemma OccurrenceHead(s: string, pat: string, k: nat)
    requires pat != [] && StartsAt(s, pat, k)
    ensures s[k] == pat[0]
  {
    assert s[k..k + |pat|][0] == s[k];
  }

  /** A text without the pattern stays so behind a prefix without the pattern's first character. */
  lemma FreeConcat(p: string, rest: string, pat: string)
    requires pat != [] && pat[0] !in p && !Contains(rest, pat)
    ensures !Contains(p + rest, pat)
  {
    var t := p + rest;
    if k :| 0 <= k <= |t| && StartsAt(t, pat, k) {
      if k < |p| {
        OccurrenceHead(t, pat, k);
      } else {
        OccurrenceInSuffix(t, |p|, pat, k);
      }
    }
  }

  lemma InfixKeepsFree(s: string, pat: string, i: nat, j: nat)
    requires i <= j <= |s|
    requires !Contains(s, pat)
    ensures !Contains(s[i..j], pat)
  {
    if Contains(s[i..j], pat) {
      var k :| 0 <= k <= |s[i..j]| && StartsAt(s[i..j], pat, k);
      OccurrenceInInfix(s, s[i..j], i, pat, k);
    }
  }

  /** `xs.join(sep)`. */
  function Join(parts: seq<string>, sep: string): string
  {
    if |parts| == 0 then ""
    else if |parts| == 1 then parts[0]
    else parts[0] + sep + Join(parts[1..], sep)
  }

  /** Joining a list that ends in `x`: the text ends with `x`, behind `sep` unless `x` is alone. */
  lemma {:induction false} JoinSnoc(parts: seq<string>, x: string, sep: string)
    ensures Join(parts + [x], sep) == if parts == [] then x else Join(parts, sep) + sep + x
    decreases |parts|
  {
    if |parts| >= 2 {
      assert (parts + [x])[1..] == parts[1..] + [x];
      JoinSnoc(parts[1..], x, sep);
    } else if |parts| == 1 {
      assert (parts + [x])[1..] == [x];
    }
  }

  function CountChar(s: string, c: char): nat
  {
    if s == [] then 0 else (if s[0] == c then 1 else 0) + CountChar(s[1..], c)
  }

  /**
   * `s.split(sep)` for a one-character separator: the pieces between the
   * separators, one more piece than there are separators.
   */
  function Split(s: string, sep: char): (parts: seq<string>)
    ensures |parts| == CountChar(s, sep) + 1
    ensures forall k | 0 <= k < |parts| :: sep !in parts[k]
    decreases |s|
  {
    if s == [] then [""]
    else if s[0] == sep then [""] + Split(s[1..], sep)
    else var rest := Split(s[1..], sep); [[s[0]] + rest[0]] + rest[1..]
  }

  /** A leading piece without the separator becomes part of the first piece. */
  lemma {:induction false} SplitFreePrefix(x: string, y: string, sep: char)
    requires sep !in x
    ensures Split(x + y, sep) == [x + Split(y, sep)[0]] + Split(y, sep)[1..]
    decreases |x|
  {
    var parts := Split(y, sep);
    if x == [] {
      assert x + y == y && x + parts[0] == parts[0];
      assert parts == [parts[0]] + parts[1..];
    } else {
      assert (x + y)[0] == x[0] && (x + y)[1..] == x[1..] + y;
      SplitFreePrefix(x[1..], y, sep);
      assert [x[0]] + (x[1..] + Split(y, sep)[0]) == x + Split(y, sep)[0];
    }
  }

  /** Splitting at the first separator. */
  lemma SplitFirst(x: string, y: string, sep: char)
    requires sep !in x
    ensures Split(x + [sep] + y, sep) == [x] + Split(y, sep)
  {
    assert x + [sep] + y == x + ([sep] + y);
    SplitFreePrefix(x, [sep] + y, sep);
    assert ([sep] + y)[1..] == y;
    assert x + "" == x;
  }

  /** A text without the separator is one piece. */
  lemma SplitNone(x: string, sep: char)
    requires sep !in x
    ensures Split(x, sep) == [x]
  {
    SplitFreePrefix(x, "", sep);
    assert x + "" == x;
  }

  /** `join` is undone by `split` when no piece holds the separator. */
  lemma {:induction false} SplitJoin(parts: seq<string>, sep: char)
    requires parts != []
    requires forall k | 0 <= k < |parts| :: sep !in parts[k]
    ensures Split(Join(parts, [sep]), sep) == parts
    decreases |parts|
  {
    if |parts| == 1 {
      SplitNone(parts[0], sep);
    } else {
      var rest := parts[1..];
      SplitJoin(rest, sep);
      SplitFirst(parts[0], Join(rest, [sep]), sep);
      assert parts == [parts[0]] + rest;
    }
  }

  /** `split` is undone by `join` with the same separator. */
  lemma {:induction false} JoinSplit(s: string, sep: char)
    ensures Join(Split(s, sep), [sep]) == s
    decreases |s|
  {
    if s != [] {
      JoinSplit(s[1..], sep);
      var rest := Split(s[1..], sep);
      if s[0] == sep {
        assert ([""] + rest)[1..] == rest;
        assert s == [sep] + s[1..];
      } else {
        var parts := [[s[0]] + rest[0]] + rest[1..];
        if |rest| == 1 {
          assert s == [s[0]] + s[1..];
        } else {
          assert parts[1..] == rest[1..];
          assert s == [s[0]] + s[1..];
        }
      }
    }
  }

  /**
   * `t` is `s` with some characters satisfying `del` deleted, and nothing else changed:
   * the characters of `t` appear in `s` in the same order.
   */
  predicate ErasesOnly(s: string, t: string, del: char -> bool)
    decreases |s|
  {
    if s == [] then t == []
    else
      || (del(s[0]) && ErasesOnly(s[1..], t, del))
      || (t != [] && t[0] == s[0] && ErasesOnly(s[1..], t[1..], del))
  }

  lemma {:induction false} ErasesNothing(s: string, del: char -> bool)
    ensures ErasesOnly(s, s, del)
    decreases |s|
  {
    if s != [] {
      ErasesNothing(s[1..], del);
    }
  }

  lemma {:induction false} ErasesAll(s: string, del: char -> bool)
    requires forall k | 0 <= k < |s| :: del(s[k])
    ensures ErasesOnly(s, [], del)
    decreases |s|
  {
    if s != [] {
      ErasesAll(s[1..], del);
    }
  }

  /** Erasures of two pieces combine into an erasure of their concatenation. */
  lemma {:induction false} ErasesConcat(a: string, a': string, b: string, b': string, del: char -> bool)
    requires ErasesOnly(a, a', del) && ErasesOnly(b, b', del)
    ensures ErasesOnly(a + b, a' + b', del)
    decreases |a|
  {
    if a == [] {
      assert a + b == b && a' + b' == b';
    } else {
      assert (a + b)[1..] == a[1..] + b;
      if del(a[0]) && ErasesOnly(a[1..], a', del) {
        ErasesConcat(a[1..], a', b, b', del);
      } else {
        assert (a' + b')[1..] == a'[1..] + b';
        ErasesConcat(a[1..], a'[1..], b, b', del);
      }
    }
  }

  /** Erasing twice is erasing once. */
  lemma {:induction false} ErasesTrans(s: string, t: string, u: string, del: char -> bool)
    requires ErasesOnly(s, t, del) && ErasesOnly(t, u, del)
    ensures ErasesOnly(s, u, del)
    decreases |s|
  {
    if s != [] {
      if del(s[0]) && ErasesOnly(s[1..], t, del) {
        ErasesTrans(s[1..], t, u, del);
      } else if del(t[0]) && ErasesOnly(t[1..], u, del) {
        ErasesTrans(s[1..], t[1..], u, del);
      } else {
        ErasesTrans(s[1..], t[1..], u[1..], del);
      }
    }
  }

  lemma {:induction false} ErasesLeadingSpace(s: string, del: char -> bool)
    requires forall c :: IsSpace(c) ==> del(c)
    ensures ErasesOnly(s, TrimStart(s), del)
  {
    var u := TrimStart(s);
    TrimStartIsSuffix(s);
    var i := |s| - |u|;
    assert forall k | 0 <= k < i :: IsSpace(s[..i][k]);
    ErasesAll(s[..i], del);
    ErasesNothing(u, del);
    ErasesConcat(s[..i], [], u, u, del);
    assert s == s[..i] + u && [] + u == u;
  }

  lemma {:induction false} ErasesTrailingSpace(s: string, del: char -> bool)
    requires forall c :: IsSpace(c) ==> del(c)
    ensures ErasesOnly(s, TrimEnd(s), del)
  {
    var v := TrimEnd(s);
    TrimEndIsPrefix(s);
    assert forall k | 0 <= k < |s| - |v| :: IsSpace(s[|v|..][k]);
    ErasesNothing(v, del);
    ErasesAll(s[|v|..], del);
    ErasesConcat(v, v, s[|v|..], [], del);
    assert s == v + s[|v|..] && v + [] == v;
  }

  /** `trim` deletes whitespace only. */
  lemma {:induction false} ErasesSpace(s: string, del: char -> bool)
    requires forall c :: IsSpace(c) ==> del(c)
    ensures ErasesOnly(s, Trim(s), del)
  {
    ErasesLeadingSpace(s, del);
    ErasesTrailingSpace(TrimStart(s), del);
    ErasesTrans(s, TrimStart(s), Trim(s), del);
  }

  /**
   * `s.replace(/[^...]/g, "_")` for a character class `keep`: every
   * character outside the class becomes `_`, one for one.
   */
  function ReplaceUnless(s: string, keep: char -> bool): (r: string)
    ensures |r| == |s|
    ensures forall k | 0 <= k < |s| :: r[k] == if keep(s[k]) then s[k] else '_'
    decreases |s|
  {
    if s == [] then []
    else [if keep(s[0]) then s[0] else '_'] + ReplaceUnless(s[1..], keep)
  }

  /** The separator both front ends put between the turns of a transcript: a blank line. */
  const TurnSeparator: string := "\n\n"

  /** `s.slice(0, n)`. */
  function Take(s: string, n: nat): (r: string)
    ensures |r| == if |s| < n then |s| else n
    ensures r <= s
  {
    if |s| < n then s else s[..n]
  }

  predicate IsDigit(c: char) {
    '0' <= c <= '9'
  }

  predicate AllDigits(s: string) {
    forall k | 0 <= k < |s| :: IsDigit(s[k])
  }

  /** The number a string of decimal digits denotes, most significant digit first. */
  function DecimalValue(s: string): nat
    requires AllDigits(s)
  {
    if s == [] then 0 else 10 * DecimalValue(s[..|s| - 1]) + (s[|s| - 1] as int - '0' as int)
  }

  /** `n.toString()` for a natural number: decimal digits, with no leading zero. */
  function DecimalString(n: nat): (r: string)
    ensures r != [] && AllDigits(r)
    ensures r[0] == '0' <==> n == 0
  {
    var digit := ['0' + (n % 10) as char];
    if n < 10 then digit else DecimalString(n / 10) + digit
  }

  /** The digits of `n.toString()` read back to `n`. */
  lemma {:induction false} DecimalStringValue(n: nat)
    ensures DecimalValue(DecimalString(n)) == n
  {
    var r := DecimalString(n);
    if n >= 10 {
      DecimalStringValue(n / 10);
      assert r[..|r| - 1] == DecimalString(n / 10);
    }
  }
}
