/**
 * The Python string built-ins that the assistant's post-processing relies on:
 * `str.isspace`, `str.strip()`, `str.split()`, `str.split(sep)`, `sep.join(...)`,
 * the `in` operator on strings and the slice `s[:k]`.
 * Strings are sequences of Unicode code points, as in Python 3.
 */
module PyText {

  /** `c.isspace()` in Python 3: the Unicode whitespace characters. */
  predicate IsSpace(c: char) {
    || c == ' '
    || ('\t' <= c <= '\r')
    || ('\U{1C}' <= c <= '\U{1F}')
    || c == '\U{85}' || c == '\U{A0}' || c == '\U{1680}'
    || ('\U{2000}' <= c <= '\U{200A}')
    || c == '\U{2028}' || c == '\U{2029}' || c == '\U{202F}' || c == '\U{205F}' || c == '\U{3000}'
  }

  predicate AllSpace(s: string) {
    forall i | 0 <= i < |s| :: IsSpace(s[i])
  }

  predicate NoSpace(s: string) {
    forall i | 0 <= i < |s| :: !IsSpace(s[i])
  }

  /** No whitespace at either end: what `strip()` returns. */
  predicate IsStripped(s: string) {
    s == [] || (!IsSpace(s[0]) && !IsSpace(s[|s| - 1]))
  }

  /** `sub` occurs in `s` starting at index `i`. */
  predicate OccursAt(sub: string, s: string, i: int) {
    0 <= i <= |s| - |sub| && s[i..i + |sub|] == sub
  }

  /** `sub` occurs in `s` as a contiguous block. */
  ghost predicate Infix(sub: string, s: string) {
    exists i :: OccursAt(sub, s, i)
  }

  function Min(a: int, b: int): int { if a <= b then a else b }
  function Max(a: int, b: int): int { if a >= b then a else b }

  // ---------------------------------------------------------------- slicing

  /** Python's `s[:k]`: a negative stop counts from the end. */
  function SliceTo<T>(s: seq<T>, k: int): (r: seq<T>)
    ensures r <= s
    ensures 0 <= k ==> |r| == Min(k, |s|)
    ensures k < 0 ==> |r| == Max(0, |s| + k)
  {
    if k >= 0 then s[..Min(k, |s|)] else s[..Max(0, |s| + k)]
  }

  // ------------------------------------------------------------------ strip

  /** `s.lstrip()`. */
  function TrimStart(s: string): (r: string)
    ensures |r| <= |s|
  {
    if s != [] && IsSpace(s[0]) then TrimStart(s[1..]) else s
  }

  /** `s.rstrip()`. */
  function TrimEnd(s: string): (r: string)
    ensures |r| <= |s|
  {
    if s != [] && IsSpace(s[|s| - 1]) then TrimEnd(s[..|s| - 1]) else s
  }

  /** `lstrip()` removes the leading whitespace and nothing else. */
  lemma {:induction false} TrimStartSpec(s: string)
    ensures var r := TrimStart(s);
      && r == s[|s| - |r|..]
      && (r == [] || !IsSpace(r[0]))
      && forall i | 0 <= i < |s| - |r| :: IsSpace(s[i])
  {
    if s != [] && IsSpace(s[0]) {
      TrimStartSpec(s[1..]);
      var r := TrimStart(s);
      assert s[|s| - |r|..] == s[1..][|s| - 1 - |r|..];
      assert forall i | 1 <= i < |s| - |r| :: s[i] == s[1..][i - 1];
    }
  }

  /** `rstrip()` removes the trailing whitespace and nothing else. */
  lemma {:induction false} TrimEndSpec(s: string)
    ensures var r := TrimEnd(s);
      && r == s[..|r|]
      && (r == [] || !IsSpace(r[|r| - 1]))
      && forall i | |r| <= i < |s| :: IsSpace(s[i])
  {
    if s != [] && IsSpace(s[|s| - 1]) {
      TrimEndSpec(s[..|s| - 1]);
      var r := TrimEnd(s);
      assert forall i | |r| <= i < |s| - 1 :: s[i] == s[..|s| - 1][i];
    }
  }

  /** Python's `s.strip()`: the text between the leading and the trailing whitespace. */
  function Strip(s: string): (r: string)
    ensures IsStripped(r)
    ensures |r| <= |s|
  {
    var t := TrimStart(s);
    TrimStartSpec(s);
    TrimEndSpec(t);
    var r := TrimEnd(t);
    assert r != [] ==> r[0] == t[0];
    r
  }

  /** Where `strip()` cuts: blank text before and after the result. */
  function StripStart(s: string): nat {
    |s| - |TrimStart(s)|
  }

  lemma StripCuts(s: string)
    ensures StripStart(s) + |Strip(s)| <= |s|
    ensures Strip(s) == s[StripStart(s)..StripStart(s) + |Strip(s)|]
    ensures forall i | 0 <= i < StripStart(s) :: IsSpace(s[i])
    ensures forall i | StripStart(s) + |Strip(s)| <= i < |s| :: IsSpace(s[i])
  {
    var t := TrimStart(s);
    var k := StripStart(s);
    var r := TrimEnd(t);
    assert Strip(s) == r;
    assert t == s[k..] && forall i | 0 <= i < k :: IsSpace(s[i]) by {
      TrimStartSpec(s);
    }
    assert r == t[..|r|] && forall i | |r| <= i < |t| :: IsSpace(t[i]) by {
      TrimEndSpec(t);
    }
    assert r == s[k..k + |r|];
    forall i | k + |r| <= i < |s| ensures IsSpace(s[i]) {
      assert s[i] == t[i - k];
    }
  }

  /** `strip()` yields the empty string exactly for blank text. */
  lemma StripEmptyIff(s: string)
    ensures Strip(s) == [] <==> AllSpace(s)
  {
    StripCuts(s);
    var k := StripStart(s);
    if Strip(s) == [] {
    } else {
      assert !IsSpace(s[k]);
    }
  }

  /** Stripping text that is already stripped changes nothing (so `strip` is idempotent). */
  lemma StripStripped(s: string)
    requires IsStripped(s)
    ensures Strip(s) == s
  {
    assert TrimStart(s) == s;
    assert TrimEnd(s) == s;
  }

  lemma StripInfix(s: string)
    ensures Infix(Strip(s), s)
  {
    StripCuts(s);
    assert OccursAt(Strip(s), s, StripStart(s));
  }

  // ------------------------------------------------------------ split(sep)

  /** Python's `s.split(sep)` for a one-character separator. */
  function SplitOn(s: string, sep: char): (r: seq<string>)
    ensures |r| >= 1
    ensures forall p | p in r :: sep !in p
  {
    if s == [] then [[]]
    else
      var rest := SplitOn(s[1..], sep);
      if s[0] == sep then [[]] + rest
      else
        assert rest[0] in rest;
        assert forall p | p in rest[1..] :: p in rest;
        [[s[0]] + rest[0]] + rest[1..]
  }

  /** Python's `sep.join(parts)`. */
  function Join(sep: string, parts: seq<string>): string {
    if |parts| == 0 then []
    else if |parts| == 1 then parts[0]
    else parts[0] + sep + Join(sep, parts[1..])
  }

  /** Joining the pieces of a split with its separator restores the text. */
  lemma {:induction false} JoinSplitOn(s: string, sep: char)
    ensures Join([sep], SplitOn(s, sep)) == s
  {
    if s != [] {
      var rest := SplitOn(s[1..], sep);
      JoinSplitOn(s[1..], sep);
      if s[0] == sep {
        assert s == [] + [sep] + Join([sep], rest);
      } else if |rest| == 1 {
        assert s == [s[0]] + rest[0];
      } else {
        assert rest == [rest[0]] + rest[1..];
        assert Join([sep], rest) == rest[0] + [sep] + Join([sep], rest[1..]);
      }
    }
  }

  /** Conversely, splitting a join of separator-free pieces gives the pieces back. */
  lemma {:induction false} SplitOnJoin(parts: seq<string>, sep: char)
    requires |parts| >= 1
    requires forall i | 0 <= i < |parts| :: sep !in parts[i]
    ensures SplitOn(Join([sep], parts), sep) == parts
  {
    if |parts| == 1 {
      SplitOnFree(parts[0], sep);
    } else {
      SplitOnJoin(parts[1..], sep);
      SplitOnCons(parts[0], Join([sep], parts[1..]), sep);
    }
  }

  lemma {:induction false} SplitOnFree(s: string, sep: char)
    requires sep !in s
    ensures SplitOn(s, sep) == [s]
  {
    if s != [] {
      SplitOnFree(s[1..], sep);
      assert [s[0]] + s[1..] == s;
    }
  }

  lemma {:induction false} SplitOnCons(a: string, b: string, sep: char)
    requires sep !in a
    ensures SplitOn(a + [sep] + b, sep) == [a] + SplitOn(b, sep)
  {
    if a == [] {
      assert (a + [sep] + b)[1..] == b;
    } else {
      assert (a + [sep] + b)[1..] == a[1..] + [sep] + b;
      SplitOnCons(a[1..], b, sep);
      assert [a[0]] + a[1..] == a;
    }
  }

  /** Every part of a join occurs in the joined text. */
  lemma {:induction false} JoinInfix(sep: string, parts: seq<string>, i: nat)
    requires i < |parts|
    ensures Infix(parts[i], Join(sep, parts))
  {
    if |parts| == 1 || i == 0 {
      assert OccursAt(parts[0], Join(sep, parts), 0);
    } else {
      JoinInfix(sep, parts[1..], i - 1);
      InfixShift(parts[i], Join(sep, parts[1..]), parts[0] + sep);
      assert parts[0] + sep + Join(sep, parts[1..]) == (parts[0] + sep) + Join(sep, parts[1..]);
    }
  }

  lemma InfixShift(sub: string, s: string, pre: string)
    requires Infix(sub, s)
    ensures Infix(sub, pre + s)
  {
    var i :| OccursAt(sub, s, i);
    assert (pre + s)[|pre| + i..|pre| + i + |sub|] == sub;
    assert OccursAt(sub, pre + s, |pre| + i);
  }

  lemma InfixTransitive(a: string, b: string, c: string)
    requires Infix(a, b) && Infix(b, c)
    ensures Infix(a, c)
  {
    var i :| OccursAt(a, b, i);
    var j :| OccursAt(b, c, j);
    assert forall k | 0 <= k < |a| :: c[j + i + k] == c[j..j + |b|][i + k] == a[k];
    assert c[j + i..j + i + |a|] == a;
    assert OccursAt(a, c, j + i);
  }

  /** The length of a join: the parts plus one separator between each two. */
  lemma {:induction false} JoinLength(sep: string, parts: seq<string>)
    requires |parts| >= 1
    ensures |Join(sep, parts)| == TotalLength(parts) + (|parts| - 1) * |sep|
  {
    if |parts| > 1 {
      JoinLength(sep, parts[1..]);
    }
  }

  function TotalLength(parts: seq<string>): nat {
    if parts == [] then 0 else |parts[0]| + TotalLength(parts[1..])
  }

  // ---------------------------------------------------------------- split()

  /** Length of the run of non-whitespace characters at the start of `s`. */
  function TokenLength(s: string): (n: nat)
    ensures n <= |s|
    ensures NoSpace(s[..n])
    ensures n == |s| || IsSpace(s[n])
  {
    if s == [] || IsSpace(s[0]) then 0
    else
      var n := TokenLength(s[1..]);
      assert s[..n + 1] == [s[0]] + s[1..][..n];
      1 + n
  }

  /** Python's `s.split()`: the maximal runs of non-whitespace characters. */
  function Words(s: string): (r: seq<string>)
    ensures forall w | w in r :: w != [] && NoSpace(w)
    decreases |s|
  {
    if s == [] then []
    else if IsSpace(s[0]) then Words(s[1..])
    else
      var n := TokenLength(s);
      [s[..n]] + Words(s[n..])
  }

  /** `split()` finds no word exactly in blank text. */
  lemma {:induction false} WordsEmptyIff(s: string)
    ensures Words(s) == [] <==> AllSpace(s)
    decreases |s|
  {
    if s != [] && IsSpace(s[0]) {
      WordsEmptyIff(s[1..]);
      assert forall i | 1 <= i < |s| :: s[i] == s[1..][i - 1];
    }
  }

  /** Each word of `split()` occurs verbatim in the text. */
  lemma {:induction false} WordsInfix(s: string, k: nat)
    requires k < |Words(s)|
    ensures Infix(Words(s)[k], s)
    decreases |s|
  {
    var w := Words(s)[k];
    if IsSpace(s[0]) {
      assert Words(s) == Words(s[1..]);
      WordsInfix(s[1..], k);
      InfixShift(w, s[1..], [s[0]]);
      assert [s[0]] + s[1..] == s;
    } else {
      var n := TokenLength(s);
      assert Words(s) == [s[..n]] + Words(s[n..]);
      if k == 0 {
        assert OccursAt(w, s, 0);
      } else {
        assert w == Words(s[n..])[k - 1];
        WordsInfix(s[n..], k - 1);
        InfixShift(w, s[n..], s[..n]);
        assert s[..n] + s[n..] == s;
      }
    }
  }

  /** Text without whitespace is a single word. */
  lemma {:induction false} WordsSingle(w: string)
    requires w != [] && NoSpace(w)
    ensures Words(w) == [w]
  {
    TokenLengthNoSpace(w);
    assert w[..|w|] == w;
    assert w[|w|..] == [];
  }

  lemma {:induction false} TokenLengthNoSpace(w: string)
    requires NoSpace(w)
    ensures TokenLength(w) == |w|
    decreases |w|
  {
    if w != [] {
      assert NoSpace(w[1..]) by {
        forall i | 0 <= i < |w[1..]| ensures !IsSpace(w[1..][i]) {
          assert w[1..][i] == w[i + 1];
        }
      }
      TokenLengthNoSpace(w[1..]);
    }
  }

  /** A whitespace character splits the text into two independent halves. */
  lemma {:induction false} WordsSplitAt(a: string, c: char, b: string)
    requires IsSpace(c)
    ensures Words(a + [c] + b) == Words(a) + Words(b)
    decreases |a|
  {
    var s := a + [c] + b;
    if a == [] {
      assert s[1..] == b;
    } else if IsSpace(a[0]) {
      assert s[1..] == a[1..] + [c] + b;
      WordsSplitAt(a[1..], c, b);
    } else {
      TokenLengthSplit(a, c, b);
      var n := TokenLength(a);
      assert s[..n] == a[..n];
      assert s[n..] == a[n..] + [c] + b;
      WordsSplitAt(a[n..], c, b);
    }
  }

  lemma {:induction false} TokenLengthSplit(a: string, c: char, b: string)
    requires IsSpace(c)
    ensures TokenLength(a + [c] + b) == TokenLength(a)
    decreases |a|
  {
    var s := a + [c] + b;
    if a != [] && !IsSpace(a[0]) {
      assert s[1..] == a[1..] + [c] + b;
      TokenLengthSplit(a[1..], c, b);
    }
  }

  // ------------------------------------------------------------- `sub in s`

  /** Python's `sub in s`. */
  function Contains(s: string, sub: string): bool
    decreases |s|
  {
    if |sub| > |s| then false
    else if s[..|sub|] == sub then true
    else Contains(s[1..], sub)
  }

  lemma {:induction false} ContainsIff(s: string, sub: string)
    ensures Contains(s, sub) <==> Infix(sub, s)
    decreases |s|
  {
    if |sub| <= |s| && s[..|sub|] != sub {
      ContainsIff(s[1..], sub);
      if Infix(sub, s) {
        var i :| OccursAt(sub, s, i);
        assert i != 0;
        assert s[1..][i - 1..i - 1 + |sub|] == sub;
        assert OccursAt(sub, s[1..], i - 1);
      }
      if Infix(sub, s[1..]) {
        InfixShift(sub, s[1..], [s[0]]);
        assert [s[0]] + s[1..] == s;
      }
    } else if |sub| <= |s| {
      assert OccursAt(sub, s, 0);
    }
  }

  // ------------------------------------------------------------ basename

  /** Python's `s.split(sep)[-1]`: the text after the last separator. */
  function LastSegment(s: string, sep: char): string {
    var parts := SplitOn(s, sep);
    parts[|parts| - 1]
  }

  /** The last segment is free of the separator, ends the text, and is preceded
      by the separator whenever the text contains one. */
  lemma {:induction false} LastSegmentSpec(s: string, sep: char)
    ensures sep !in LastSegment(s, sep)
    ensures |LastSegment(s, sep)| <= |s| && s[|s| - |LastSegment(s, sep)|..] == LastSegment(s, sep)
    ensures sep in s <==> |LastSegment(s, sep)| < |s|
    ensures sep in s ==> s[|s| - |LastSegment(s, sep)| - 1] == sep
  {
    var parts := SplitOn(s, sep);
    var n := |parts|;
    var last := parts[n - 1];
    assert last in parts;
    JoinSplitOn(s, sep);
    if n == 1 {
      assert s == last;
    } else {
      JoinSnoc([sep], parts);
      var before := Join([sep], parts[..n - 1]);
      assert s == before + [sep] + last;
      assert s[|before|] == sep;
      assert s[|s| - |last|..] == last;
    }
  }

  /** A join ends with the separator and the last part. */
  lemma {:induction false} JoinSnoc(sep: string, parts: seq<string>)
    requires |parts| >= 2
    ensures Join(sep, parts) == Join(sep, parts[..|parts| - 1]) + sep + parts[|parts| - 1]
  {
    var n := |parts|;
    if n == 2 {
      assert parts[..1] == [parts[0]];
    } else {
      JoinSnoc(sep, parts[1..]);
      assert parts[1..][..n - 2] == parts[..n - 1][1..];
      assert Join(sep, parts[..n - 1]) == parts[0] + sep + Join(sep, parts[..n - 1][1..]);
    }
  }

  // ------------------------------------------------------------- numbers

  /** Decimal representation of a natural number, as `str(n)` or `f"{n}"`. */
  function NatToString(n: nat): (r: string)
    ensures |r| >= 1
    ensures forall i | 0 <= i < |r| :: '0' <= r[i] <= '9'
    ensures n < 10 ==> |r| == 1
    ensures n > 0 ==> r[0] != '0'
  {
    var d := ['0' + (n % 10) as char];
    if n < 10 then d else NatToString(n / 10) + d
  }

  /** The number a string of decimal digits denotes. */
  function DigitsValue(s: string): nat
    requires forall i | 0 <= i < |s| :: '0' <= s[i] <= '9'
  {
    if s == [] then 0
    else DigitsValue(s[..|s| - 1]) * 10 + (s[|s| - 1] as int - '0' as int)
  }

  /** `str(n)` reads back as `n`. */
  lemma {:induction false} NatToStringValue(n: nat)
    ensures DigitsValue(NatToString(n)) == n
  {
    var r := NatToString(n);
    if n >= 10 {
      NatToStringValue(n / 10);
      assert r[..|r| - 1] == NatToString(n / 10);
    }
  }
}
