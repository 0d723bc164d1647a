/**
 * The parts of Python's `str` type that the application's logic relies on:
 * whitespace stripping, suffix and substring tests, `replace`, `split` on one
 * character, `join`, `lower`, `str(n)` for naturals and `int(s)`.
 */
module Strings {
  import opened Wrappers

  /** Python's `str.isspace()` for one character: what `strip()` and `split()` treat as blank. */
  predicate IsSpace(c: char) {
    c == ' ' || ('\t' <= c <= '\r') || ('\U{1c}' <= c <= '\U{1f}') || c == '\U{85}' || c == '\U{a0}'
    || c == '\U{1680}' || ('\U{2000}' <= c <= '\U{200a}') || c == '\U{2028}' || c == '\U{2029}'
    || c == '\U{202f}' || c == '\U{205f}' || c == '\U{3000}'
  }

  predicate AllSpace(s: string) {
    forall k :: 0 <= k < |s| ==> IsSpace(s[k])
  }

  /** Neither end of `s` is blank: `strip()` leaves such a string alone. */
  predicate Trimmed(s: string) {
    s == [] || (!IsSpace(s[0]) && !IsSpace(s[|s| - 1]))
  }

  /** The length of the blank prefix of `s`. */
  function BlankPrefix(s: string): (n: nat)
    ensures n <= |s| && AllSpace(s[..n])
    ensures n < |s| ==> !IsSpace(s[n])
  {
    if s != [] && IsSpace(s[0]) then
      var n := BlankPrefix(s[1..]);
      assert s[..n + 1] == [s[0]] + s[1..][..n];
      n + 1
    else 0
  }

  /** Python's `s.lstrip()`: drops the blank prefix and nothing else. */
  function LStrip(s: string): (r: string)
    ensures |r| <= |s| && r == s[|s| - |r|..]
    ensures AllSpace(s[..|s| - |r|])
    ensures r != [] ==> !IsSpace(r[0])
    ensures r == [] <==> AllSpace(s)
  {
    var n := BlankPrefix(s);
    assert AllSpace(s) ==> n == |s|;
    s[n..]
  }

  /** Python's `s.rstrip()`: drops the blank suffix and nothing else. */
  function RStrip(s: string): (r: string)
    ensures |r| <= |s| && r == s[..|r|]
    ensures AllSpace(s[|r|..])
    ensures r != [] ==> !IsSpace(r[|r| - 1])
    ensures r == [] <==> AllSpace(s)
  {
    if s != [] && IsSpace(s[|s| - 1]) then RStrip(s[..|s| - 1]) else s
  }

  /** Python's `s.strip()`. */
  function Strip(s: string): (r: string)
    ensures Trimmed(r)
    ensures s == [] || AllSpace(s) <==> r == []
  {
    RStrip(LStrip(s))
  }

  lemma {:induction false} LStripPadded(pad: string, x: string)
    requires AllSpace(pad) && Trimmed(x)
    ensures LStrip(pad + x) == x
    decreases |pad|
  {
    if pad != [] {
      assert (pad + x)[1..] == pad[1..] + x;
      LStripPadded(pad[1..], x);
    }
  }

  /** Stripping a trimmed string padded on the left with blanks gives the string back. */
  lemma {:induction false} StripPadded(pad: string, x: string)
    requires AllSpace(pad) && Trimmed(x)
    ensures Strip(pad + x) == x
  {
    LStripPadded(pad, x);
  }

  predicate StartsWith(s: string, prefix: string) {
    |prefix| <= |s| && s[..|prefix|] == prefix
  }

  /** Python's `s.endswith(suffix)` (case-sensitive). */
  predicate EndsWith(s: string, suffix: string) {
    |suffix| <= |s| && s[|s| - |suffix|..] == suffix
  }

  /** `pat` occurs in `s` starting at index `i`. */
  predicate OccursAt(s: string, pat: string, i: int) {
    0 <= i && i + |pat| <= |s| && s[i..i + |pat|] == pat
  }

  /** Python's substring test `pat in s`. */
  predicate Contains(s: string, pat: string) {
    exists i | 0 <= i <= |s| - |pat| :: OccursAt(s, pat, i)
  }

  /** Python's `s.replace(pat, rep)`: every non-overlapping occurrence, left to right. */
  function ReplaceAll(s: string, pat: string, rep: string): string
    requires |pat| > 0
    decreases |s|
  {
    if |s| < |pat| then s
    else if s[..|pat|] == pat then rep + ReplaceAll(s[|pat|..], pat, rep)
    else [s[0]] + ReplaceAll(s[1..], pat, rep)
  }

  lemma ShiftedOccurrence(s: string, pat: string, i: int)
    requires s != [] && OccursAt(s[1..], pat, i)
    ensures OccursAt(s, pat, i + 1)
  {
    assert s[i + 1..i + 1 + |pat|] == s[1..][i..i + |pat|];
  }

  /** A string in which `pat` does not occur is left unchanged by `replace`. */
  lemma {:induction false} ReplaceAllAbsent(s: string, pat: string, rep: string)
    requires |pat| > 0
    requires forall i :: !OccursAt(s, pat, i)
    ensures ReplaceAll(s, pat, rep) == s
    decreases |s|
  {
    if |s| >= |pat| {
      assert !OccursAt(s, pat, 0);
      forall i ensures OccursAt(s[1..], pat, i) ==> OccursAt(s, pat, i + 1) {
        if OccursAt(s[1..], pat, i) {
          ShiftedOccurrence(s, pat, i);
        }
      }
      ReplaceAllAbsent(s[1..], pat, rep);
    }
  }

  /** When `pat` occurs only as the suffix of `b + pat`, `replace` swaps exactly that suffix. */
  lemma {:induction false} ReplaceAllSuffix(b: string, pat: string, rep: string)
    requires |pat| > 0
    requires forall i :: 0 <= i < |b| ==> !OccursAt(b + pat, pat, i)
    ensures ReplaceAll(b + pat, pat, rep) == b + rep
    decreases |b|
  {
    var s := b + pat;
    if b == [] {
      assert s[..|pat|] == pat;
      assert s[|pat|..] == [];
    } else {
      assert !OccursAt(s, pat, 0);
      assert s[1..] == b[1..] + pat;
      forall i | 0 <= i < |b[1..]| ensures OccursAt(b[1..] + pat, pat, i) ==> OccursAt(s, pat, i + 1) {
        if OccursAt(b[1..] + pat, pat, i) {
          ShiftedOccurrence(s, pat, i);
        }
      }
      ReplaceAllSuffix(b[1..], pat, rep);
      assert [s[0]] + (b[1..] + rep) == b + rep;
    }
  }

  /** Replacing every one-character `[c]` by a text without `c` leaves no `c` behind. */
  lemma {:induction false} ReplaceAllRemoves(s: string, c: char, rep: string)
    requires c !in rep
    ensures c !in ReplaceAll(s, [c], rep)
    decreases |s|
  {
    if |s| >= 1 {
      ReplaceAllRemoves(s[1..], c, rep);
      if s[..1] != [c] {
        assert s[0] != c;
      }
    }
  }

  function LowerChar(c: char): char {
    if 'A' <= c <= 'Z' then c - 'A' + 'a' else c
  }

  /** Python's `s.lower()`, restricted to the ASCII letters. */
  function Lower(s: string): (r: string)
    ensures |r| == |s|
  {
    seq(|s|, i requires 0 <= i < |s| => LowerChar(s[i]))
  }

  /** Python's `s.split(sep)` for a one-character separator: never an empty list. */
  function Split(s: string, sep: char): (r: seq<string>)
    ensures |r| >= 1
    ensures |r| == 1 <==> sep !in s
    decreases |s|
  {
    if |s| == 0 then [""]
    else if s[0] == sep then [""] + Split(s[1..], sep)
    else
      assert s == [s[0]] + s[1..];
      var rest := Split(s[1..], sep);
      [[s[0]] + rest[0]] + rest[1..]
  }

  /** Python's `sep.join(xs)`. */
  function Join(xs: seq<string>, sep: string): string
  {
    if |xs| == 0 then ""
    else if |xs| == 1 then xs[0]
    else xs[0] + sep + Join(xs[1..], sep)
  }

  /** Concatenation without a separator: Python's `"".join(xs)`. */
  function Concat(xs: seq<string>): string
  {
    if xs == [] then "" else Concat(xs[..|xs| - 1]) + xs[|xs| - 1]
  }

  lemma {:induction false} SplitPrefix(pad: string, t: string, sep: char)
    requires sep !in pad
    ensures Split(pad + t, sep) == [pad + Split(t, sep)[0]] + Split(t, sep)[1..]
    decreases |pad|
  {
    if pad != [] {
      assert pad[0] in pad;
      assert forall c :: c in pad[1..] ==> c in pad;
      assert (pad + t)[0] == pad[0];
      assert (pad + t)[1..] == pad[1..] + t;
      SplitPrefix(pad[1..], t, sep);
      var rest := Split(pad[1..] + t, sep);
      assert Split(pad + t, sep) == [[pad[0]] + rest[0]] + rest[1..];
      assert rest[0] == pad[1..] + Split(t, sep)[0];
      assert rest[1..] == Split(t, sep)[1..];
      assert [pad[0]] + (pad[1..] + Split(t, sep)[0]) == pad + Split(t, sep)[0];
      assert [pad[0]] + rest[0] == pad + Split(t, sep)[0];
    } else {
      assert pad + t == t;
      var r := Split(t, sep);
      assert pad + r[0] == r[0];
      assert r == [r[0]] + r[1..];
    }
  }

  /**
   * Joining with `sep` followed by `pad`, then splitting on `sep`, gives the
   * parts back with `pad` in front of every part but the first, provided that
   * neither the parts nor the padding contain the separator.
   */
  lemma {:induction false} SplitJoinPadded(xs: seq<string>, sep: char, pad: string)
    requires |xs| >= 1 && sep !in pad
    requires forall i :: 0 <= i < |xs| ==> sep !in xs[i]
    ensures |Split(Join(xs, [sep] + pad), sep)| == |xs|
    ensures Split(Join(xs, [sep] + pad), sep)[0] == xs[0]
    ensures forall i :: 1 <= i < |xs| ==> Split(Join(xs, [sep] + pad), sep)[i] == pad + xs[i]
    decreases |xs|
  {
    if |xs| == 1 {
      SplitPrefix(xs[0], "", sep);
      assert xs[0] + "" == xs[0];
    } else {
      var rest := Join(xs[1..], [sep] + pad);
      var t := [sep] + (pad + rest);
      assert Join(xs, [sep] + pad) == xs[0] + t;
      SplitPrefix(xs[0], t, sep);
      var tail := Split(pad + rest, sep);
      assert Split(t, sep) == [""] + tail;
      assert Split(xs[0] + t, sep) == [xs[0]] + tail by {
        assert xs[0] + "" == xs[0];
      }
      SplitJoinPadded(xs[1..], sep, pad);
      var r := Split(rest, sep);
      SplitPrefix(pad, rest, sep);
      assert tail == [pad + r[0]] + r[1..];
      forall i | 1 <= i < |xs| ensures ([xs[0]] + tail)[i] == pad + xs[i] {
        if i > 1 {
          assert tail[i - 1] == r[i - 1] == pad + xs[1..][i - 1];
        }
      }
    }
  }

  /** Splitting a join on the same one-character separator gives the parts back. */
  lemma {:induction false} SplitJoin(xs: seq<string>, sep: char)
    requires |xs| >= 1
    requires forall i :: 0 <= i < |xs| ==> sep !in xs[i]
    ensures Split(Join(xs, [sep]), sep) == xs
  {
    assert [sep] + "" == [sep];
    SplitJoinPadded(xs, sep, "");
    var r := Split(Join(xs, [sep]), sep);
    assert forall i :: 1 <= i < |xs| ==> r[i] == "" + xs[i] == xs[i];
  }

  /**
   * The first whitespace-separated word: Python's `s.split()[0]`, or None
   * where that indexing raises because `s` is blank.
   */
  function FirstWord(s: string): (r: Option<string>)
    ensures r.None? <==> AllSpace(s)
    ensures r.Some? ==> r.value != [] && (forall k :: 0 <= k < |r.value| ==> !IsSpace(r.value[k]))
  {
    var t := LStrip(s);
    if t == [] then None else Some(WordPrefix(t))
  }

  function WordPrefix(t: string): (w: string)
    ensures |w| <= |t| && w == t[..|w|]
    ensures forall k :: 0 <= k < |w| ==> !IsSpace(w[k])
    ensures |w| == |t| || IsSpace(t[|w|])
  {
    if t == [] || IsSpace(t[0]) then [] else [t[0]] + WordPrefix(t[1..])
  }

  function DigitChar(d: nat): char
    requires d < 10
  {
    '0' + d as char
  }

  predicate IsDigit(c: char) {
    '0' <= c <= '9'
  }

  /** Python's `str(n)` for a natural number. */
  function NatToString(n: nat): (r: string)
    ensures r != [] && forall k :: 0 <= k < |r| ==> IsDigit(r[k])
  {
    if n < 10 then [DigitChar(n)] else NatToString(n / 10) + [DigitChar(n % 10)]
  }

  /** The value of a string of decimal digits. */
  function DigitsValue(ds: string): nat
    requires forall k :: 0 <= k < |ds| ==> IsDigit(ds[k])
  {
    if ds == [] then 0 else assert IsDigit(ds[|ds| - 1]); DigitsValue(ds[..|ds| - 1]) * 10 + (ds[|ds| - 1] as int - '0' as int)
  }

  /**
   * Python's `int(s)` on a string: blanks around an optional sign and a
   * non-empty run of decimal digits; anything else raises ValueError (None).
   */
  function ParseInt(s: string): (r: Option<int>)
  {
    var t := Strip(s);
    if t == [] then None
    else
      var sign := if t[0] == '-' then -1 else 1;
      var ds := if t[0] == '-' || t[0] == '+' then t[1..] else t;
      if ds != [] && forall k :: 0 <= k < |ds| ==> IsDigit(ds[k]) then Some(sign * DigitsValue(ds))
      else None
  }

  lemma {:induction false} DigitsValueOfNat(n: nat)
    ensures DigitsValue(NatToString(n)) == n
  {
    if n >= 10 {
      DigitsValueOfNat(n / 10);
      var s := NatToString(n);
      assert s[..|s| - 1] == NatToString(n / 10);
    }
  }

  /** `int(str(n)) == n`: the decimal rendering of a natural number parses back to it. */
  lemma {:induction false} ParseIntOfNat(n: nat)
    ensures ParseInt(NatToString(n)) == Some(n)
  {
    var s := NatToString(n);
    assert IsDigit(s[0]) && IsDigit(s[|s| - 1]);
    assert "" + s == s;
    StripPadded("", s);
    assert Strip(s) == s;
    assert s[0] != '-' && s[0] != '+';
    DigitsValueOfNat(n);
  }

  /** Distinct numbers have distinct decimal renderings. */
  lemma NatToStringInjective(a: nat, b: nat)
    requires NatToString(a) == NatToString(b)
    ensures a == b
  {
    ParseIntOfNat(a);
    ParseIntOfNat(b);
  }

  /** `a` keeps some of the entries of `b`, in the same order. */
  predicate SubsequenceOf(a: seq<string>, b: seq<string>)
    decreases |b|
  {
    a == [] ||
    (b != [] &&
      ((a[|a| - 1] == b[|b| - 1] && SubsequenceOf(a[..|a| - 1], b[..|b| - 1])) || SubsequenceOf(a, b[..|b| - 1])))
  }
}
