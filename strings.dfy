/**
  The Python string operations the client relies on: `str.split(sep)`
  (leftmost, non-overlapping, described through `Find`, the leftmost
  occurrence), `str.split()` (runs of whitespace), `int(token)` in base 10 and
  `str(n)` for a non-negative integer.
*/
module Strings {
  import opened Wrappers

  /** `pat` occurs in `s` starting at index `i`. */
  predicate OccursAt(s: string, pat: string, i: int) {
    0 <= i && i + |pat| <= |s| && s[i..i + |pat|] == pat
  }

  ghost predicate Contains(s: string, pat: string) {
    exists i :: OccursAt(s, pat, i)
  }

  /** The lowest index at or after `from` where `pat` occurs. */
  function FindFrom(s: string, pat: string, from: nat): (r: Option<nat>)
    ensures r.Some? ==> from <= r.value && OccursAt(s, pat, r.value)
    ensures r.Some? ==> forall i :: from <= i < r.value ==> !OccursAt(s, pat, i)
    ensures r.None? ==> forall i :: from <= i ==> !OccursAt(s, pat, i)
    decreases |s| - from
  {
    if |s| < from + |pat| then None
    else if OccursAt(s, pat, from) then Some(from)
    else FindFrom(s, pat, from + 1)
  }

  /** The leftmost occurrence of `pat` in `s` (Python's `s.find(pat)`, with `None` for -1). */
  function Find(s: string, pat: string): (r: Option<nat>)
    ensures r.Some? ==> OccursAt(s, pat, r.value) && forall i :: 0 <= i < r.value ==> !OccursAt(s, pat, i)
    ensures r.None? <==> !Contains(s, pat)
  {
    FindFrom(s, pat, 0)
  }

  /** An occurrence with none before it is what `find` returns. */
  lemma FindIs(s: string, pat: string, k: nat)
    requires OccursAt(s, pat, k)
    requires forall i :: 0 <= i < k ==> !OccursAt(s, pat, i)
    ensures Find(s, pat) == Some(k)
  {
  }

  /** Text appended after the first occurrence does not move it. */
  lemma FindExtend(a: string, more: string, pat: string, k: nat)
    requires Find(a, pat) == Some(k)
    ensures Find(a + more, pat) == Some(k)
  {
    forall i | 0 <= i <= k ensures OccursAt(a + more, pat, i) <==> OccursAt(a, pat, i) {
      assert (a + more)[i..i + |pat|] == a[i..i + |pat|];
    }
    FindIs(a + more, pat, k);
  }

  /** Occurrences in `t` are occurrences in `p + t`, shifted by `|p|`. */
  lemma OccursShift(p: string, t: string, pat: string, j: int)
    requires 0 <= j
    ensures OccursAt(p + t, pat, |p| + j) <==> OccursAt(t, pat, j)
  {
    if 0 <= j && j + |pat| <= |t| {
      assert (p + t)[|p| + j..|p| + j + |pat|] == t[j..j + |pat|];
    }
  }

  /** `sep.join(pieces)`. */
  function Join(pieces: seq<string>, sep: string): string
  {
    if |pieces| == 0 then ""
    else if |pieces| == 1 then pieces[0]
    else pieces[0] + sep + Join(pieces[1..], sep)
  }

  lemma NoOccurrenceInPrefix(s: string, pat: string, n: nat)
    requires 0 < |pat| && n <= |s|
    requires forall i :: 0 <= i < n ==> !OccursAt(s, pat, i)
    ensures !Contains(s[..n], pat)
  {
    forall i | OccursAt(s[..n], pat, i) ensures false {
      assert s[..n][i..i + |pat|] == s[i..i + |pat|];
      assert OccursAt(s, pat, i);
    }
  }

  /**
    `s.split(sep)`: the text between successive leftmost occurrences of `sep`.
    Joining the pieces again gives back `s`, no piece contains `sep`, and there
    is a single piece exactly when `sep` does not occur, and each cut is at the
    leftmost occurrence of `sep` in the text that remains.
  */
  function Split(s: string, sep: string): (pieces: seq<string>)
    requires |sep| > 0
    ensures |pieces| >= 1
    ensures Join(pieces, sep) == s
    ensures forall k :: 0 <= k < |pieces| ==> !Contains(pieces[k], sep)
    ensures |pieces| == 1 <==> !Contains(s, sep)
    ensures forall k :: 0 <= k < |pieces| - 1 ==> Find(Join(pieces[k..], sep), sep) == Some(|pieces[k]|)
    decreases |s|
  {
    match Find(s, sep)
    case None => [s]
    case Some(i) =>
      NoOccurrenceInPrefix(s, sep, i);
      assert s == s[..i] + sep + s[i + |sep|..] by {
        assert s[i..i + |sep|] == sep;
        assert s == s[..i] + s[i..i + |sep|] + s[i + |sep|..];
      }
      var rest := Split(s[i + |sep|..], sep);
      LeftmostCuts(s, sep, s[..i], rest);
      [s[..i]] + rest
  }

  /** A leftmost cut after `head`, in front of pieces whose cuts are all leftmost. */
  lemma LeftmostCuts(s: string, sep: string, head: string, rest: seq<string>)
    requires Find(s, sep) == Some(|head|)
    requires |rest| >= 1 && s == head + sep + Join(rest, sep)
    requires forall k :: 0 <= k < |rest| - 1 ==> Find(Join(rest[k..], sep), sep) == Some(|rest[k]|)
    ensures var pieces := [head] + rest;
      forall k :: 0 <= k < |pieces| - 1 ==> Find(Join(pieces[k..], sep), sep) == Some(|pieces[k]|)
  {
    var pieces := [head] + rest;
    forall k | 0 <= k < |pieces| - 1 ensures Find(Join(pieces[k..], sep), sep) == Some(|pieces[k]|) {
      if k == 0 {
        assert pieces[0..] == pieces && pieces[1..] == rest;
      } else {
        assert pieces[k..] == rest[k - 1..] && pieces[k] == rest[k - 1];
      }
    }
  }

  /**
    The contract of `Split` determines its result: pieces that join to `s`,
    whose last piece lacks `sep` and whose cuts are all leftmost, are `Split(s, sep)`.
  */
  lemma {:induction false} SplitUnique(s: string, sep: string, pieces: seq<string>)
    requires |sep| > 0 && |pieces| >= 1 && Join(pieces, sep) == s
    requires !Contains(pieces[|pieces| - 1], sep)
    requires forall k :: 0 <= k < |pieces| - 1 ==> Find(Join(pieces[k..], sep), sep) == Some(|pieces[k]|)
    ensures pieces == Split(s, sep)
    decreases |pieces|
  {
    if |pieces| == 1 {
      assert Find(s, sep).None?;
    } else {
      var head, rest := pieces[0], pieces[1..];
      assert pieces[0..] == pieces;
      forall k | 0 <= k < |rest| - 1 ensures Find(Join(rest[k..], sep), sep) == Some(|rest[k]|) {
        assert rest[k..] == pieces[k + 1..] && rest[k] == pieces[k + 1];
      }
      assert rest[|rest| - 1] == pieces[|pieces| - 1];
      SplitUnique(Join(rest, sep), sep, rest);
      SplitAtFirst(s, sep, head, Join(rest, sep));
      assert pieces == [head] + rest;
    }
  }

  /** Cutting at the first occurrence of `sep` leaves the split of what follows. */
  lemma SplitAtFirst(s: string, sep: string, head: string, tail: string)
    requires |sep| > 0 && s == head + sep + tail && Find(s, sep) == Some(|head|)
    ensures Split(s, sep) == [head] + Split(tail, sep)
  {
    assert s[..|head|] == head;
    assert s[|head| + |sep|..] == tail;
  }

  /** The whitespace characters of Python's `str.split()` (those `str.isspace()` accepts). */
  predicate IsSpace(c: char) {
    var n := c as int;
    (0x09 <= n <= 0x0D) || (0x1C <= n <= 0x20) || n == 0x85 || n == 0xA0 || n == 0x1680
    || (0x2000 <= n <= 0x200A) || n == 0x2028 || n == 0x2029 || n == 0x202F || n == 0x205F || n == 0x3000
  }

  predicate IsWord(w: string) {
    |w| > 0 && forall i :: 0 <= i < |w| ==> !IsSpace(w[i])
  }

  predicate AllSpace(s: string) {
    forall i :: 0 <= i < |s| ==> IsSpace(s[i])
  }

  /** The length of the longest prefix of `s` without whitespace. */
  function WordLength(s: string): (n: nat)
    ensures n <= |s|
    ensures forall i :: 0 <= i < n ==> !IsSpace(s[i])
    ensures n < |s| ==> IsSpace(s[n])
    decreases |s|
  {
    if s == [] || IsSpace(s[0]) then 0 else 1 + WordLength(s[1..])
  }

  /** `s.split()`: the maximal runs of non-whitespace characters, in order. */
  function Words(s: string): (words: seq<string>)
    ensures forall k :: 0 <= k < |words| ==> IsWord(words[k])
    decreases |s|
  {
    if s == [] then []
    else if IsSpace(s[0]) then Words(s[1..])
    else
      var n := WordLength(s);
      [s[..n]] + Words(s[n..])
  }

  /** Leading whitespace does not change the words. */
  lemma {:induction false} WordsAfterSpace(sp: string, s: string)
    requires AllSpace(sp)
    ensures Words(sp + s) == Words(s)
    decreases |sp|
  {
    if sp != [] {
      assert (sp + s)[0] == sp[0] && IsSpace(sp[0]);
      assert (sp + s)[1..] == sp[1..] + s;
      assert AllSpace(sp[1..]) by {
        forall i | 0 <= i < |sp[1..]| ensures IsSpace(sp[1..][i]) {
          assert sp[1..][i] == sp[i + 1];
        }
      }
      WordsAfterSpace(sp[1..], s);
      assert Words(sp + s) == Words((sp + s)[1..]);
    } else {
      assert sp + s == s;
    }
  }

  lemma {:induction false} WordLengthOfWord(w: string, rest: string)
    requires IsWord(w)
    requires rest == [] || IsSpace(rest[0])
    ensures WordLength(w + rest) == |w|
    decreases |w|
  {
    if |w| > 1 {
      assert (w + rest)[1..] == w[1..] + rest;
      WordLengthOfWord(w[1..], rest);
    } else {
      assert (w + rest)[1..] == rest;
    }
  }

  /** A word followed by whitespace or the end of the text is the first word. */
  lemma WordsOfWord(w: string, rest: string)
    requires IsWord(w)
    requires rest == [] || IsSpace(rest[0])
    ensures Words(w + rest) == [w] + Words(rest)
  {
    WordLengthOfWord(w, rest);
    assert (w + rest)[..|w|] == w;
    assert (w + rest)[|w|..] == rest;
  }

  predicate IsDigit(c: char) {
    '0' <= c <= '9'
  }

  predicate AllDigits(t: string) {
    forall i :: 0 <= i < |t| ==> IsDigit(t[i])
  }

  /**
    The digit part `int()` accepts in base 10: ASCII digits, with single
    underscores allowed between two digits. It starts and ends with a digit
    and every underscore follows a digit, so no two underscores are adjacent.
  */
  predicate IsDigitRun(t: string) {
    && |t| > 0
    && IsDigit(t[0])
    && IsDigit(t[|t| - 1])
    && IsDigitsAndUnderscores(t)
    && forall i :: 0 < i < |t| ==> t[i] == '_' ==> IsDigit(t[i - 1])
  }

  /** Only digits and underscores. */
  predicate IsDigitsAndUnderscores(t: string) {
    forall i :: 0 <= i < |t| ==> IsDigit(t[i]) || t[i] == '_'
  }

  function DigitValue(c: char): nat {
    if IsDigit(c) then c as int - '0' as int else 0
  }

  function DigitChar(d: nat): (c: char)
    requires d < 10
    ensures IsDigit(c) && DigitValue(c) == d
  {
    ('0' as int + d) as char
  }

  /** The decimal value of the digits of `t`, underscores skipped. */
  function DigitsValue(t: string): nat
    decreases |t|
  {
    if t == [] then 0
    else if t[|t| - 1] == '_' then DigitsValue(t[..|t| - 1])
    else 10 * DigitsValue(t[..|t| - 1]) + DigitValue(t[|t| - 1])
  }

  /** The digits of `t` with its underscores removed. */
  function DropUnderscores(t: string): string
    decreases |t|
  {
    if t == [] then []
    else if t[|t| - 1] == '_' then DropUnderscores(t[..|t| - 1])
    else DropUnderscores(t[..|t| - 1]) + [t[|t| - 1]]
  }

  /** `d` without its leading zeros, keeping one digit. */
  function StripZeros(d: string): string
    decreases |d|
  {
    if |d| > 1 && d[0] == '0' then StripZeros(d[1..]) else d
  }

  /** `t` without a leading sign. */
  function Unsigned(t: string): string {
    if |t| > 0 && (t[0] == '+' || t[0] == '-') then t[1..] else t
  }

  /**
    `int(t)` for a token without whitespace; `None` stands for ValueError.
    It succeeds exactly on a digit run with an optional sign, the sign decides
    the sign of the value, and `str()` of its magnitude is the token's digits
    without the sign, the underscores and the leading zeros.
  */
  function ParseInt(t: string): (r: Option<int>)
    ensures r.Some? <==> IsDigitRun(t) || (|t| > 1 && t[0] in "+-" && IsDigitRun(t[1..]))
    ensures r.Some? && t[0] == '-' ==> r.value <= 0
    ensures r.Some? && t[0] != '-' ==> r.value >= 0
    ensures r.Some? ==> NatToString(if r.value < 0 then -r.value else r.value) == StripZeros(DropUnderscores(Unsigned(t)))
  {
    if |t| > 0 && (t[0] == '+' || t[0] == '-') then
      if IsDigitRun(t[1..]) then
        var v: int := DigitsValue(t[1..]);
        DigitRunValue(t[1..]);
        Some(if t[0] == '-' then -v else v)
      else None
    else if IsDigitRun(t) then
      DigitRunValue(t);
      Some(DigitsValue(t))
    else None
  }

  /** `str()` of the value of a digit run is the run without underscores and leading zeros. */
  lemma DigitRunValue(u: string)
    requires IsDigitRun(u)
    ensures NatToString(DigitsValue(u)) == StripZeros(DropUnderscores(u))
  {
    DropUnderscoresOfRun(u);
    DigitsValueDrop(u);
    NatToStringOfDigits(DropUnderscores(u));
  }

  lemma DropUnderscoresOfRun(u: string)
    requires IsDigitRun(u)
    ensures |DropUnderscores(u)| > 0 && AllDigits(DropUnderscores(u))
  {
    DropUnderscoresDigits(u);
  }

  lemma {:induction false} DropUnderscoresDigits(t: string)
    requires IsDigitsAndUnderscores(t)
    ensures AllDigits(DropUnderscores(t))
    ensures |t| > 0 && IsDigit(t[|t| - 1]) ==> |DropUnderscores(t)| > 0
    decreases |t|
  {
    if t != [] {
      var p := t[..|t| - 1];
      assert IsDigitsAndUnderscores(p) by {
        forall i | 0 <= i < |p| ensures IsDigit(p[i]) || p[i] == '_' {
          assert p[i] == t[i];
        }
      }
      DropUnderscoresDigits(p);
    }
  }

  /** Underscores add nothing to the value. */
  lemma {:induction false} DigitsValueDrop(t: string)
    ensures DigitsValue(t) == DigitsValue(DropUnderscores(t))
    decreases |t|
  {
    if t != [] {
      var p, c := t[..|t| - 1], t[|t| - 1];
      DigitsValueDrop(p);
      if c != '_' {
        var d := DropUnderscores(p) + [c];
        assert d[..|d| - 1] == DropUnderscores(p);
      }
    }
  }

  predicate AllZeros(d: string) {
    forall i :: 0 <= i < |d| ==> d[i] == '0'
  }

  /** Digits with value zero are all zeros. */
  lemma {:induction false} ZeroValueDigits(d: string)
    requires AllDigits(d) && DigitsValue(d) == 0
    ensures AllZeros(d)
    decreases |d|
  {
    if d != [] {
      var p := d[..|d| - 1];
      assert AllDigits(p) by {
        forall i | 0 <= i < |p| ensures IsDigit(p[i]) {
          assert p[i] == d[i];
        }
      }
      ZeroValueDigits(p);
      assert forall i :: 0 <= i < |p| ==> d[i] == p[i];
    }
  }

  /** After a digit that is not all zeros, another digit is kept by `StripZeros`. */
  lemma {:induction false} StripZerosSnoc(p: string, c: char)
    requires |p| > 0 && !AllZeros(p)
    ensures StripZeros(p + [c]) == StripZeros(p) + [c]
    decreases |p|
  {
    if p[0] == '0' {
      assert |p| > 1;
      assert !AllZeros(p[1..]) by {
        var i :| 0 <= i < |p| && p[i] != '0';
        assert p[1..][i - 1] == p[i];
      }
      StripZerosSnoc(p[1..], c);
      assert (p + [c])[1..] == p[1..] + [c];
    }
  }

  lemma {:induction false} StripZerosOfZeros(z: string, c: char)
    requires AllZeros(z)
    ensures StripZeros(z + [c]) == [c]
    decreases |z|
  {
    if z == [] {
      assert z + [c] == [c];
    } else {
      assert (z + [c])[1..] == z[1..] + [c];
      assert AllZeros(z[1..]) by {
        forall i | 0 <= i < |z[1..]| ensures z[1..][i] == '0' {
          assert z[1..][i] == z[i + 1];
        }
      }
      StripZerosOfZeros(z[1..], c);
    }
  }

  lemma DigitCharOfValue(c: char)
    requires IsDigit(c)
    ensures DigitChar(DigitValue(c)) == c
  {
  }

  /** `str()` of the value of some digits is those digits without their leading zeros. */
  lemma {:induction false} NatToStringOfDigits(d: string)
    requires |d| > 0 && AllDigits(d)
    ensures NatToString(DigitsValue(d)) == StripZeros(d)
    decreases |d|
  {
    var p, c := d[..|d| - 1], d[|d| - 1];
    assert d == p + [c];
    DigitCharOfValue(c);
    if p == [] {
      assert DigitsValue(p) == 0;
    } else {
      assert AllDigits(p) by {
        forall i | 0 <= i < |p| ensures IsDigit(p[i]) {
          assert p[i] == d[i];
        }
      }
      var n := DigitsValue(d);
      assert n == 10 * DigitsValue(p) + DigitValue(c);
      if DigitsValue(p) == 0 {
        ZeroValueDigits(p);
        StripZerosOfZeros(p, c);
      } else {
        NatToStringOfDigits(p);
        assert n / 10 == DigitsValue(p) && n % 10 == DigitValue(c);
        assert !AllZeros(p) by {
          if AllZeros(p) {
            AllZerosValue(p);
          }
        }
        StripZerosSnoc(p, c);
      }
    }
  }

  lemma {:induction false} AllZerosValue(z: string)
    requires AllZeros(z)
    ensures DigitsValue(z) == 0
    decreases |z|
  {
    if z != [] {
      var p := z[..|z| - 1];
      assert AllZeros(p) by {
        forall i | 0 <= i < |p| ensures p[i] == '0' {
          assert p[i] == z[i];
        }
      }
      AllZerosValue(p);
    }
  }

  /** `str(n)`: the decimal digits of `n`, without leading zeros. */
  function NatToString(n: nat): (s: string)
    ensures |s| > 0 && AllDigits(s)
    ensures |s| > 1 ==> s[0] != '0'
    decreases n
  {
    if n < 10 then [DigitChar(n)] else NatToString(n / 10) + [DigitChar(n % 10)]
  }

  lemma {:induction false} DigitsValueOfNatToString(n: nat)
    ensures DigitsValue(NatToString(n)) == n
    decreases n
  {
    var s := NatToString(n);
    if n < 10 {
      assert s[..0] == [];
    } else {
      DigitsValueOfNatToString(n / 10);
      assert s[..|s| - 1] == NatToString(n / 10);
    }
  }

  /** `int(str(n)) == n`. */
  lemma ParseNatToString(n: nat)
    ensures ParseInt(NatToString(n)) == Some(n)
  {
    DigitsValueOfNatToString(n);
  }
}
