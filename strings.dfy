/** The string operations of Python that the converter relies on, written out
    over `seq<char>`: whitespace as `str.isspace` defines it, `strip`,
    `split`, `join`, `find`, `startswith`/`endswith`, `lower`, the substitution
    `re.sub(r"\s+", " ", s)` and the word count `len(s.split())`. */
module Strings {

  /** Python's `str.isspace` for one character: the ASCII controls 9-13 and
      28-31, the space, and the Unicode separators U+0085, U+00A0, U+1680,
      U+2000-U+200A, U+2028, U+2029, U+202F, U+205F and U+3000. `\s` in a
      regular expression over `str`, `str.strip()` and `str.split()` all use
      this set. */
  predicate IsSpace(c: char) {
    var n := c as int;
    (9 <= n <= 13) || (28 <= n <= 32) || n == 0x85 || n == 0xA0 || n == 0x1680
    || (0x2000 <= n <= 0x200A) || n == 0x2028 || n == 0x2029 || n == 0x202F
    || n == 0x205F || n == 0x3000
  }

  predicate AllSpace(s: string) {
    forall i :: 0 <= i < |s| ==> IsSpace(s[i])
  }

  predicate HasNoNewline(s: string) {
    forall i :: 0 <= i < |s| ==> s[i] != '\n'
  }

  /** The number of whitespace characters at the front of `s`. */
  function LeadCount(s: string): (n: nat)
    ensures n <= |s|
    ensures n == |s| || !IsSpace(s[n])
    decreases |s|
  {
    if s != [] && IsSpace(s[0]) then 1 + LeadCount(s[1..]) else 0
  }

  lemma {:induction false} LeadCountSpace(s: string)
    ensures forall i :: 0 <= i < LeadCount(s) ==> IsSpace(s[i])
    decreases |s|
  {
    if s != [] && IsSpace(s[0]) {
      LeadCountSpace(s[1..]);
    }
  }

  /** The number of whitespace characters at the back of `s`. */
  function TrailCount(s: string): (n: nat)
    ensures n <= |s|
    ensures n == |s| || !IsSpace(s[|s| - n - 1])
    decreases |s|
  {
    if s != [] && IsSpace(s[|s| - 1]) then 1 + TrailCount(s[..|s| - 1]) else 0
  }

  lemma {:induction false} TrailCountSpace(s: string)
    ensures forall i :: |s| - TrailCount(s) <= i < |s| ==> IsSpace(s[i])
    decreases |s|
  {
    if s != [] && IsSpace(s[|s| - 1]) {
      TrailCountSpace(s[..|s| - 1]);
    }
  }

  /** `s.lstrip()` */
  function LStrip(s: string): string {
    s[LeadCount(s)..]
  }

  /** `s.rstrip()` */
  function RStrip(s: string): string {
    s[..|s| - TrailCount(s)]
  }

  /** `s.strip()` */
  function Strip(s: string): string {
    RStrip(LStrip(s))
  }

  /** `strip` keeps a contiguous part of its input, removes only
      whitespace before and after it, has no whitespace at either end, and
      is empty exactly when the input is all whitespace. */
  lemma StripFacts(s: string)
    ensures var r := Strip(s);
      && |r| <= |s|
      && (r == [] || (!IsSpace(r[0]) && !IsSpace(r[|r| - 1])))
      && (r == [] <==> AllSpace(s))
      && OccursAt(s, r, LeadCount(s))
      && (forall i :: 0 <= i < LeadCount(s) ==> IsSpace(s[i]))
      && (forall i :: LeadCount(s) + |r| <= i < |s| ==> IsSpace(s[i]))
  {
    var a := LeadCount(s);
    var t := s[a..];
    var b := TrailCount(t);
    LeadCountSpace(s);
    TrailCountSpace(t);
    assert Strip(s) == s[a..|s| - b];
    assert s[a..a + |Strip(s)|] == Strip(s);
    if a < |s| {
      assert t[0] == s[a];
    }
    forall i | a + |Strip(s)| <= i < |s|
      ensures IsSpace(s[i])
    {
      assert s[i] == t[i - a];
    }
  }

  /** Stripping leaves nothing exactly when the text is all whitespace. */
  lemma StripEmpty(s: string)
    ensures Strip(s) == [] <==> AllSpace(s)
  {
    StripFacts(s);
  }

  lemma StripOfStripped(s: string)
    requires s == [] || (!IsSpace(s[0]) && !IsSpace(s[|s| - 1]))
    ensures Strip(s) == s
  {
  }

  /** `re.sub(r"\s+", " ", s)`: every maximal run of whitespace becomes one
      space. */
  function Collapse(s: string): string
    decreases |s|
  {
    if s == [] then []
    else if IsSpace(s[0]) then " " + Collapse(LStrip(s))
    else [s[0]] + Collapse(s[1..])
  }

  /** A collapsed text that did not end in whitespace does not end in a
      space either; its last character is the input's. */
  lemma {:induction false} CollapseLast(s: string)
    requires s != [] && !IsSpace(s[|s| - 1])
    ensures var c := Collapse(s); c != [] && c[|c| - 1] == s[|s| - 1]
    decreases |s|
  {
    if IsSpace(s[0]) {
      var t := LStrip(s);
      LeadCountSpace(s);
      assert t != [] && t[|t| - 1] == s[|s| - 1];
      CollapseLast(t);
    } else if |s| > 1 {
      CollapseLast(s[1..]);
    }
  }

  /** Collapsing leaves no newline behind. */
  lemma {:induction false} CollapseHasNoNewline(s: string)
    ensures HasNoNewline(Collapse(s))
    decreases |s|
  {
    if s != [] {
      if IsSpace(s[0]) {
        CollapseHasNoNewline(LStrip(s));
      } else {
        CollapseHasNoNewline(s[1..]);
      }
    }
  }

  /** `len(s.split())`: the number of maximal runs of non-whitespace. */
  function WordCount(s: string): (n: nat)
    ensures n == 0 <==> AllSpace(s)
    decreases |s|
  {
    if s == [] then 0
    else if IsSpace(s[0]) then WordCount(s[1..])
    else 1 + WordCount(s[1 + WordLength(s[1..])..])
  }

  /** The number of non-whitespace characters at the front of `s`. */
  function WordLength(s: string): (n: nat)
    ensures n <= |s|
    ensures n == |s| || IsSpace(s[n])
    decreases |s|
  {
    if s != [] && !IsSpace(s[0]) then 1 + WordLength(s[1..]) else 0
  }

  /** A word of `str.split()`: non-empty, without whitespace. */
  predicate IsWord(w: string) {
    w != [] && forall k :: 0 <= k < |w| ==> !IsSpace(w[k])
  }

  /** The run of non-whitespace at the front of `w + rest` is `w`. */
  lemma {:induction false} WordLengthOf(w: string, rest: string)
    requires forall k :: 0 <= k < |w| ==> !IsSpace(w[k])
    requires rest == [] || IsSpace(rest[0])
    ensures WordLength(w + rest) == |w|
    decreases |w|
  {
    if w != [] {
      assert (w + rest)[1..] == w[1..] + rest;
      WordLengthOf(w[1..], rest);
    } else {
      assert w + rest == rest;
    }
  }

  /** A word followed by whitespace or the end counts once. */
  lemma WordCountWord(w: string, rest: string)
    requires IsWord(w)
    requires rest == [] || IsSpace(rest[0])
    ensures WordCount(w + rest) == 1 + WordCount(rest)
  {
    var s := w + rest;
    assert s[1..] == w[1..] + rest;
    WordLengthOf(w[1..], rest);
    assert s[1 + WordLength(s[1..])..] == rest;
  }

  /** `len(" ".join(ws).split()) == len(ws)` for words without whitespace. */
  lemma {:induction false} WordCountJoin(ws: seq<string>)
    requires forall i :: 0 <= i < |ws| ==> IsWord(ws[i])
    ensures WordCount(Join(ws, " ")) == |ws|
    decreases |ws|
  {
    if |ws| == 1 {
      WordCountWord(ws[0], []);
      assert ws[0] + [] == ws[0];
    } else if |ws| > 1 {
      var j := Join(ws[1..], " ");
      WordCountJoin(ws[1..]);
      WordCountWord(ws[0], " " + j);
      assert ws[0] + " " + j == ws[0] + (" " + j);
      assert (" " + j)[1..] == j;
    }
  }

  lemma AppendAssoc<T>(x: seq<T>, y: seq<T>, z: seq<T>)
    ensures x + y + z == x + (y + z)
  {
  }

  lemma SliceConcat<T>(t: seq<T>, i: nat, j: nat, k: nat)
    requires i <= j <= k <= |t|
    ensures t[i..k] == t[i..j] + t[j..k]
  {
  }

  /** `s.startswith(p)` */
  predicate StartsWith(s: string, p: string) {
    |p| <= |s| && s[..|p|] == p
  }

  /** `s.endswith(p)` */
  predicate EndsWith(s: string, p: string) {
    |p| <= |s| && s[|s| - |p|..] == p
  }

  /** `pat` occurs in `s` at index `i`. */
  predicate OccursAt(s: string, pat: string, i: int) {
    0 <= i && i + |pat| <= |s| && s[i..i + |pat|] == pat
  }

  /** The comparison `find` makes at one position, character by character. */
  predicate MatchesAt(s: string, pat: string, i: nat, j: nat := 0)
    requires i + |pat| <= |s|
    decreases |pat| - j
  {
    j >= |pat| || (s[i + j] == pat[j] && MatchesAt(s, pat, i, j + 1))
  }

  lemma {:induction false} MatchesAtOccurs(s: string, pat: string, i: nat, j: nat := 0)
    requires i + |pat| <= |s| && j <= |pat|
    ensures MatchesAt(s, pat, i, j) <==> s[i + j..i + |pat|] == pat[j..]
    decreases |pat| - j
  {
    if j < |pat| {
      MatchesAtOccurs(s, pat, i, j + 1);
      assert s[i + j..i + |pat|] == [s[i + j]] + s[i + j + 1..i + |pat|];
      assert pat[j..] == [pat[j]] + pat[j + 1..];
    }
  }

  /** `s.find(pat, from)`: the least index at or after `from` where `pat`
      occurs, or -1 (see `FindSpec`). */
  function Find(s: string, pat: string, from: nat): (r: int)
    ensures r == -1 || (from <= r && r + |pat| <= |s|)
    decreases |s| - from
  {
    if from + |pat| > |s| then -1
    else if MatchesAt(s, pat, from) then from
    else Find(s, pat, from + 1)
  }

  /** `find` reports the first occurrence at or after `from`, and -1 exactly
      when there is none. */
  lemma {:induction false} FindSpec(s: string, pat: string, from: nat)
    ensures var r := Find(s, pat, from);
            && (r == -1 || (from <= r && OccursAt(s, pat, r)))
            && (r == -1 ==> forall i :: from <= i ==> !OccursAt(s, pat, i))
            && (r != -1 ==> forall i :: from <= i < r ==> !OccursAt(s, pat, i))
    decreases |s| - from
  {
    if from + |pat| <= |s| {
      MatchesAtOccurs(s, pat, from);
      assert pat[0..] == pat;
      if !MatchesAt(s, pat, from) {
        FindSpec(s, pat, from + 1);
      }
    }
  }

  /** The first occurrence at or after `from`, located by its properties. */
  lemma FindIs(s: string, pat: string, from: nat, i: int)
    requires i == -1 || (from <= i && OccursAt(s, pat, i))
    requires i == -1 ==> forall j :: from <= j ==> !OccursAt(s, pat, j)
    requires i != -1 ==> forall j :: from <= j < i ==> !OccursAt(s, pat, j)
    ensures Find(s, pat, from) == i
  {
    FindSpec(s, pat, from);
  }

  /** An occurrence at or after `from` bounds the first one. */
  lemma FindAtMost(s: string, pat: string, from: nat, i: nat)
    requires from <= i && OccursAt(s, pat, i)
    ensures 0 <= Find(s, pat, from) <= i
  {
    FindSpec(s, pat, from);
  }

  /** The index `find` reports holds an occurrence. */
  lemma FindOccurs(s: string, pat: string, from: nat)
    ensures Find(s, pat, from) != -1 ==> OccursAt(s, pat, Find(s, pat, from))
  {
    FindSpec(s, pat, from);
  }

  /** `s.split(sep, 1)`: the text before the first occurrence of `sep` and the
      text after it, or just `s` when `sep` does not occur. */
  function SplitOnce(s: string, sep: string): (r: seq<string>)
    ensures 1 <= |r| <= 2
    ensures |r| == 1 <==> Find(s, sep, 0) == -1
  {
    var f := Find(s, sep, 0);
    if f == -1 then [s] else [s[..f], s[f + |sep|..]]
  }

  /** Without an occurrence the text is kept whole; otherwise the two parts
      put back around `sep` give the text, the first part ending where the
      first occurrence starts. */
  lemma SplitOnceSpec(s: string, sep: string)
    ensures var r := SplitOnce(s, sep);
            && (|r| == 1 ==> r[0] == s)
            && (|r| == 2 ==> s == r[0] + sep + r[1] && |r[0]| == Find(s, sep, 0))
  {
    var f := Find(s, sep, 0);
    if f != -1 {
      FindOccurs(s, sep, 0);
      assert s == s[..f] + s[f..f + |sep|] + s[f + |sep|..];
    }
  }

  /** `pat in s` */
  predicate Contains(s: string, pat: string) {
    Find(s, pat, 0) != -1
  }

  /** `s.split(sep)` for a one-character separator. */
  function Split(s: string, sep: char): (r: seq<string>)
    ensures |r| >= 1
    decreases |s|
  {
    if s == [] then [[]]
    else
      var rest := Split(s[1..], sep);
      if s[0] == sep then [[]] + rest else [[s[0]] + rest[0]] + rest[1..]
  }

  /** No piece holds the separator. */
  predicate NoSeparator(parts: seq<string>, sep: char) {
    forall k :: 0 <= k < |parts| ==> sep !in parts[k]
  }

  /** No piece of a split holds the separator. */
  lemma {:induction false} SplitPieces(s: string, sep: char)
    ensures NoSeparator(Split(s, sep), sep)
    decreases |s|
  {
    if s != [] {
      SplitPieces(s[1..], sep);
      var rest := Split(s[1..], sep);
      if s[0] != sep {
        var r := Split(s, sep);
        assert r[0] == [s[0]] + rest[0];
        assert forall k :: 1 <= k < |r| ==> r[k] == rest[k];
      }
    }
  }

  /** `s.split("\n")` */
  function Lines(s: string): seq<string> {
    Split(s, '\n')
  }

  /** `sep.join(parts)` */
  function Join(parts: seq<string>, sep: string): string
    decreases |parts|
  {
    if parts == [] then []
    else if |parts| == 1 then parts[0]
    else parts[0] + sep + Join(parts[1..], sep)
  }

  lemma JoinSnoc(parts: seq<string>, x: string, sep: string)
    requires parts != []
    ensures Join(parts + [x], sep) == Join(parts, sep) + sep + x
    decreases |parts|
  {
    if |parts| == 1 {
      assert parts + [x] == [parts[0], x];
    } else {
      assert (parts + [x])[1..] == parts[1..] + [x];
      JoinSnoc(parts[1..], x, sep);
    }
  }

  /** Joining the pieces of a split with the separator gives the text back. */
  lemma {:induction false} JoinSplit(s: string, sep: char)
    ensures Join(Split(s, sep), [sep]) == s
    decreases |s|
  {
    if s != [] {
      var rest := Split(s[1..], sep);
      JoinSplit(s[1..], sep);
      if s[0] == sep {
        assert Split(s, sep) == [[]] + rest;
        assert Join([[]] + rest, [sep]) == [sep] + Join(rest, [sep]);
      } else {
        var r := [[s[0]] + rest[0]] + rest[1..];
        assert Split(s, sep) == r;
        if |rest| == 1 {
          assert Join(r, [sep]) == [s[0]] + rest[0];
        } else {
          assert r[1..] == rest[1..];
          assert Join(rest, [sep]) == rest[0] + [sep] + Join(rest[1..], [sep]);
        }
      }
    }
  }

  /** Splitting a join of separator-free pieces gives the pieces back. */
  lemma {:induction false} SplitJoin(parts: seq<string>, sep: char)
    requires |parts| >= 1
    requires NoSeparator(parts, sep)
    ensures Split(Join(parts, [sep]), sep) == parts
    decreases |parts|
  {
    if |parts| == 1 {
      SplitNoSep(parts[0], sep);
    } else {
      SplitJoin(parts[1..], sep);
      SplitAppend(parts[0], Join(parts[1..], [sep]), sep);
      SplitNoSep(parts[0], sep);
      assert parts == [parts[0]] + parts[1..];
    }
  }

  lemma {:induction false} SplitNoSep(s: string, sep: char)
    requires sep !in s
    ensures Split(s, sep) == [s]
    decreases |s|
  {
    if s != [] {
      SplitNoSep(s[1..], sep);
      assert [s[0]] + s[1..] == s;
    }
  }

  /** A separator between two texts splits them apart. */
  lemma {:induction false} SplitAppend(a: string, b: string, sep: char)
    ensures Split(a + [sep] + b, sep) == Split(a, sep) + Split(b, sep)
    decreases |a|
  {
    if a == [] {
      assert [sep] + b == a + [sep] + b;
      assert ([sep] + b)[1..] == b;
    } else {
      var t := a + [sep] + b;
      assert t[1..] == a[1..] + [sep] + b;
      SplitAppend(a[1..], b, sep);
      var ra := Split(a[1..], sep);
      if a[0] != sep {
        assert Split(a, sep) == [[a[0]] + ra[0]] + ra[1..];
      }
    }
  }

  /** `s.lower()` restricted to ASCII letters. */
  function Lower(s: string): (r: string)
    ensures |r| == |s|
    ensures forall i :: 0 <= i < |s| ==> r[i] == LowerChar(s[i])
  {
    seq(|s|, i requires 0 <= i < |s| => LowerChar(s[i]))
  }

  function LowerChar(c: char): char {
    if 'A' <= c <= 'Z' then (c as int + 32) as char else c
  }

  predicate IsDigit(c: char) {
    '0' <= c <= '9'
  }

  function DigitChar(d: nat): (c: char)
    requires d < 10
    ensures IsDigit(c)
  {
    ('0' as int + d) as char
  }

  /** `str(n)` for a natural number. */
  function NatToString(n: nat): (r: string)
    ensures r != []
    decreases n
  {
    if n < 10 then [DigitChar(n)] else NatToString(n / 10) + [DigitChar(n % 10)]
  }

  predicate AllDigits(s: string) {
    forall i :: 0 <= i < |s| ==> IsDigit(s[i])
  }

  /** `str(n)` is made of digits only. */
  lemma {:induction false} NatToStringDigits(n: nat)
    ensures AllDigits(NatToString(n))
    decreases n
  {
    if n >= 10 {
      NatToStringDigits(n / 10);
    }
  }

  /** The number a digit string spells in base ten, read left to right. */
  function DigitsValue(s: string): nat
    requires AllDigits(s)
    decreases |s|
  {
    if s == [] then 0
    else DigitsValue(s[..|s| - 1]) * 10 + (s[|s| - 1] as int - '0' as int)
  }

  /** `str(n)` is the decimal form of n: its digits spell n, with no
      leading zero unless n is 0. */
  lemma {:induction false} NatToStringValue(n: nat)
    ensures AllDigits(NatToString(n))
    ensures DigitsValue(NatToString(n)) == n
    ensures NatToString(n)[0] == '0' ==> n == 0
    decreases n
  {
    NatToStringDigits(n);
    if n >= 10 {
      var p := NatToString(n / 10);
      NatToStringValue(n / 10);
      var r := NatToString(n);
      assert r == p + [DigitChar(n % 10)];
      assert r[..|r| - 1] == p;
      assert r[0] == p[0];
    }
  }
}
