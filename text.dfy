/**
 * The string operations the converter borrows from Python: `str.strip()`,
 * `str.split(sep, maxsplit)` and its inverse `sep.join(...)`, the decimal
 * rendering of an integer inside an f-string, and writing lines each
 * terminated by a newline.
 */
module Text {

  function Min(a: nat, b: nat): nat { if a <= b then a else b }

  /** The characters for which Python's `str.isspace()` holds; `str.strip()` removes exactly these. */
  predicate IsSpace(c: char) {
    || c == ' '
    || ('\t' <= c <= '\r')
    || ('\U{1c}' <= c <= '\U{1f}')
    || c == '\U{85}'
    || c == '\U{a0}'
    || c == '\U{1680}'
    || ('\U{2000}' <= c <= '\U{200a}')
    || c == '\U{2028}'
    || c == '\U{2029}'
    || c == '\U{202f}'
    || c == '\U{205f}'
    || c == '\U{3000}'
  }

  /** The first position at or after `i` that is not whitespace (or `|s|`). */
  function SkipSpace(s: string, i: nat): (j: nat)
    requires i <= |s|
    ensures i <= j <= |s|
    ensures forall k :: i <= k < j ==> IsSpace(s[k])
    ensures j == |s| || !IsSpace(s[j])
    decreases |s| - i
  {
    if i < |s| && IsSpace(s[i]) then SkipSpace(s, i + 1) else i
  }

  /** The end of `s[lo..j]` once the whitespace at its back is cut off. */
  function SkipSpaceBack(s: string, lo: nat, j: nat): (e: nat)
    requires lo <= j <= |s|
    ensures lo <= e <= j
    ensures forall k :: e <= k < j ==> IsSpace(s[k])
    ensures e == lo || !IsSpace(s[e - 1])
    decreases j
  {
    if j > lo && IsSpace(s[j - 1]) then SkipSpaceBack(s, lo, j - 1) else j
  }

  /** `s.strip()`; StripSpec states what it returns. */
  function Strip(s: string): (r: string)
    ensures |r| <= |s|
  {
    var i := SkipSpace(s, 0);
    s[i..SkipSpaceBack(s, i, |s|)]
  }

  /**
   * `s.strip()` is the slice `s[i..j]` left once the whitespace run at each
   * end is cut off: everything outside it is whitespace, and it neither
   * starts nor ends with whitespace (if all of `s` is whitespace, it is empty).
   */
  lemma StripSpec(s: string)
    ensures exists i, j ::
              && 0 <= i <= j <= |s| && Strip(s) == s[i..j]
              && (forall k :: 0 <= k < i ==> IsSpace(s[k]))
              && (forall k :: j <= k < |s| ==> IsSpace(s[k]))
              && (i < j ==> !IsSpace(s[i]) && !IsSpace(s[j - 1]))
  {
    var i := SkipSpace(s, 0);
    var j := SkipSpaceBack(s, i, |s|);
    assert Strip(s) == s[i..j];
    assert i < j ==> !IsSpace(s[i]) && !IsSpace(s[j - 1]);
  }

  /** Stripping twice is stripping once. */
  lemma StripIdempotent(s: string)
    ensures Strip(Strip(s)) == Strip(s)
  {
    StripSpec(s);
    var r := Strip(s);
    var i := SkipSpace(r, 0);
    assert i == 0;
    var j := SkipSpaceBack(r, 0, |r|);
    assert j == |r|;
    assert r[0..|r|] == r;
  }

  /** A character that `s` does not hold is not in `s.strip()` either. */
  lemma StripAvoid(s: string, c: char)
    requires c !in s
    ensures c !in Strip(s)
  {
    var i := SkipSpace(s, 0);
    var j := SkipSpaceBack(s, i, |s|);
    assert forall k :: 0 <= k < j - i ==> s[i..j][k] == s[i + k];
  }

  /** Number of occurrences of `c` in `s`. */
  function CountChar(s: string, c: char): (n: nat)
    ensures n <= |s|
  {
    if s == [] then 0 else (if s[0] == c then 1 else 0) + CountChar(s[1..], c)
  }

  /** `c` occurs no times exactly when it is not in `s`. */
  lemma {:induction false} CountCharZero(s: string, c: char)
    ensures CountChar(s, c) == 0 <==> c !in s
  {
    if s != [] {
      CountCharZero(s[1..], c);
      assert c in s <==> s[0] == c || c in s[1..];
    }
  }

  lemma {:induction false} CountCharAppend(a: string, b: string, c: char)
    ensures CountChar(a + b, c) == CountChar(a, c) + CountChar(b, c)
  {
    if a == [] {
      assert a + b == b;
    } else {
      assert (a + b)[1..] == a[1..] + b;
      CountCharAppend(a[1..], b, c);
    }
  }

  /** The position of the first `c` in `s`, or `|s|` when there is none (`str.find` with -1 read as `|s|`). */
  function IndexOf(s: string, c: char): (i: nat)
    ensures i <= |s|
    ensures i < |s| ==> s[i] == c
  {
    if s == [] then 0
    else if s[0] == c then 0
    else IndexOf(s[1..], c) + 1
  }

  /** No `c` comes before `IndexOf(s, c)`: it is the first occurrence, and `c !in s` when it is `|s|`. */
  lemma {:induction false} IndexOfFirst(s: string, c: char)
    ensures forall k :: 0 <= k < IndexOf(s, c) ==> s[k] != c
  {
    if s != [] && s[0] != c {
      IndexOfFirst(s[1..], c);
      assert forall k :: 1 <= k < |s| ==> s[k] == s[1..][k - 1];
    }
  }

  /** `sep.join(parts)`. */
  function Join(parts: seq<string>, sep: char): string {
    if parts == [] then ""
    else if |parts| == 1 then parts[0]
    else parts[0] + [sep] + Join(parts[1..], sep)
  }

  lemma JoinCons(head: string, rest: seq<string>, sep: char)
    requires rest != []
    ensures Join([head] + rest, sep) == head + [sep] + Join(rest, sep)
  {
    assert ([head] + rest)[1..] == rest;
  }

  /** A character that the joined string does not hold is in no part. */
  lemma {:induction false} JoinAvoid(parts: seq<string>, sep: char, c: char)
    requires c !in Join(parts, sep)
    ensures forall i :: 0 <= i < |parts| ==> c !in parts[i]
  {
    if |parts| > 1 {
      var head, tail := parts[0], Join(parts[1..], sep);
      var j := Join(parts, sep);
      assert j == head + [sep] + tail;
      assert forall k :: 0 <= k < |head| ==> j[k] == head[k];
      assert forall k :: 0 <= k < |tail| ==> j[|head| + 1 + k] == tail[k];
      JoinAvoid(parts[1..], sep, c);
      assert forall i :: 1 <= i < |parts| ==> parts[i] == parts[1..][i - 1];
    }
  }

  /**
   * Python's `s.split(sep, maxSplit)`: split at the first `maxSplit` separators
   * and no more, so the last part keeps any further separators. SplitCount,
   * SplitJoin and SplitSeparators state what the parts are.
   */
  function Split(s: string, sep: char, maxSplit: nat): (parts: seq<string>)
    ensures 1 <= |parts| <= maxSplit + 1
    decreases maxSplit
  {
    var i := IndexOf(s, sep);
    if i == |s| || maxSplit == 0 then [s]
    else [s[..i]] + Split(s[i + 1..], sep, maxSplit - 1)
  }

  /** When a separator is found and splits remain, the first part is what precedes it. */
  lemma SplitFirst(s: string, sep: char, maxSplit: nat)
    requires IndexOf(s, sep) < |s| && maxSplit > 0
    ensures var i := IndexOf(s, sep);
      Split(s, sep, maxSplit) == [s[..i]] + Split(s[i + 1..], sep, maxSplit - 1)
  {
  }

  /** There are min(#sep, maxSplit) + 1 parts. */
  lemma {:induction false} SplitCount(s: string, sep: char, maxSplit: nat)
    ensures |Split(s, sep, maxSplit)| == Min(CountChar(s, sep), maxSplit) + 1
    decreases maxSplit
  {
    var i := IndexOf(s, sep);
    if i < |s| && maxSplit > 0 {
      var t := s[i + 1..];
      SplitFirst(s, sep, maxSplit);
      SplitCount(t, sep, maxSplit - 1);
      CountAtFirst(s, sep, i);
    } else if i == |s| {
      IndexOfFirst(s, sep);
      CountCharZero(s, sep);
    }
  }

  /** The parts of a split, joined with the separator, give back the string. */
  lemma {:induction false} SplitJoin(s: string, sep: char, maxSplit: nat)
    ensures Join(Split(s, sep, maxSplit), sep) == s
    decreases maxSplit
  {
    var i := IndexOf(s, sep);
    if i < |s| && maxSplit > 0 {
      var h, t := s[..i], s[i + 1..];
      var rest := Split(t, sep, maxSplit - 1);
      calc {
        Join(Split(s, sep, maxSplit), sep);
        Join([h] + rest, sep);
        { JoinCons(h, rest, sep); }
        h + [sep] + Join(rest, sep);
        { SplitJoin(t, sep, maxSplit - 1); }
        h + [sep] + t;
        { CutAtFirst(s, sep, i); }
        s;
      }
    }
  }

  /**
   * Only the last part of a split can hold a separator, and it holds none
   * when the string had at most `maxSplit` of them.
   */
  lemma {:induction false} SplitSeparators(s: string, sep: char, maxSplit: nat)
    ensures var parts := Split(s, sep, maxSplit);
      && (forall k :: 0 <= k < |parts| - 1 ==> sep !in parts[k])
      && (CountChar(s, sep) <= maxSplit ==> sep !in parts[|parts| - 1])
    decreases maxSplit
  {
    var i := IndexOf(s, sep);
    if i < |s| && maxSplit > 0 {
      var t := s[i + 1..];
      var rest := Split(t, sep, maxSplit - 1);
      var parts := [s[..i]] + rest;
      assert Split(s, sep, maxSplit) == parts;
      IndexOfFirst(s, sep);
      assert sep !in parts[0];
      assert forall k :: 1 <= k < |parts| ==> parts[k] == rest[k - 1];
      SplitSeparators(t, sep, maxSplit - 1);
      assert CountChar(s, sep) <= maxSplit ==> CountChar(t, sep) <= maxSplit - 1 by {
        CountAtFirst(s, sep, i);
      }
    } else if i < |s| {
      assert s[i] == sep;
      CountCharZero(s, sep);
    } else {
      IndexOfFirst(s, sep);
    }
  }

  /** `s` is what precedes its first `sep`, the separator, and what follows. */
  lemma CutAtFirst(s: string, sep: char, i: nat)
    requires i < |s| && s[i] == sep
    ensures s == s[..i] + [sep] + s[i + 1..]
  {
  }

  /** Cutting `s` at its first `sep`: the count drops by the one separator. */
  lemma CountAtFirst(s: string, sep: char, i: nat)
    requires i == IndexOf(s, sep) < |s|
    ensures CountChar(s, sep) == 1 + CountChar(s[i + 1..], sep)
  {
    IndexOfFirst(s, sep);
    CutAtFirst(s, sep, i);
    CountCharZero(s[..i], sep);
    CountCharAppend(s[..i] + [sep], s[i + 1..], sep);
    CountCharAppend(s[..i], [sep], sep);
    assert CountChar([sep], sep) == 1;
  }

  /** The character of a decimal digit. */
  function DigitChar(d: nat): (c: char)
    requires d < 10
    ensures '0' <= c <= '9'
  {
    (48 + d) as char
  }

  /** The decimal numeral of `n`, as an f-string renders an `int`. */
  function NatToString(n: nat): (s: string)
    ensures |s| > 0
    ensures forall k :: 0 <= k < |s| ==> '0' <= s[k] <= '9'
    ensures s[0] == '0' ==> n == 0
  {
    if n < 10 then [DigitChar(n)] else NatToString(n / 10) + [DigitChar(n % 10)]
  }

  /** The value of a string of decimal digits. */
  function DecimalValue(s: string): nat
    requires forall k :: 0 <= k < |s| ==> '0' <= s[k] <= '9'
  {
    if s == [] then 0 else 10 * DecimalValue(s[..|s| - 1]) + (s[|s| - 1] as int - 48)
  }

  /** Reading the numeral back gives the number. */
  lemma {:induction false} DecimalRoundTrip(n: nat)
    ensures DecimalValue(NatToString(n)) == n
  {
    if n >= 10 {
      DecimalRoundTrip(n / 10);
      var s := NatToString(n);
      assert s[..|s| - 1] == NatToString(n / 10);
    }
  }

  /** The text `f.writelines(f"{line}\n" for line in lines)` writes. */
  function Terminated(lines: seq<string>): string {
    if lines == [] then "" else lines[0] + "\n" + Terminated(lines[1..])
  }

  /** Cut a text into its lines at each `\n`; a final `\n` does not start another line. */
  function SplitLines(text: string): seq<string>
    decreases |text|
  {
    if text == [] then []
    else
      var i := IndexOf(text, '\n');
      [text[..i]] + (if i == |text| then [] else SplitLines(text[i + 1..]))
  }

  /** A line without a newline, then a newline: the first line read back is that line. */
  lemma SplitLinesCons(l: string, rest: string)
    requires '\n' !in l
    ensures SplitLines(l + "\n" + rest) == [l] + SplitLines(rest)
  {
    var text := l + ("\n" + rest);
    assert l + "\n" + rest == text;
    IndexOfAfter(l, "\n" + rest, '\n');
    var i := IndexOf(text, '\n');
    assert i == |l| < |text|;
    assert text[..i] == l;
    assert text[i + 1..] == rest;
    assert SplitLines(text) == [text[..i]] + SplitLines(text[i + 1..]);
  }

  /** Lines that hold no newline come back unchanged after being written with terminators. */
  lemma {:induction false} SplitTerminated(lines: seq<string>)
    requires forall k :: 0 <= k < |lines| ==> '\n' !in lines[k]
    ensures SplitLines(Terminated(lines)) == lines
  {
    if lines != [] {
      SplitLinesCons(lines[0], Terminated(lines[1..]));
      SplitTerminated(lines[1..]);
    }
  }

  lemma IndexOfAfter(a: string, b: string, c: char)
    requires c !in a && |b| > 0 && b[0] == c
    ensures IndexOf(a + b, c) == |a|
  {
    var s := a + b;
    IndexOfFirst(s, c);
    assert s[|a|] == c;
    assert forall j :: 0 <= j < |a| ==> s[j] == a[j];
  }
}
