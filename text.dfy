/** String operations of the JavaScript runtime that the core relies on:
    `startsWith`, `includes`, `indexOf`, `replace` with a string pattern,
    `split`/`join` on one separator character, `trim`, ASCII case mapping
    and the decimal rendering of a natural number. */
module Text {

  /** `s.startsWith(p)`. */
  predicate StartsWith(s: string, p: string) {
    |p| <= |s| && s[..|p|] == p
  }

  /** `s.endsWith(p)`. */
  predicate EndsWith(s: string, p: string) {
    |p| <= |s| && s[|s| - |p|..] == p
  }

  /** `s.includes(q)`: `q` occurs somewhere in `s`. */
  predicate Contains(s: string, q: string) {
    exists i :: 0 <= i <= |s| && StartsWith(s[i..], q)
  }

  // ---------------------------------------------------------------------
  // indexOf and replace

  /** `s.indexOf(q)`: the leftmost position at which `q` occurs, or -1. */
  function IndexOf(s: string, q: string): (r: int)
    ensures r == -1 || 0 <= r <= |s| - |q|
    ensures r >= 0 ==> StartsWith(s[r..], q)
    ensures forall j :: 0 <= j <= |s| && (r < 0 || j < r) ==> !StartsWith(s[j..], q)
    decreases |s|
  {
    if StartsWith(s, q) then 0
    else if |s| == 0 then -1
    else
      var r := IndexOf(s[1..], q);
      assert forall j :: 1 <= j <= |s| ==> s[j..] == s[1..][j - 1..];
      if r < 0 then -1 else r + 1
  }

  /** `s.replace(q, repl)` with a string pattern: only the first occurrence of
      `q` is replaced (the replacement taken literally). */
  function ReplaceFirst(s: string, q: string, repl: string): string {
    var i := IndexOf(s, q);
    if i < 0 then s else s[..i] + repl + s[i + |q|..]
  }

  /** When `q` is a prefix of `s`, replacing its first occurrence swaps that prefix. */
  lemma ReplaceFirstAtPrefix(s: string, q: string, repl: string)
    requires StartsWith(s, q)
    ensures ReplaceFirst(s, q, repl) == repl + s[|q|..]
  {
  }

  // ---------------------------------------------------------------------
  // split and join on one separator character

  /** `s.split(sep)` for a one-character separator: never empty, one part
      more than there are separators, empty parts kept. */
  function Split(s: string, sep: char): (r: seq<string>)
    ensures |r| >= 1
    ensures forall i :: 0 <= i < |r| ==> sep !in r[i]
    decreases |s|
  {
    if |s| == 0 then [""]
    else
      var rest := Split(s[1..], sep);
      if s[0] == sep then [""] + rest
      else [[s[0]] + rest[0]] + rest[1..]
  }

  /** `parts.join(sep)`. */
  function Join(parts: seq<string>, sep: char): string
    decreases |parts|
  {
    if |parts| == 0 then ""
    else if |parts| == 1 then parts[0]
    else parts[0] + [sep] + Join(parts[1..], sep)
  }

  /** `s.split(sep).pop()`: the text after the last separator. */
  function LastSegment(s: string, sep: char): string {
    var parts := Split(s, sep);
    parts[|parts| - 1]
  }

  /** The index just after the last `sep` in `s`, or 0 when there is none. */
  function SegmentStart(s: string, sep: char): (k: nat)
    ensures k <= |s|
    ensures k == 0 || s[k - 1] == sep
    ensures sep !in s[k..]
    decreases |s|
  {
    if |s| == 0 then 0
    else
      var k := SegmentStart(s[1..], sep);
      if s[0] == sep || k > 0 then k + 1 else 0
  }

  /** The two properties of SegmentStart determine it. */
  lemma SegmentStartUnique(s: string, sep: char, k: nat)
    requires k <= |s| && (k == 0 || s[k - 1] == sep) && sep !in s[k..]
    ensures SegmentStart(s, sep) == k
  {
  }

  lemma {:induction false} JoinSnoc(parts: seq<string>, x: string, sep: char)
    requires |parts| >= 1
    ensures Join(parts + [x], sep) == Join(parts, sep) + [sep] + x
    decreases |parts|
  {
    if |parts| > 1 {
      var tail := parts[1..];
      assert (parts + [x])[1..] == tail + [x];
      JoinSnoc(tail, x, sep);
      var h := parts[0] + [sep];
      assert Join(parts + [x], sep) == h + (Join(tail, sep) + [sep] + x);
      assert h + (Join(tail, sep) + [sep] + x) == (h + Join(tail, sep)) + [sep] + x;
    } else {
      assert (parts + [x])[1..] == [x];
    }
  }

  /** Splitting and joining again gives back the string. */
  lemma {:induction false} JoinSplit(s: string, sep: char)
    ensures Join(Split(s, sep), sep) == s
    decreases |s|
  {
    if |s| > 0 {
      var rest := Split(s[1..], sep);
      JoinSplit(s[1..], sep);
      if s[0] == sep {
        assert ([""] + rest)[1..] == rest;
      } else if |rest| > 1 {
        assert ([[s[0]] + rest[0]] + rest[1..])[1..] == rest[1..];
      }
    }
  }

  /** Joining two non-empty runs of parts puts one separator between them. */
  lemma {:induction false} JoinAppend(a: seq<string>, b: seq<string>, sep: char)
    requires |a| >= 1 && |b| >= 1
    ensures Join(a + b, sep) == Join(a, sep) + [sep] + Join(b, sep)
    decreases |a|
  {
    if |a| > 1 {
      assert (a + b)[1..] == a[1..] + b;
      JoinAppend(a[1..], b, sep);
    } else {
      assert (a + b)[1..] == b;
    }
  }

  /** A string without the separator splits into itself. */
  lemma {:induction false} SplitNoSep(a: string, sep: char)
    requires sep !in a
    ensures Split(a, sep) == [a]
    decreases |a|
  {
    if |a| > 0 {
      SplitNoSep(a[1..], sep);
      assert [a[0]] + a[1..] == a;
    }
  }

  /** A separator-free first part is split off whole. */
  lemma {:induction false} SplitPrefix(a: string, t: string, sep: char)
    requires sep !in a
    ensures Split(a + [sep] + t, sep) == [a] + Split(t, sep)
    decreases |a|
  {
    var s := a + [sep] + t;
    if |a| == 0 {
      assert s[1..] == t;
    } else {
      assert s[1..] == a[1..] + [sep] + t;
      SplitPrefix(a[1..], t, sep);
      assert [a[0]] + a[1..] == a;
    }
  }

  /** Joining separator-free parts and splitting again gives back the parts. */
  lemma {:induction false} SplitJoin(parts: seq<string>, sep: char)
    requires |parts| >= 1
    requires forall i :: 0 <= i < |parts| ==> sep !in parts[i]
    ensures Split(Join(parts, sep), sep) == parts
    decreases |parts|
  {
    if |parts| == 1 {
      SplitNoSep(parts[0], sep);
    } else {
      SplitJoin(parts[1..], sep);
      SplitPrefix(parts[0], Join(parts[1..], sep), sep);
      assert [parts[0]] + parts[1..] == parts;
    }
  }

  /** Joining after gluing a character onto the first part glues it onto the
      joined string. */
  lemma JoinConsFirst(a: char, rest: seq<string>, x: string, sep: char)
    requires |rest| >= 2
    ensures var parts := [[a] + rest[0]] + rest[1..];
            Join(parts[..|parts| - 1] + [x], sep) == [a] + Join(rest[..|rest| - 1] + [x], sep)
  {
    var parts := [[a] + rest[0]] + rest[1..];
    var tail := rest[..|rest| - 1] + [x];
    var front := parts[..|parts| - 1] + [x];
    assert front == [[a] + rest[0]] + tail[1..];
    assert tail == [rest[0]] + tail[1..];
    assert front[1..] == tail[1..];
  }

  /** Replacing the last part of the split and joining again keeps everything
      up to and including the last separator and appends `x`. */
  lemma {:induction false} JoinReplacedLast(s: string, sep: char, x: string)
    ensures var parts := Split(s, sep);
            Join(parts[..|parts| - 1] + [x], sep) == s[..SegmentStart(s, sep)] + x
    decreases |s|
  {
    if |s| > 0 {
      var rest := Split(s[1..], sep);
      var k := SegmentStart(s[1..], sep);
      JoinReplacedLast(s[1..], sep, x);
      var tail := rest[..|rest| - 1] + [x];
      assert Join(tail, sep) == s[1..][..k] + x;
      assert s[..k + 1] == [s[0]] + s[1..][..k];
      if s[0] == sep {
        var parts := [""] + rest;
        assert parts[..|parts| - 1] + [x] == [""] + tail;
        assert ([""] + tail)[1..] == tail;
      } else if |rest| == 1 {
        assert tail == [x];
      } else {
        JoinConsFirst(s[0], rest, x, sep);
        assert tail == [rest[0]] + tail[1..];
        assert |Join(tail, sep)| > |x| by {
          var mid := rest[1..|rest| - 1];
          assert tail[1..] == mid + [x];
          if |mid| > 0 {
            JoinSnoc(mid, x, sep);
          }
        }
      }
    }
  }

  /** The last part of the split is the text after the last separator. */
  lemma LastSegmentIsSuffix(s: string, sep: char)
    ensures LastSegment(s, sep) == s[SegmentStart(s, sep)..]
  {
    var parts := Split(s, sep);
    var last := parts[|parts| - 1];
    JoinReplacedLast(s, sep, last);
    assert parts[..|parts| - 1] + [last] == parts;
    JoinSplit(s, sep);
  }

  // ---------------------------------------------------------------------
  // trim

  /** ECMAScript WhiteSpace and LineTerminator code points, the set that
      `String.prototype.trim` and the regex class `\s` use. */
  predicate IsSpace(c: char) {
    || c == '\t' || c == '\n' || c == '\U{000B}' || c == '\U{000C}' || c == '\r' || c == ' '
    || c == '\U{00A0}' || c == '\U{1680}' || ('\U{2000}' <= c <= '\U{200A}')
    || c == '\U{2028}' || c == '\U{2029}' || c == '\U{202F}' || c == '\U{205F}'
    || c == '\U{3000}' || c == '\U{FEFF}'
  }

  /** The end of the white space that starts at `i`. */
  function SpaceEnd(s: string, i: nat): (j: nat)
    requires i <= |s|
    ensures i <= j <= |s|
    ensures forall k :: i <= k < j ==> IsSpace(s[k])
    ensures j == |s| || !IsSpace(s[j])
    decreases |s| - i
  {
    if i == |s| || !IsSpace(s[i]) then i else SpaceEnd(s, i + 1)
  }

  /** The start of the white space that ends at `j`. */
  function SpaceStart(s: string, j: nat): (i: nat)
    requires j <= |s|
    ensures i <= j
    ensures forall k :: i <= k < j ==> IsSpace(s[k])
    ensures i == 0 || !IsSpace(s[i - 1])
    decreases j
  {
    if j == 0 || !IsSpace(s[j - 1]) then j else SpaceStart(s, j - 1)
  }

  /** `s.trim()`: the slice of `s` left once the leading and the trailing
      white space are cut off; everything cut off is white space, and the
      result neither starts nor ends with white space. */
  function Trim(s: string): (r: string)
    ensures var i := SpaceEnd(s, 0);
      i + |r| <= |s| && r == s[i..i + |r|]
      && (forall k :: 0 <= k < i ==> IsSpace(s[k]))
      && (forall k :: i + |r| <= k < |s| ==> IsSpace(s[k]))
    ensures r == [] || (!IsSpace(r[0]) && !IsSpace(r[|r| - 1]))
  {
    var i := SpaceEnd(s, 0);
    if i == |s| then "" else s[i..SpaceStart(s, |s|)]
  }

  /** Trimming twice trims nothing more. */
  lemma TrimIdempotent(s: string)
    ensures Trim(Trim(s)) == Trim(s)
  {
    var t := Trim(s);
    if t != [] {
      assert SpaceEnd(t, 0) == 0;
      assert SpaceStart(t, |t|) == |t|;
      assert t[0..|t|] == t;
    }
  }

  /** `s.trim()` is empty exactly when `s` is all white space. */
  lemma TrimEmptyIffBlank(s: string)
    ensures Trim(s) == [] <==> forall k :: 0 <= k < |s| ==> IsSpace(s[k])
  {
    var i := SpaceEnd(s, 0);
    if i < |s| {
      assert !IsSpace(s[i]);
    }
  }

  // ---------------------------------------------------------------------
  // ASCII case mapping

  function LowerChar(c: char): char {
    if 'A' <= c <= 'Z' then (c as int + 32) as char else c
  }

  function UpperChar(c: char): char {
    if 'a' <= c <= 'z' then (c as int - 32) as char else c
  }

  /** `s.toLowerCase()` on ASCII letters. */
  function Lower(s: string): (r: string)
    ensures |r| == |s|
    ensures forall i :: 0 <= i < |s| ==> r[i] == LowerChar(s[i])
  {
    seq(|s|, i requires 0 <= i < |s| => LowerChar(s[i]))
  }

  // ---------------------------------------------------------------------
  // decimal rendering

  function DigitChar(d: nat): char
    requires d < 10
  {
    ('0' as int + d) as char
  }

  predicate IsDigit(c: char) {
    '0' <= c <= '9'
  }

  /** `String(n)` for a natural number: its decimal digits, no leading zero. */
  function NatToString(n: nat): (r: string)
    ensures |r| >= 1
    ensures forall i :: 0 <= i < |r| ==> IsDigit(r[i])
    ensures r[0] == '0' ==> n == 0
  {
    if n < 10 then [DigitChar(n)] else NatToString(n / 10) + [DigitChar(n % 10)]
  }

  /** The decimal value of a run of digits (`parseInt(digits, 10)`). */
  function DigitsValue(s: string): nat
    requires forall i :: 0 <= i < |s| ==> IsDigit(s[i])
    decreases |s|
  {
    if |s| == 0 then 0
    else
      assert IsDigit(s[|s| - 1]);
      DigitsValue(s[..|s| - 1]) * 10 + (s[|s| - 1] as int - '0' as int)
  }

  /** Reading the digits back gives the number: NatToString is injective. */
  lemma {:induction false} NatToStringRoundTrip(n: nat)
    ensures DigitsValue(NatToString(n)) == n
  {
    if n >= 10 {
      var s := NatToString(n);
      assert s[..|s| - 1] == NatToString(n / 10);
      NatToStringRoundTrip(n / 10);
    }
  }
}
