/** The regular expressions of the chat reply parser (src/lib/n8nChat.ts),
    written as deterministic scanners. A pattern is tried at one position at
    a time; a search finds the leftmost position where it matches; a global
    replace copies the text up to each match, substitutes the match and goes
    on after it. Every pattern here matches a non-empty text, so the scan
    always advances. */
module ChatScan {
  import opened Wrappers
  import opened Text

  /** The matched text `s[start..end]`. */
  datatype Span = Span(start: nat, end: nat)

  /** The end of the longest run from `i` of characters satisfying `p`. */
  function RunOf(s: string, i: nat, p: char -> bool): (j: nat)
    requires i <= |s|
    ensures i <= j <= |s|
    ensures forall k {:trigger p(s[k])} :: i <= k < j ==> p(s[k])
    ensures j == |s| || !p(s[j])
    decreases |s| - i
  {
    if i == |s| || !p(s[i]) then i else RunOf(s, i + 1, p)
  }

  /** A run that is known to stop at `j` ends there. */
  lemma {:induction false} RunOfStops(s: string, i: nat, j: nat, p: char -> bool)
    requires i <= j <= |s|
    requires forall k :: i <= k < j ==> p(s[k])
    requires j == |s| || !p(s[j])
    ensures RunOf(s, i, p) == j
    decreases j - i
  {
    if i < j {
      RunOfStops(s, i + 1, j, p);
    }
  }

  /** The characters the regular-expression `.` does not match. */
  predicate IsLineTerminator(c: char) {
    c == '\n' || c == '\r' || c == '\U{2028}' || c == '\U{2029}'
  }

  predicate NotLineTerminator(c: char) { !IsLineTerminator(c) }
  predicate NotCloseBracket(c: char) { c != ']' }
  predicate NotCloseParen(c: char) { c != ')' }
  predicate NotBackquote(c: char) { c != '`' }
  predicate IsLineFeed(c: char) { c == '\n' }

  /** A character allowed in a bare URL: not white space, '<', '>' or '"'. */
  predicate IsUrlChar(c: char) {
    !IsSpace(c) && c != '<' && c != '>' && c != '"'
  }

  // ---------------------------------------------------------------------
  // the patterns

  /** The captures of an image: its alt text, its image URL and, for a
      clickable image, the URL it links to. */
  datatype ImageParts = ImageParts(alt: string, url: string, pdfUrl: string, end: nat)

  /** A clickable image "[![alt](url)](pdfUrl)" at `i`: the alt text has no
      ']', the URLs are not empty and have no ')'. */
  function ClickableAt(s: string, i: nat): (r: Option<ImageParts>)
    ensures r.Some? ==> i < r.value.end <= |s|
  {
    if !(i + 3 <= |s| && s[i] == '[' && s[i + 1] == '!' && s[i + 2] == '[') then None
    else
      var b := RunOf(s, i + 3, NotCloseBracket);
      if !(b + 2 <= |s| && s[b + 1] == '(') then None
      else
        var d := RunOf(s, b + 2, NotCloseParen);
        if !(b + 2 < d && d + 3 <= |s| && s[d + 1] == ']' && s[d + 2] == '(') then None
        else
          var f := RunOf(s, d + 3, NotCloseParen);
          if !(d + 3 < f < |s|) then None
          else Some(ImageParts(s[i + 3..b], s[b + 2..d], s[d + 3..f], f + 1))
  }

  /** A plain image "![alt](url)" at `i`; it has no link URL. */
  function PlainImageAt(s: string, i: nat): (r: Option<ImageParts>)
    ensures r.Some? ==> i < r.value.end <= |s| && r.value.pdfUrl == ""
  {
    if !(i + 2 <= |s| && s[i] == '!' && s[i + 1] == '[') then None
    else
      var b := RunOf(s, i + 2, NotCloseBracket);
      if !(b + 2 <= |s| && s[b + 1] == '(') then None
      else
        var d := RunOf(s, b + 2, NotCloseParen);
        if !(b + 2 < d < |s|) then None
        else Some(ImageParts(s[i + 2..b], s[b + 2..d], "", d + 1))
  }

  /** The captures of a markdown link. */
  datatype LinkParts = LinkParts(text: string, url: string, end: nat)

  /** A link "[text](url)" at `i`: the text is not empty and has no ']', the
      URL is not empty and has no ')'. */
  function LinkAt(s: string, i: nat): (r: Option<LinkParts>)
    requires i <= |s|
    ensures r.Some? ==> i < r.value.end <= |s|
  {
    if !(i < |s| && s[i] == '[') then None
    else
      var b := RunOf(s, i + 1, NotCloseBracket);
      if !(i + 1 < b && b + 2 <= |s| && s[b + 1] == '(') then None
      else
        var d := RunOf(s, b + 2, NotCloseParen);
        if !(b + 2 < d < |s|) then None
        else Some(LinkParts(s[i + 1..b], s[b + 2..d], d + 1))
  }

  /** A bare URL at `i`: "https://" or "http://" (lower case) and at least
      one URL character, as many as there are. */
  function RawUrlAt(s: string, i: nat): (r: Option<nat>)
    requires i <= |s|
    ensures r.Some? ==> i < r.value <= |s|
  {
    var k := if StartsWith(s[i..], "https://") then i + 8
             else if StartsWith(s[i..], "http://") then i + 7
             else 0;
    if k == 0 then None
    else
      var e := RunOf(s, k, IsUrlChar);
      if e == k then None else Some(e)
  }

  /** The lazy closing of a `delim(.+?)delim` pattern: the first `j` from
      `k` at which `delim` starts, provided no line terminator comes first. */
  function LazyClose(s: string, k: nat, delim: string): (r: Option<nat>)
    requires k <= |s|
    ensures r.Some? ==> k <= r.value && r.value + |delim| <= |s| && s[r.value..r.value + |delim|] == delim
    ensures r.Some? ==> forall m :: k <= m < r.value ==> !IsLineTerminator(s[m])
    decreases |s| - k
  {
    if StartsWith(s[k..], delim) then Some(k)
    else if k < |s| && !IsLineTerminator(s[k]) then LazyClose(s, k + 1, delim)
    else None
  }

  /** Laziness: the closing found is the first delimiter from `k`; nothing
      is found exactly when no delimiter starts before the first line
      terminator or the end. */
  lemma {:induction false} LazyCloseSpec(s: string, k: nat, delim: string)
    requires k <= |s|
    ensures LazyClose(s, k, delim).Some? ==> forall m :: k <= m < LazyClose(s, k, delim).value ==> !StartsWith(s[m..], delim)
    ensures LazyClose(s, k, delim).None? <==> forall m :: k <= m <= RunOf(s, k, NotLineTerminator) ==> !StartsWith(s[m..], delim)
    decreases |s| - k
  {
    if !StartsWith(s[k..], delim) {
      if k < |s| && !IsLineTerminator(s[k]) {
        LazyCloseSpec(s, k + 1, delim);
        assert RunOf(s, k, NotLineTerminator) == RunOf(s, k + 1, NotLineTerminator);
      } else {
        assert RunOf(s, k, NotLineTerminator) == k;
      }
    }
  }

  // ---------------------------------------------------------------------
  // matchers

  /** A pattern as a scanner: where a match at `i` ends, if it matches there. */
  type Matcher = (string, nat) -> Option<nat>

  /** Every match is non-empty and inside the text. */
  ghost predicate Advances(mt: Matcher) {
    forall t: string, k: nat :: mt(t, k).Some? ==> k < mt(t, k).value <= |t|
  }

  /** A clickable image. */
  function ClickableEnd(s: string, i: nat): (r: Option<nat>)
    ensures r.Some? ==> i < r.value <= |s|
  {
    if i > |s| then None
    else
      var m := ClickableAt(s, i);
      if m.Some? then Some(m.value.end) else None
  }

  /** A clickable image and the white space after it. */
  function ClickableBlockEnd(s: string, i: nat): (r: Option<nat>)
    ensures r.Some? ==> i < r.value <= |s|
  {
    if i > |s| then None
    else
      var m := ClickableAt(s, i);
      if m.Some? then Some(RunOf(s, m.value.end, IsSpace)) else None
  }

  /** A plain image. */
  function PlainImageEnd(s: string, i: nat): (r: Option<nat>)
    ensures r.Some? ==> i < r.value <= |s|
  {
    if i > |s| then None
    else
      var m := PlainImageAt(s, i);
      if m.Some? then Some(m.value.end) else None
  }

  /** A plain image and the white space after it. */
  function PlainImageBlockEnd(s: string, i: nat): (r: Option<nat>)
    ensures r.Some? ==> i < r.value <= |s|
  {
    if i > |s| then None
    else
      var m := PlainImageAt(s, i);
      if m.Some? then Some(RunOf(s, m.value.end, IsSpace)) else None
  }

  /** A markdown link. */
  function LinkEnd(s: string, i: nat): (r: Option<nat>)
    ensures r.Some? ==> i < r.value <= |s|
  {
    if i > |s| then None
    else
      var m := LinkAt(s, i);
      if m.Some? then Some(m.value.end) else None
  }

  /** A bare http(s) URL. */
  function RawUrlEnd(s: string, i: nat): (r: Option<nat>)
    ensures r.Some? ==> i < r.value <= |s|
  {
    if i > |s| then None else RawUrlAt(s, i)
  }

  /** Three or more line feeds, as many as there are. */
  function NewlineRunEnd(s: string, i: nat): (r: Option<nat>)
    ensures r.Some? ==> i < r.value <= |s|
  {
    if i > |s| then None
    else
      var j := RunOf(s, i, IsLineFeed);
      if j - i >= 3 then Some(j) else None
  }

  /** The character `c`. */
  function LiteralEnd(c: char, s: string, i: nat): (r: Option<nat>)
    ensures r.Some? ==> i < r.value <= |s|
  {
    if i < |s| && s[i] == c then Some(i + 1) else None
  }

  function Literal(c: char): Matcher {
    (t: string, k: nat) => LiteralEnd(c, t, k)
  }

  /** `delim`, then one or more characters of one line, as few as possible,
      then `delim`. */
  function DelimitedEnd(delim: string, s: string, i: nat): (r: Option<nat>)
    ensures r.Some? ==> i < r.value <= |s|
  {
    if i > |s| || |delim| == 0 || !StartsWith(s[i..], delim) then None
    else
      var c0 := i + |delim|;
      if !(c0 < |s| && !IsLineTerminator(s[c0])) then None
      else
        var j := LazyClose(s, c0 + 1, delim);
        if j.Some? then Some(j.value + |delim|) else None
  }

  function Delimited(delim: string): Matcher {
    (t: string, k: nat) => DelimitedEnd(delim, t, k)
  }

  /** A back-quote, one or more other characters, a back-quote. */
  function CodeSpanEnd(s: string, i: nat): (r: Option<nat>)
    ensures r.Some? ==> i < r.value <= |s|
  {
    if !(i < |s| && s[i] == '`') then None
    else
      var j := RunOf(s, i + 1, NotBackquote);
      if i + 1 < j < |s| then Some(j + 1) else None
  }

  // ---------------------------------------------------------------------
  // search and global replace

  /** The leftmost match at or after `i`. */
  function Search(mt: Matcher, s: string, i: nat): (r: Option<Span>)
    requires i <= |s| && Advances(mt)
    ensures r.Some? ==> i <= r.value.start < r.value.end <= |s| && mt(s, r.value.start) == Some(r.value.end)
    ensures r.Some? ==> forall k :: i <= k < r.value.start ==> mt(s, k).None?
    ensures r.None? ==> forall k :: i <= k <= |s| ==> mt(s, k).None?
    decreases |s| - i
  {
    var m := mt(s, i);
    if m.Some? then Some(Span(i, m.value))
    else if i == |s| then None
    else Search(mt, s, i + 1)
  }

  /** All successive matches from `i`, as a global `exec` loop or a global
      replace finds them. */
  function MatchesFrom(mt: Matcher, s: string, i: nat): (r: seq<Span>)
    requires i <= |s| && Advances(mt)
    ensures forall k :: 0 <= k < |r| ==> i <= r[k].start < r[k].end <= |s| && mt(s, r[k].start) == Some(r[k].end)
    ensures forall k :: 0 <= k < |r| - 1 ==> r[k].end <= r[k + 1].start
    ensures |r| == 0 <==> Search(mt, s, i).None?
    ensures |r| > 0 ==> r[0] == Search(mt, s, i).value
    decreases |s| - i
  {
    var m := Search(mt, s, i);
    if m.None? then [] else [m.value] + MatchesFrom(mt, s, m.value.end)
  }

  /** Between the k-th match and the next, the pattern matches nowhere: the
      scan skips no match. */
  lemma {:induction false} MatchesFromGap(mt: Matcher, s: string, i: nat, k: nat)
    requires i <= |s| && Advances(mt)
    requires k + 1 < |MatchesFrom(mt, s, i)|
    ensures var r := MatchesFrom(mt, s, i);
      forall m :: r[k].end <= m < r[k + 1].start ==> mt(s, m).None?
    decreases k
  {
    var sp := Search(mt, s, i).value;
    var rest := MatchesFrom(mt, s, sp.end);
    assert MatchesFrom(mt, s, i) == [sp] + rest;
    if k == 0 {
      assert rest[0] == Search(mt, s, sp.end).value;
    } else {
      MatchesFromGap(mt, s, sp.end, k - 1);
      assert ([sp] + rest)[k] == rest[k - 1] && ([sp] + rest)[k + 1] == rest[k];
    }
  }

  /** After the last match, or from `i` when there is none, the pattern
      matches nowhere. */
  lemma {:induction false} MatchesFromTail(mt: Matcher, s: string, i: nat)
    requires i <= |s| && Advances(mt)
    ensures var r := MatchesFrom(mt, s, i);
      forall m :: (if |r| == 0 then i else r[|r| - 1].end) <= m <= |s| ==> mt(s, m).None?
    decreases |s| - i
  {
    var sp := Search(mt, s, i);
    if sp.Some? {
      var rest := MatchesFrom(mt, s, sp.value.end);
      MatchesFromTail(mt, s, sp.value.end);
      assert MatchesFrom(mt, s, i) == [sp.value] + rest;
      if |rest| > 0 {
        assert ([sp.value] + rest)[|rest|] == rest[|rest| - 1];
      }
    }
  }

  /** What a match is replaced by, computed from the text and the match. */
  type Template = (string, Span) -> string

  /** A fixed replacement. */
  function Const(x: string): Template {
    (t: string, sp: Span) => x
  }

  /** The match without its first and last `d` characters, between `open`
      and `close` (the "$1" of a delimited pattern). */
  function Wrap(d: nat, open: string, close: string): Template {
    (t: string, sp: Span) =>
      if sp.start + 2 * d <= sp.end <= |t| then open + t[sp.start + d..sp.end - d] + close else ""
  }

  /** A global replace from `i`. */
  function ReplaceFrom(mt: Matcher, sub: Template, s: string, i: nat): string
    requires i <= |s| && Advances(mt)
    decreases |s| - i
  {
    var m := Search(mt, s, i);
    if m.None? then s[i..]
    else s[i..m.value.start] + sub(s, m.value) + ReplaceFrom(mt, sub, s, m.value.end)
  }

  /** A global replace copies the text up to the first match, substitutes
      it and goes on after it; without a match it copies the rest. */
  lemma ReplaceFromStep(mt: Matcher, sub: Template, s: string, i: nat)
    requires i <= |s| && Advances(mt)
    ensures var m := Search(mt, s, i);
      ReplaceFrom(mt, sub, s, i)
      == if m.None? then s[i..] else s[i..m.value.start] + sub(s, m.value) + ReplaceFrom(mt, sub, s, m.value.end)
  {
  }

  /** `s.replace(/pattern/g, replacement)`. */
  function ReplaceAll(mt: Matcher, sub: Template, s: string): string
    requires Advances(mt)
  {
    ReplaceFrom(mt, sub, s, 0)
  }

  // ---------------------------------------------------------------------
  // replacing single characters

  /** Every `c` in `s` replaced by `sub`, character by character. */
  function SubstChar(s: string, c: char, sub: string): string
    decreases |s|
  {
    if |s| == 0 then "" else (if s[0] == c then sub else [s[0]]) + SubstChar(s[1..], c, sub)
  }

  lemma {:induction false} SubstCharAppend(a: string, b: string, c: char, sub: string)
    ensures SubstChar(a + b, c, sub) == SubstChar(a, c, sub) + SubstChar(b, c, sub)
    decreases |a|
  {
    if |a| > 0 {
      assert (a + b)[1..] == a[1..] + b;
      SubstCharAppend(a[1..], b, c, sub);
    } else {
      assert a + b == b;
    }
  }

  /** Text without `c` is left alone. */
  lemma {:induction false} SubstCharAbsent(s: string, c: char, sub: string)
    requires c !in s
    ensures SubstChar(s, c, sub) == s
    decreases |s|
  {
    if |s| > 0 {
      SubstCharAbsent(s[1..], c, sub);
    }
  }

  /** A one-character pattern always advances. */
  lemma LiteralAdvances(c: char)
    ensures Advances(Literal(c))
  {
    forall t: string, k: nat | Literal(c)(t, k).Some? ensures k < Literal(c)(t, k).value <= |t| {
      assert Literal(c)(t, k) == LiteralEnd(c, t, k);
    }
  }

  /** One step of a global replace of one character: the text up to the
      first occurrence has none, and that occurrence is replaced. */
  lemma ReplaceLiteralStep(c: char, sub: string, s: string, i: nat) returns (stop: nat)
    requires i <= |s|
    ensures i <= stop <= |s| && c !in s[i..stop]
    ensures stop == |s| ==> ReplaceFrom(Literal(c), Const(sub), s, i) == s[i..]
    ensures stop < |s| ==> (s[stop] == c
      && ReplaceFrom(Literal(c), Const(sub), s, i) == s[i..stop] + sub + ReplaceFrom(Literal(c), Const(sub), s, stop + 1))
  {
    LiteralAdvances(c);
    var m := Search(Literal(c), s, i);
    stop := if m.None? then |s| else m.value.start;
    forall k | i <= k < stop ensures s[k] != c {
      assert Literal(c)(s, k).None?;
    }
    if m.None? {
      assert s[i..stop] == s[i..];
    } else {
      assert Literal(c)(s, stop) == Some(stop + 1);
    }
  }

  /** A global replace of one character replaces every occurrence of it. */
  lemma {:induction false} ReplaceLiteralIsSubst(c: char, sub: string, s: string, i: nat)
    requires i <= |s|
    ensures ReplaceFrom(Literal(c), Const(sub), s, i) == SubstChar(s[i..], c, sub)
    decreases |s| - i
  {
    var stop := ReplaceLiteralStep(c, sub, s, i);
    if stop < |s| {
      ReplaceLiteralIsSubst(c, sub, s, stop + 1);
      assert SubstChar(s[i..], c, sub) == s[i..stop] + sub + SubstChar(s[stop + 1..], c, sub) by {
        SubstCharAbsent(s[i..stop], c, sub);
        assert s[i..] == s[i..stop] + [s[stop]] + s[stop + 1..];
        SubstCharAppend(s[i..stop] + [s[stop]], s[stop + 1..], c, sub);
        SubstCharAppend(s[i..stop], [s[stop]], c, sub);
        assert SubstChar([s[stop]], c, sub) == sub;
      }
    } else {
      SubstCharAbsent(s[i..], c, sub);
    }
  }

  // ---------------------------------------------------------------------
  // collapsing line feeds

  /** No three line feeds in a row. */
  predicate NoTripleNewline(t: string) {
    forall k :: 0 <= k && k + 2 < |t| ==> !(t[k] == '\n' && t[k + 1] == '\n' && t[k + 2] == '\n')
  }

  /** Two texts without three line feeds in a row join without them, unless
      both sides of the seam are line feeds. */
  lemma JoinNoTriple(a: string, b: string)
    requires NoTripleNewline(a) && NoTripleNewline(b)
    requires |a| == 0 || |b| == 0 || a[|a| - 1] != '\n' || b[0] != '\n'
    ensures NoTripleNewline(a + b)
  {
    var t := a + b;
    forall k | 0 <= k && k + 2 < |t| ensures !(t[k] == '\n' && t[k + 1] == '\n' && t[k + 2] == '\n') {
      if k + 2 < |a| {
        assert t[k] == a[k] && t[k + 1] == a[k + 1] && t[k + 2] == a[k + 2];
      } else if k >= |a| {
        assert t[k] == b[k - |a|] && t[k + 1] == b[k + 1 - |a|] && t[k + 2] == b[k + 2 - |a|];
      } else {
        assert t[|a| - 1] == a[|a| - 1] && t[|a|] == b[0];
      }
    }
  }

  /** The text a collapse copies before its first run has no three line
      feeds in a row, and a run found is neither preceded nor followed by a
      line feed. */
  lemma CollapseStep(s: string, i: nat) returns (stop: nat)
    requires i <= |s|
    ensures i <= stop <= |s| && NoTripleNewline(s[i..stop])
    ensures Search(NewlineRunEnd, s, i).None? ==> stop == |s|
    ensures Search(NewlineRunEnd, s, i).Some? ==> var e := Search(NewlineRunEnd, s, i).value.end;
      stop == Search(NewlineRunEnd, s, i).value.start
      && (stop == i || s[stop - 1] != '\n') && (e == |s| || s[e] != '\n')
  {
    var m := Search(NewlineRunEnd, s, i);
    stop := if m.None? then |s| else m.value.start;
    var prefix := s[i..stop];
    forall k | 0 <= k && k + 2 < |prefix| ensures !(prefix[k] == '\n' && prefix[k + 1] == '\n' && prefix[k + 2] == '\n') {
      assert NewlineRunEnd(s, i + k).None?;
      assert prefix[k] == s[i + k] && prefix[k + 1] == s[i + k + 1] && prefix[k + 2] == s[i + k + 2];
    }
    if m.Some? && stop > i {
      assert NewlineRunEnd(s, stop - 1).None?;
    }
  }

  /** A collapse from a position that does not hold a line feed starts with
      the character there. */
  lemma CollapseStart(s: string, e: nat)
    requires e < |s| && s[e] != '\n'
    ensures var rest := ReplaceFrom(NewlineRunEnd, Const("\n\n"), s, e); |rest| > 0 && rest[0] == s[e]
  {
    assert NewlineRunEnd(s, e).None?;
    var m := Search(NewlineRunEnd, s, e);
    if m.Some? {
      assert s[e..m.value.start][0] == s[e];
    }
  }

  /** Two line feeds between a piece of `s` and a text, neither with three
      line feeds in a row and neither touching the seam with a line feed,
      make no three in a row either. */
  lemma CollapseJoin(s: string, i: nat, stop: nat, rest: string)
    requires i <= stop <= |s| && NoTripleNewline(s[i..stop]) && NoTripleNewline(rest)
    requires stop == i || s[stop - 1] != '\n'
    requires |rest| == 0 || rest[0] != '\n'
    ensures NoTripleNewline(s[i..stop] + "\n\n" + rest)
  {
    var a := s[i..stop];
    assert |a| == 0 || a[|a| - 1] == s[stop - 1];
    JoinNoTriple("\n\n", rest);
    JoinNoTriple(a, "\n\n" + rest);
    assert a + "\n\n" + rest == a + ("\n\n" + rest);
  }

  /** Collapsing leaves no run of three or more line feeds. */
  lemma {:induction false} CollapseLeavesNoTriple(s: string, i: nat)
    requires i <= |s|
    ensures NoTripleNewline(ReplaceFrom(NewlineRunEnd, Const("\n\n"), s, i))
    decreases |s| - i
  {
    var stop := CollapseStep(s, i);
    var m := Search(NewlineRunEnd, s, i);
    if m.Some? {
      var e := m.value.end;
      CollapseLeavesNoTriple(s, e);
      var rest := ReplaceFrom(NewlineRunEnd, Const("\n\n"), s, e);
      if e < |s| {
        CollapseStart(s, e);
      }
      CollapseJoin(s, i, stop, rest);
      ReplaceFromStep(NewlineRunEnd, Const("\n\n"), s, i);
    } else {
      ReplaceFromStep(NewlineRunEnd, Const("\n\n"), s, i);
      assert s[i..stop] == s[i..];
    }
  }
}
