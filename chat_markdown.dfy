/** `parseMarkdown` of the chat client (src/lib/n8nChat.ts): the PDF links
    of the clickable images, the removal of the images, the protection of
    links and bare URLs behind numbered placeholders, HTML escaping, inline
    formatting, line breaks, the restoring of the placeholders and the
    trailing list of PDF links. Every regular expression is a scanner from
    ChatScan. */
module ChatMarkdown {
  import opened Wrappers
  import opened Text
  import opened ChatScan
  import opened ChatImages

  // ---------------------------------------------------------------------
  // the PDF links of the clickable images

  /** A link to a PDF page, listed under the reply. */
  datatype PdfLink = PdfLink(title: string, url: string)

  /** "#page=" and one or more digits, as many as there are. */
  function PageAnchorEnd(s: string, i: nat): (r: Option<nat>)
    ensures r.Some? ==> i + 6 < r.value <= |s|
  {
    if !(i + 6 <= |s| && s[i..i + 6] == "#page=") then None
    else
      var e := RunOf(s, i + 6, IsDigit);
      if e == i + 6 then None else Some(e)
  }

  /** A match covers "#page=" and the whole digit run after it; there is
      one exactly when "#page=" is followed by a digit. */
  lemma PageAnchorEndSpec(s: string, i: nat)
    ensures var r := PageAnchorEnd(s, i);
      && (r.Some? ==> (s[i..i + 6] == "#page=" && (forall m :: i + 6 <= m < r.value ==> IsDigit(s[m]))
                       && (r.value == |s| || !IsDigit(s[r.value]))))
      && (r.None? <==> !(i + 6 < |s| && s[i..i + 6] == "#page=" && IsDigit(s[i + 6])))
  {
    if i + 6 <= |s| && s[i..i + 6] == "#page=" {
      var e := RunOf(s, i + 6, IsDigit);
      assert forall m :: i + 6 <= m < e ==> IsDigit(s[m]);
    }
  }

  /** The digits of the first "#page=" anchor of a URL. */
  function PageOf(url: string): (r: Option<string>)
    ensures r.Some? ==> |r.value| >= 1 && forall k :: 0 <= k < |r.value| ==> IsDigit(r.value[k])
  {
    var m := Search(PageAnchorEnd, url, 0);
    if m.None? then None else Some(url[m.value.start + 6..m.value.end])
  }

  /** `pdfUrl.match(/#page=(\d+)/)`: the page is the digit run of the
      leftmost anchor, and there is none exactly when no position holds an
      anchor. */
  lemma PageOfSpec(url: string)
    ensures PageOf(url).None? <==> forall k :: 0 <= k <= |url| ==> PageAnchorEnd(url, k).None?
    ensures PageOf(url).Some? ==> exists k :: (0 <= k <= |url| && PageAnchorEnd(url, k).Some?
                                               && (forall j :: 0 <= j < k ==> PageAnchorEnd(url, j).None?)
                                               && PageOf(url).value == url[k + 6..PageAnchorEnd(url, k).value])
  {
    var m := Search(PageAnchorEnd, url, 0);
    if m.Some? {
      assert PageAnchorEnd(url, m.value.start).Some?;
    }
  }

  predicate NotSlash(c: char) { c != '/' }

  /** ".pdf" at `j`, in any ASCII case. */
  predicate DotPdfAt(s: string, j: nat) {
    j + 4 <= |s| && s[j] == '.' && LowerChar(s[j + 1]) == 'p'
    && LowerChar(s[j + 2]) == 'd' && LowerChar(s[j + 3]) == 'f'
  }

  /** The last ".pdf" that starts at or after `lo` and ends by `hi`. */
  function LastDotPdf(s: string, lo: nat, hi: nat): (r: Option<nat>)
    requires hi <= |s|
    ensures r.Some? ==> lo <= r.value && r.value + 4 <= hi && DotPdfAt(s, r.value)
    ensures r.Some? ==> forall j :: r.value < j && j + 4 <= hi ==> !DotPdfAt(s, j)
    ensures r.None? ==> forall j :: lo <= j && j + 4 <= hi ==> !DotPdfAt(s, j)
    decreases hi
  {
    if hi < lo + 4 then None
    else if DotPdfAt(s, hi - 4) then Some(hi - 4)
    else LastDotPdf(s, lo, hi - 1)
  }

  /** A file name at `i`, case-insensitively: one or more characters other
      than '/', then ".pdf". The greedy run gives back characters until the
      name ends at the last ".pdf" of the run. */
  function PdfNameEnd(s: string, i: nat): (r: Option<nat>)
    ensures r.Some? ==> i < r.value <= |s|
  {
    if !(i < |s| && s[i] != '/') then None
    else
      var e := RunOf(s, i, NotSlash);
      var j := LastDotPdf(s, i + 1, e);
      if j.None? then None else Some(j.value + 4)
  }

  /** `[^/]+\.pdf`: a match is '/'-free text ending in ".pdf" that ends at
      the last ".pdf" of the '/'-free run; there is none exactly when that
      run holds no ".pdf" after its first character. */
  lemma PdfNameEndSpec(s: string, i: nat)
    ensures var r := PdfNameEnd(s, i);
      && (r.Some? ==> (i + 5 <= r.value && DotPdfAt(s, r.value - 4)
                       && (forall m :: i <= m < r.value ==> s[m] != '/')
                       && forall j :: r.value - 4 < j && j + 4 <= RunOf(s, i, NotSlash) ==> !DotPdfAt(s, j)))
      && (r.None? <==> (i >= |s|
                        || forall j :: i + 1 <= j && j + 4 <= RunOf(s, i, NotSlash) ==> !DotPdfAt(s, j)))
  {
    if i < |s| && s[i] != '/' {
      var e := RunOf(s, i, NotSlash);
      var j := LastDotPdf(s, i + 1, e);
      if j.Some? {
        assert forall m :: i <= m < j.value + 4 ==> NotSlash(s[m]);
      }
    }
  }

  /** The first PDF file name in a text. */
  function PdfNameIn(s: string): Option<string> {
    var m := Search(PdfNameEnd, s, 0);
    if m.None? then None else Some(s[m.value.start..m.value.end])
  }

  /** A file name found is a piece of the text without '/', ending in
      ".pdf", and no file name starts further left. */
  lemma PdfNameShape(s: string)
    ensures PdfNameIn(s).Some? ==> var n := PdfNameIn(s).value;
      |n| >= 5 && '/' !in n && DotPdfAt(n, |n| - 4)
      && exists a: nat :: a <= |s| && StartsWith(s[a..], n) && forall k :: 0 <= k < a ==> PdfNameEnd(s, k).None?
    ensures PdfNameIn(s).None? <==> forall k :: 0 <= k <= |s| ==> PdfNameEnd(s, k).None?
  {
    var m := Search(PdfNameEnd, s, 0);
    if m.Some? {
      var a, b := m.value.start, m.value.end;
      assert PdfNameIn(s) == Some(s[a..b]);
      PdfNameAt(s, a, b);
      assert StartsWith(s[a..], s[a..b]) by { assert s[a..][..b - a] == s[a..b]; }
      assert PdfNameEnd(s, a).Some?;
    } else {
      assert PdfNameIn(s) == None;
    }
  }

  /** A file name matched from `a` to `b`. */
  lemma PdfNameAt(s: string, a: nat, b: nat)
    requires PdfNameEnd(s, a) == Some(b)
    ensures var n := s[a..b]; |n| >= 5 && '/' !in n && DotPdfAt(n, |n| - 4)
  {
    PdfNameEndSpec(s, a);
    var n := s[a..b];
    forall k | 0 <= k < |n| ensures n[k] != '/' {
      assert n[k] == s[a + k];
    }
    assert DotPdfAt(n, |n| - 4) by {
      assert n[|n| - 4] == s[b - 4] && n[|n| - 3] == s[b - 3];
      assert n[|n| - 2] == s[b - 2] && n[|n| - 1] == s[b - 1];
    }
  }

  /** The PDF link of one clickable image: the file name is looked for in
      the alt text first, then in the link; the page, if the link has a
      "#page=" anchor, goes into the title. No file name, no link. */
  function PdfLinkOf(parts: ImageParts): (r: Option<PdfLink>)
    ensures r.Some? <==> PdfNameIn(parts.alt).Some? || PdfNameIn(parts.pdfUrl).Some?
    ensures r.Some? ==> r.value.url == parts.pdfUrl
    ensures r.Some? ==> var name := if PdfNameIn(parts.alt).Some? then PdfNameIn(parts.alt).value else PdfNameIn(parts.pdfUrl).value;
      StartsWith(r.value.title, name)
      && (PageOf(parts.pdfUrl).None? ==> r.value.title == name)
      && (PageOf(parts.pdfUrl).Some? ==> r.value.title == name + " (sida " + PageOf(parts.pdfUrl).value + ")")
  {
    var name := if PdfNameIn(parts.alt).Some? then PdfNameIn(parts.alt) else PdfNameIn(parts.pdfUrl);
    if name.None? then None
    else
      var page := PageOf(parts.pdfUrl);
      var title := if page.Some? then name.value + " (sida " + page.value + ")" else name.value;
      assert title[..|name.value|] == name.value;
      Some(PdfLink(title, parts.pdfUrl))
  }

  /** The links of a list of captures, in order; a capture without one adds nothing. */
  function LinksOf(caps: seq<ImageParts>, link: ImageParts -> Option<PdfLink>): (r: seq<PdfLink>)
    ensures |r| <= |caps|
    decreases |caps|
  {
    if |caps| == 0 then []
    else
      var l := link(caps[|caps| - 1]);
      LinksOf(caps[..|caps| - 1], link) + (if l.Some? then [l.value] else [])
  }

  /** Every link comes from a capture, and every capture with a link adds it. */
  lemma {:induction false} LinksOfMembership(caps: seq<ImageParts>, link: ImageParts -> Option<PdfLink>, l: PdfLink)
    ensures l in LinksOf(caps, link) <==> exists k :: 0 <= k < |caps| && link(caps[k]) == Some(l)
    decreases |caps|
  {
    if |caps| > 0 {
      var init := caps[..|caps| - 1];
      LinksOfMembership(init, link, l);
      if exists k :: 0 <= k < |caps| && link(caps[k]) == Some(l) {
        var k :| 0 <= k < |caps| && link(caps[k]) == Some(l);
        if k < |caps| - 1 {
          assert init[k] == caps[k];
        }
      }
      if exists k :: 0 <= k < |init| && link(init[k]) == Some(l) {
        var k :| 0 <= k < |init| && link(init[k]) == Some(l);
        assert caps[k] == init[k];
      }
    }
  }

  /** The PDF links of a reply, one per clickable image whose alt text or
      link names a PDF file. */
  function PdfLinks(text: string): seq<PdfLink> {
    LinksOf(ClickableCaptures(text), PdfLinkOf)
  }

  /** Each PDF link points where a clickable image of the reply links to,
      and that image names a PDF file. */
  lemma PdfLinksFromClickable(text: string, l: PdfLink)
    requires l in PdfLinks(text)
    ensures exists k :: (0 <= k < |ClickableCaptures(text)|
      && l.url == ClickableCaptures(text)[k].pdfUrl
      && (PdfNameIn(ClickableCaptures(text)[k].alt).Some? || PdfNameIn(ClickableCaptures(text)[k].pdfUrl).Some?))
  {
    LinksOfMembership(ClickableCaptures(text), PdfLinkOf, l);
  }

  /** One turn of the `exec` loop that collects the PDF links: the capture
      at the next match moves from the rest to the captures seen, and adds
      its link, if any. */
  lemma CollectLinksStep(find: Matcher, at: Capturer, link: ImageParts -> Option<PdfLink>, s: string,
                         i: nat, caps: seq<ImageParts>)
    requires i <= |s| && Advances(find) && Agrees(find, at) && Search(find, s, i).Some?
    requires caps + CapturesFrom(find, at, s, i) == CapturesFrom(find, at, s, 0)
    ensures var m := Search(find, s, i).value;
      var parts := at(s, m.start).value;
      && (caps + [parts]) + CapturesFrom(find, at, s, m.end) == CapturesFrom(find, at, s, 0)
      && LinksOf(caps + [parts], link) == LinksOf(caps, link) + (if link(parts).Some? then [link(parts).value] else [])
  {
    var m := Search(find, s, i).value;
    var parts := at(s, m.start).value;
    var rest := CapturesFrom(find, at, s, m.end);
    assert CapturesFrom(find, at, s, i) == [parts] + rest;
    assert (caps + [parts]) + rest == caps + ([parts] + rest);
    assert (caps + [parts])[..|caps|] == caps;
  }

  /** The `exec` loop over the clickable images that collects the PDF links. */
  method CollectLinks(find: Matcher, at: Capturer, link: ImageParts -> Option<PdfLink>, s: string)
    returns (links: seq<PdfLink>)
    requires Advances(find) && Agrees(find, at)
    ensures links == LinksOf(CapturesFrom(find, at, s, 0), link)
  {
    links := [];
    var lastIndex := 0;
    ghost var caps: seq<ImageParts> := [];
    var m := Search(find, s, lastIndex);
    while m.Some?
      invariant lastIndex <= |s|
      invariant m == Search(find, s, lastIndex)
      invariant caps + CapturesFrom(find, at, s, lastIndex) == CapturesFrom(find, at, s, 0)
      invariant links == LinksOf(caps, link)
      decreases |s| - lastIndex
    {
      CollectLinksStep(find, at, link, s, lastIndex, caps);
      var parts := at(s, m.value.start).value;
      var l := link(parts);
      if l.Some? {
        links := links + [l.value];
      }
      caps := caps + [parts];
      lastIndex := m.value.end;
      m := Search(find, s, lastIndex);
    }
    assert caps + [] == caps;
  }

  // ---------------------------------------------------------------------
  // placeholders

  /** What a replacement callback gives: text to put in place of the match,
      or content to set aside behind a placeholder. */
  datatype Emit = Keep(text: string) | Protect(content: string)

  type Callback = (string, Span) -> Emit

  /** The placeholder of content number `n`. */
  function Token(n: nat): (r: string)
    ensures StartsWith(r, "§§§PLACEHOLDER_") && EndsWith(r, "§§§")
  {
    "§§§PLACEHOLDER_" + NatToString(n) + "§§§"
  }

  /** Different numbers have different placeholders. */
  lemma TokensDistinct(m: nat, n: nat)
    requires m != n
    ensures Token(m) != Token(n)
  {
    if Token(m) == Token(n) {
      var a, b := NatToString(m), NatToString(n);
      assert |a| == |b|;
      assert a == Token(m)[15..15 + |a|] == Token(n)[15..15 + |b|] == b;
      NatToStringRoundTrip(m);
      NatToStringRoundTrip(n);
    }
  }

  /** The text after a replace pass and the placeholder contents so far. */
  datatype Protected = Protected(text: string, placeholders: seq<string>)

  /** A global replace from `i` whose callback may set content aside: each
      set-aside content is pushed and the match becomes its placeholder. */
  function ProtectFrom(find: Matcher, cb: Callback, s: string, i: nat, ph: seq<string>): (r: Protected)
    requires i <= |s| && Advances(find)
    ensures |ph| <= |r.placeholders| && r.placeholders[..|ph|] == ph
    ensures Search(find, s, i).None? ==> r == Protected(s[i..], ph)
    decreases |s| - i
  {
    var m := Search(find, s, i);
    if m.None? then Protected(s[i..], ph)
    else
      var e := cb(s, m.value);
      var out := if e.Keep? then e.text else Token(|ph|);
      var ph' := if e.Keep? then ph else ph + [e.content];
      var rest := ProtectFrom(find, cb, s, m.value.end, ph');
      assert rest.placeholders[..|ph|] == rest.placeholders[..|ph'|][..|ph|];
      Protected(s[i..m.value.start] + out + rest.text, rest.placeholders)
  }

  /** One step of a protecting pass. */
  lemma ProtectStep(find: Matcher, cb: Callback, s: string, i: nat, ph: seq<string>)
    requires i <= |s| && Advances(find) && Search(find, s, i).Some?
    ensures var m := Search(find, s, i).value;
      var e := cb(s, m);
      var ph' := if e.Keep? then ph else ph + [e.content];
      var rest := ProtectFrom(find, cb, s, m.end, ph');
      ProtectFrom(find, cb, s, i, ph)
      == Protected(s[i..m.start] + (if e.Keep? then e.text else Token(|ph|)) + rest.text, rest.placeholders)
  {
  }

  lemma Regroup(a: string, b: string, c: string, d: string)
    ensures a + (b + c + d) == a + b + c + d
  {
  }

  /** `html.replace(/pattern/g, callback)` with a callback that may call
      `addPlaceholder`. */
  method ProtectAll(find: Matcher, cb: Callback, s: string, ph: seq<string>)
    returns (out: string, placeholders: seq<string>)
    requires Advances(find)
    ensures Protected(out, placeholders) == ProtectFrom(find, cb, s, 0, ph)
  {
    out := "";
    placeholders := ph;
    var lastIndex := 0;
    var m := Search(find, s, lastIndex);
    ghost var whole := ProtectFrom(find, cb, s, 0, ph);
    while m.Some?
      invariant lastIndex <= |s|
      invariant m == Search(find, s, lastIndex)
      invariant out + ProtectFrom(find, cb, s, lastIndex, placeholders).text == whole.text
      invariant ProtectFrom(find, cb, s, lastIndex, placeholders).placeholders == whole.placeholders
      decreases |s| - lastIndex
    {
      ProtectStep(find, cb, s, lastIndex, placeholders);
      var e := cb(s, m.value);
      var piece: string;
      if e.Keep? {
        piece := e.text;
      } else {
        piece := Token(|placeholders|);
        placeholders := placeholders + [e.content];
      }
      ghost var rest := ProtectFrom(find, cb, s, m.value.end, placeholders);
      Regroup(out, s[lastIndex..m.value.start], piece, rest.text);
      out := out + s[lastIndex..m.value.start] + piece;
      lastIndex := m.value.end;
      m := Search(find, s, lastIndex);
    }
    out := out + s[lastIndex..];
  }

  /** An anchor that opens `url` in a new tab. */
  function Anchor(url: string, text: string): string {
    "<a href=\"" + url + "\" target=\"_blank\" rel=\"noopener\" class=\"text-primary underline hover:no-underline\">"
    + text + "</a>"
  }

  /** A link URL counts as safe when it starts with "http://" or "https://"
      in any ASCII case. */
  predicate IsHttpUrl(u: string) {
    StartsWith(Lower(u), "http://") || StartsWith(Lower(u), "https://")
  }

  /** The link callback: a link to an http(s) URL is set aside as an
      anchor, any other link is replaced by its bare text. */
  function LinkReplacement(s: string, sp: Span): Emit {
    var l := if sp.start <= |s| then LinkAt(s, sp.start) else None;
    if l.None? then Keep("") // not reached: the link pattern matched at `sp.start`
    else if IsHttpUrl(l.value.url) then Protect(Anchor(l.value.url, l.value.text))
    else Keep(l.value.text)
  }

  /** The bare-URL callback: the URL is set aside as an anchor to itself. */
  function RawUrlReplacement(s: string, sp: Span): Emit {
    var u := if sp.start <= sp.end <= |s| then s[sp.start..sp.end] else "";
    Protect(Anchor(u, u))
  }

  /** A pass over a text that the pattern matches as a whole, once. */
  lemma SingleMatch(find: Matcher, cb: Callback, s: string, ph: seq<string>)
    requires Advances(find)
    requires Search(find, s, 0) == Some(Span(0, |s|)) && Search(find, s, |s|).None?
    ensures var e := cb(s, Span(0, |s|));
      ProtectFrom(find, cb, s, 0, ph)
      == if e.Keep? then Protected(e.text, ph) else Protected(Token(|ph|), ph + [e.content])
  {
    var e := cb(s, Span(0, |s|));
    var out := if e.Keep? then e.text else Token(|ph|);
    var ph' := if e.Keep? then ph else ph + [e.content];
    var rest := ProtectFrom(find, cb, s, |s|, ph');
    assert rest == Protected([], ph');
    assert ProtectFrom(find, cb, s, 0, ph) == Protected(s[0..0] + out + rest.text, rest.placeholders);
    assert s[0..0] + out + [] == out;
  }

  /** A text that is one markdown link, "[t](u)", is matched as a whole. */
  lemma SingleLink(t: string, u: string)
    requires |t| > 0 && ']' !in t && |u| > 0 && ')' !in u
    ensures var s := "[" + t + "](" + u + ")";
      LinkAt(s, 0) == Some(LinkParts(t, u, |s|))
      && Search(LinkEnd, s, 0) == Some(Span(0, |s|)) && Search(LinkEnd, s, |s|).None?
  {
    var s := "[" + t + "](" + u + ")";
    var b := 1 + |t|;
    assert s[1..b] == t && s[b] == ']' && s[b + 1] == '(';
    forall k | 1 <= k < b ensures NotCloseBracket(s[k]) {
      assert s[k] == t[k - 1];
    }
    RunOfStops(s, 1, b, NotCloseBracket);
    var d := b + 2 + |u|;
    assert s[b + 2..d] == u && s[d] == ')' && d + 1 == |s|;
    forall k | b + 2 <= k < d ensures NotCloseParen(s[k]) {
      assert s[k] == u[k - b - 2];
    }
    RunOfStops(s, b + 2, d, NotCloseParen);
  }

  /** A link to a URL that is not http(s) becomes its bare text; nothing is
      set aside. */
  lemma UnsafeLinkBecomesText(t: string, u: string, ph: seq<string>)
    requires |t| > 0 && ']' !in t && |u| > 0 && ')' !in u && !IsHttpUrl(u)
    ensures ProtectFrom(LinkEnd, LinkReplacement, "[" + t + "](" + u + ")", 0, ph) == Protected(t, ph)
  {
    var s := "[" + t + "](" + u + ")";
    SingleLink(t, u);
    SingleMatch(LinkEnd, LinkReplacement, s, ph);
    assert LinkReplacement(s, Span(0, |s|)) == Keep(t);
  }

  /** A link to an http(s) URL becomes the next placeholder, and its anchor
      is pushed. */
  lemma SafeLinkBecomesPlaceholder(t: string, u: string, ph: seq<string>)
    requires |t| > 0 && ']' !in t && |u| > 0 && ')' !in u && IsHttpUrl(u)
    ensures ProtectFrom(LinkEnd, LinkReplacement, "[" + t + "](" + u + ")", 0, ph)
         == Protected(Token(|ph|), ph + [Anchor(u, t)])
  {
    var s := "[" + t + "](" + u + ")";
    SingleLink(t, u);
    SingleMatch(LinkEnd, LinkReplacement, s, ph);
    assert LinkReplacement(s, Span(0, |s|)) == Protect(Anchor(u, t));
  }

  /** A text that is one bare URL becomes the next placeholder, and an
      anchor to the URL is pushed. */
  lemma BareUrlBecomesPlaceholder(scheme: string, rest: string, ph: seq<string>)
    requires scheme == "http://" || scheme == "https://"
    requires |rest| > 0 && forall k :: 0 <= k < |rest| ==> IsUrlChar(rest[k])
    ensures ProtectFrom(RawUrlEnd, RawUrlReplacement, scheme + rest, 0, ph)
         == Protected(Token(|ph|), ph + [Anchor(scheme + rest, scheme + rest)])
  {
    SingleRawUrl(scheme, rest);
    WholeUrlProtected(scheme + rest, ph);
  }

  /** A text the bare-URL pattern matches once, as a whole, becomes one
      placeholder. */
  lemma WholeUrlProtected(s: string, ph: seq<string>)
    requires Search(RawUrlEnd, s, 0) == Some(Span(0, |s|)) && Search(RawUrlEnd, s, |s|).None?
    ensures ProtectFrom(RawUrlEnd, RawUrlReplacement, s, 0, ph) == Protected(Token(|ph|), ph + [Anchor(s, s)])
  {
    MarkdownPatterns();
    assert RawUrlReplacement(s, Span(0, |s|)) == Protect(Anchor(s, s)) by {
      assert s[0..|s|] == s;
    }
    SingleMatch(RawUrlEnd, RawUrlReplacement, s, ph);
  }

  /** A text that is one bare URL is matched once, as a whole. */
  lemma SingleRawUrl(scheme: string, rest: string)
    requires scheme == "http://" || scheme == "https://"
    requires |rest| > 0 && forall k :: 0 <= k < |rest| ==> IsUrlChar(rest[k])
    ensures var s := scheme + rest;
      Search(RawUrlEnd, s, 0) == Some(Span(0, |s|)) && Search(RawUrlEnd, s, |s|).None?
  {
    var s := scheme + rest;
    assert s[..|scheme|] == scheme;
    assert scheme == "http://" ==> s[4] == ':';
    forall k | |scheme| <= k < |s| ensures IsUrlChar(s[k]) {
      assert s[k] == rest[k - |scheme|];
    }
    RunOfStops(s, |scheme|, |s|, IsUrlChar);
    assert RawUrlEnd(s, 0) == Some(|s|);
    assert Search(RawUrlEnd, s, |s|).None?;
  }

  /** A protecting pass sets aside only contents with property `P` when
      the callback sets aside only such contents at the pattern's matches. */
  lemma {:induction false} ProtectedSatisfy(find: Matcher, cb: Callback, s: string, i: nat, ph: seq<string>,
                                            P: string -> bool)
    requires i <= |s| && Advances(find)
    requires forall sp: Span ::
               (i <= sp.start < sp.end <= |s| && find(s, sp.start) == Some(sp.end) && cb(s, sp).Protect?)
               ==> P(cb(s, sp).content)
    ensures var r := ProtectFrom(find, cb, s, i, ph);
      forall j :: |ph| <= j < |r.placeholders| ==> P(r.placeholders[j])
    decreases |s| - i
  {
    var m := Search(find, s, i);
    if m.Some? {
      var e := cb(s, m.value);
      var ph' := if e.Keep? then ph else ph + [e.content];
      ProtectStep(find, cb, s, i, ph);
      ProtectedSatisfy(find, cb, s, m.value.end, ph', P);
      var q := ProtectFrom(find, cb, s, m.value.end, ph').placeholders;
      assert ProtectFrom(find, cb, s, i, ph).placeholders == q;
      forall j | |ph| <= j < |q|
        ensures P(q[j])
      {
        if j < |ph'| {
          assert q[j] == q[..|ph'|][j] == ph'[j] == e.content;
        }
      }
    }
  }

  /** `a` is the anchor of an http(s) link "[text](url)" found in `s`. */
  ghost predicate SafeLinkAnchorIn(s: string, a: string) {
    exists p :: 0 <= p < |s| && LinkAt(s, p).Some? && IsHttpUrl(LinkAt(s, p).value.url)
                && a == Anchor(LinkAt(s, p).value.url, LinkAt(s, p).value.text)
  }

  /** In any reply, the link pass sets aside only anchors of http(s) links
      found in the text: a link to any other URL is never put behind a
      placeholder. */
  lemma LinkPassSetsAsideSafeAnchors(s: string, ph: seq<string>)
    ensures var r := ProtectFrom(LinkEnd, LinkReplacement, s, 0, ph);
      forall j :: |ph| <= j < |r.placeholders| ==> SafeLinkAnchorIn(s, r.placeholders[j])
  {
    var P := (a: string) => SafeLinkAnchorIn(s, a);
    forall sp: Span | 0 <= sp.start < sp.end <= |s| && LinkEnd(s, sp.start) == Some(sp.end)
                      && LinkReplacement(s, sp).Protect?
      ensures P(LinkReplacement(s, sp).content)
    {
      SafeLinkSetAside(s, sp);
    }
    ProtectedSatisfy(LinkEnd, LinkReplacement, s, 0, ph, P);
  }

  /** The link callback sets a link aside only as the anchor of an http(s)
      link. */
  lemma SafeLinkSetAside(s: string, sp: Span)
    requires 0 <= sp.start < sp.end <= |s| && LinkEnd(s, sp.start) == Some(sp.end)
    requires LinkReplacement(s, sp).Protect?
    ensures SafeLinkAnchorIn(s, LinkReplacement(s, sp).content)
  {
    var p := sp.start;
    var l := LinkAt(s, p);
    assert l.Some? && IsHttpUrl(l.value.url);
    assert LinkReplacement(s, sp) == Protect(Anchor(l.value.url, l.value.text));
  }

  /** `a` is the anchor of a bare http(s) URL found in `s`, linking to
      itself. */
  ghost predicate SelfAnchorIn(s: string, a: string) {
    exists p, q :: 0 <= p < q <= |s| && RawUrlAt(s, p) == Some(q)
                   && (StartsWith(s[p..q], "http://") || StartsWith(s[p..q], "https://"))
                   && a == Anchor(s[p..q], s[p..q])
  }

  /** In any text, the bare-URL pass sets aside only anchors of the http(s)
      URLs found in the text, each linking to itself. */
  lemma RawUrlPassSetsAsideSelfAnchors(s: string, ph: seq<string>)
    ensures var r := ProtectFrom(RawUrlEnd, RawUrlReplacement, s, 0, ph);
      forall j :: |ph| <= j < |r.placeholders| ==> SelfAnchorIn(s, r.placeholders[j])
  {
    var P := (a: string) => SelfAnchorIn(s, a);
    forall sp: Span | 0 <= sp.start < sp.end <= |s| && RawUrlEnd(s, sp.start) == Some(sp.end)
      ensures P(RawUrlReplacement(s, sp).content)
    {
      UrlSetAside(s, sp);
    }
    ProtectedSatisfy(RawUrlEnd, RawUrlReplacement, s, 0, ph, P);
  }

  /** The bare-URL callback sets aside the anchor of the matched URL. */
  lemma UrlSetAside(s: string, sp: Span)
    requires 0 <= sp.start < sp.end <= |s| && RawUrlEnd(s, sp.start) == Some(sp.end)
    ensures SelfAnchorIn(s, RawUrlReplacement(s, sp).content)
  {
    var p, q := sp.start, sp.end;
    assert RawUrlAt(s, p) == Some(q);
    var u := s[p..q];
    assert RawUrlReplacement(s, sp) == Protect(Anchor(u, u));
    if StartsWith(s[p..], "https://") {
      assert u[..8] == s[p..][..8];
      assert StartsWith(u, "https://");
    } else {
      assert u[..7] == s[p..][..7];
      assert StartsWith(u, "http://");
    }
  }

  // ---------------------------------------------------------------------
  // escaping

  /** The HTML escape of one character. */
  function EscapeChar(c: char): string {
    if c == '&' then "&amp;" else if c == '<' then "&lt;" else if c == '>' then "&gt;" else [c]
  }

  /** The HTML escape of a text, character by character. */
  function EscapeHtml(s: string): (r: string)
    ensures '<' !in r && '>' !in r
    decreases |s|
  {
    if |s| == 0 then "" else EscapeChar(s[0]) + EscapeHtml(s[1..])
  }

  /** The text an escaped text stands for. */
  function Unescape(s: string): string
    decreases |s|
  {
    if |s| == 0 then ""
    else if StartsWith(s, "&amp;") then "&" + Unescape(s[5..])
    else if StartsWith(s, "&lt;") then "<" + Unescape(s[4..])
    else if StartsWith(s, "&gt;") then ">" + Unescape(s[4..])
    else [s[0]] + Unescape(s[1..])
  }

  lemma UnescapeChar(c: char, rest: string)
    ensures Unescape(EscapeChar(c) + rest) == [c] + Unescape(rest)
  {
    var s := EscapeChar(c) + rest;
    if c == '&' {
      assert StartsWith(s, "&amp;") && s[5..] == rest;
      assert Unescape(s) == "&" + Unescape(rest);
    } else if c == '<' {
      assert !StartsWith(s, "&amp;") by { assert s[1] == 'l'; }
      assert StartsWith(s, "&lt;") && s[4..] == rest;
      assert Unescape(s) == "<" + Unescape(rest);
    } else if c == '>' {
      assert !StartsWith(s, "&amp;") && !StartsWith(s, "&lt;") by { assert s[1] == 'g'; }
      assert StartsWith(s, "&gt;") && s[4..] == rest;
      assert Unescape(s) == ">" + Unescape(rest);
    } else {
      assert s[0] == c && s[1..] == rest;
      assert !StartsWith(s, "&amp;") && !StartsWith(s, "&lt;") && !StartsWith(s, "&gt;");
      assert Unescape(s) == [c] + Unescape(rest);
    }
  }

  /** Escaping loses nothing: unescaping gives the text back. */
  lemma {:induction false} EscapeRoundTrip(s: string)
    ensures Unescape(EscapeHtml(s)) == s
    decreases |s|
  {
    if |s| > 0 {
      UnescapeChar(s[0], EscapeHtml(s[1..]));
      EscapeRoundTrip(s[1..]);
      assert [s[0]] + s[1..] == s;
    }
  }

  /** The three global replaces of the escape step, '&' first. */
  function EscapePasses(s: string): string {
    var amp := ReplaceAll(Literal('&'), Const("&amp;"), s);
    var lt := ReplaceAll(Literal('<'), Const("&lt;"), amp);
    ReplaceAll(Literal('>'), Const("&gt;"), lt)
  }

  function Subst3(s: string): string {
    SubstChar(SubstChar(SubstChar(s, '&', "&amp;"), '<', "&lt;"), '>', "&gt;")
  }

  lemma Subst3Append(a: string, b: string)
    ensures Subst3(a + b) == Subst3(a) + Subst3(b)
  {
    SubstCharAppend(a, b, '&', "&amp;");
    var a1, b1 := SubstChar(a, '&', "&amp;"), SubstChar(b, '&', "&amp;");
    SubstCharAppend(a1, b1, '<', "&lt;");
    SubstCharAppend(SubstChar(a1, '<', "&lt;"), SubstChar(b1, '<', "&lt;"), '>', "&gt;");
  }

  lemma SubstCharSingle(c: char, d: char, sub: string)
    ensures SubstChar([c], d, sub) == if c == d then sub else [c]
  {
    assert [c][1..] == [];
    assert SubstChar([], d, sub) == [];
  }

  lemma Subst3Char(c: char)
    ensures Subst3([c]) == EscapeChar(c)
  {
    var x := SubstChar([c], '&', "&amp;");
    var y := SubstChar(x, '<', "&lt;");
    assert Subst3([c]) == SubstChar(y, '>', "&gt;");
    SubstCharSingle(c, '&', "&amp;");
    if c == '&' {
      assert x == "&amp;";
      SubstCharAbsent(x, '<', "&lt;");
      SubstCharAbsent(y, '>', "&gt;");
    } else if c == '<' {
      assert x == [c];
      SubstCharSingle(c, '<', "&lt;");
      assert y == "&lt;";
      SubstCharAbsent(y, '>', "&gt;");
    } else {
      assert x == [c];
      SubstCharSingle(c, '<', "&lt;");
      assert y == [c];
      SubstCharSingle(c, '>', "&gt;");
    }
  }

  lemma {:induction false} Subst3IsEscape(s: string)
    ensures Subst3(s) == EscapeHtml(s)
    decreases |s|
  {
    if |s| > 0 {
      assert s == [s[0]] + s[1..];
      Subst3Append([s[0]], s[1..]);
      Subst3Char(s[0]);
      Subst3IsEscape(s[1..]);
    }
  }

  /** The three replaces escape every character, so no '<' or '>' is left
      and the text can be read back. */
  lemma EscapePassesEscape(s: string)
    ensures EscapePasses(s) == EscapeHtml(s)
  {
    var amp := ReplaceAll(Literal('&'), Const("&amp;"), s);
    ReplaceLiteralIsSubst('&', "&amp;", s, 0);
    assert s[0..] == s;
    var lt := ReplaceAll(Literal('<'), Const("&lt;"), amp);
    ReplaceLiteralIsSubst('<', "&lt;", amp, 0);
    assert amp[0..] == amp;
    ReplaceLiteralIsSubst('>', "&gt;", lt, 0);
    assert lt[0..] == lt;
    Subst3IsEscape(s);
  }

  // ---------------------------------------------------------------------
  // formatting and line breaks

  const CodeOpen := "<code class=\"bg-muted px-1 py-0.5 rounded text-xs\">"

  /** The five formatting replaces, in order: "**" and "__" to strong, "*"
      and "_" to em, back-quotes to code. */
  function Formatted(s: string): string {
    var b1 := ReplaceAll(Delimited("**"), Wrap(2, "<strong>", "</strong>"), s);
    var b2 := ReplaceAll(Delimited("__"), Wrap(2, "<strong>", "</strong>"), b1);
    var e1 := ReplaceAll(Delimited("*"), Wrap(1, "<em>", "</em>"), b2);
    var e2 := ReplaceAll(Delimited("_"), Wrap(1, "<em>", "</em>"), e1);
    ReplaceAll(CodeSpanEnd, Wrap(1, CodeOpen, "</code>"), e2)
  }

  /** A strong span on its own becomes a strong element. */
  lemma StrongExample()
    ensures ReplaceAll(Delimited("**"), Wrap(2, "<strong>", "</strong>"), "**a**") == "<strong>a</strong>"
  {
    var s := "**a**";
    assert LazyClose(s, 3, "**") == Some(3);
    assert Search(Delimited("**"), s, 0) == Some(Span(0, 5));
    assert Search(Delimited("**"), s, 5).None?;
  }

  /** Every line feed becomes "<br />". */
  function Breaks(s: string): string {
    ReplaceAll(Literal('\n'), Const("<br />"), s)
  }

  lemma {:induction false} SubstCharRemoves(s: string, c: char, sub: string)
    requires c !in sub
    ensures c !in SubstChar(s, c, sub)
    decreases |s|
  {
    if |s| > 0 {
      SubstCharRemoves(s[1..], c, sub);
    }
  }

  /** No line feed is left after the line-break step. */
  lemma BreaksLeaveNoNewline(s: string)
    ensures Breaks(s) == SubstChar(s, '\n', "<br />")
    ensures '\n' !in Breaks(s)
  {
    ReplaceLiteralIsSubst('\n', "<br />", s, 0);
    assert s[0..] == s;
    SubstCharRemoves(s, '\n', "<br />");
  }

  // ---------------------------------------------------------------------
  // restoring the placeholders

  /** Placeholders `k` onwards put back in turn, each by a replace of its
      first occurrence. */
  function Restore(html: string, ph: seq<string>, k: nat): string
    requires k <= |ph|
    decreases |ph| - k
  {
    if k == |ph| then html else Restore(ReplaceFirst(html, Token(k), ph[k]), ph, k + 1)
  }

  /** The `forEach` over the placeholders. */
  method RestorePlaceholders(html: string, ph: seq<string>) returns (out: string)
    ensures out == Restore(html, ph, 0)
  {
    out := html;
    var i := 0;
    while i < |ph|
      invariant i <= |ph|
      invariant Restore(out, ph, i) == Restore(html, ph, 0)
    {
      out := ReplaceFirst(out, Token(i), ph[i]);
      i := i + 1;
    }
  }

  /** A lone placeholder is put back as its content. */
  lemma RestoreLonePlaceholder(content: string)
    ensures Restore(Token(0), [content], 0) == content
  {
    var t := Token(0);
    ReplaceFirstAtPrefix(t, t, content);
    assert t[..|t|] == t && t[|t|..] == "";
  }

  /** Placeholders whose tokens do not occur change nothing. */
  lemma {:induction false} RestoreWithoutTokens(html: string, ph: seq<string>, k: nat)
    requires k <= |ph|
    requires forall j :: k <= j < |ph| ==> !Contains(html, Token(j))
    ensures Restore(html, ph, k) == html
    decreases |ph| - k
  {
    if k < |ph| {
      RestoreWithoutTokens(html, ph, k + 1);
    }
  }

  // ---------------------------------------------------------------------
  // the whole parse

  lemma DelimitedAdvances(delim: string)
    ensures Advances(Delimited(delim))
  {
    forall t: string, k: nat | Delimited(delim)(t, k).Some? ensures k < Delimited(delim)(t, k).value <= |t| {
      assert Delimited(delim)(t, k) == DelimitedEnd(delim, t, k);
    }
  }

  /** Every pattern of the parse advances. */
  lemma MarkdownPatterns()
    ensures Advances(ClickableBlockEnd) && Advances(PlainImageBlockEnd) && Advances(NewlineRunEnd)
    ensures Advances(LinkEnd) && Advances(RawUrlEnd) && Advances(CodeSpanEnd)
    ensures Advances(Literal('&')) && Advances(Literal('<')) && Advances(Literal('>')) && Advances(Literal('\n'))
    ensures Advances(Delimited("**")) && Advances(Delimited("__")) && Advances(Delimited("*")) && Advances(Delimited("_"))
  {
    LiteralAdvances('&');
    LiteralAdvances('<');
    LiteralAdvances('>');
    LiteralAdvances('\n');
    DelimitedAdvances("**");
    DelimitedAdvances("__");
    DelimitedAdvances("*");
    DelimitedAdvances("_");
  }

  /** The parts joined with `sep` between them. */
  function JoinWith(parts: seq<string>, sep: string): string
    decreases |parts|
  {
    if |parts| == 0 then "" else if |parts| == 1 then parts[0] else parts[0] + sep + JoinWith(parts[1..], sep)
  }

  /** The anchor of each PDF link, labelled "PDF: " and its title. */
  function PdfAnchors(links: seq<PdfLink>): (r: seq<string>)
    ensures |r| == |links|
    ensures forall k :: 0 <= k < |links| ==> r[k] == Anchor(links[k].url, "PDF: " + links[k].title)
    decreases |links|
  {
    if |links| == 0 then [] else [Anchor(links[0].url, "PDF: " + links[0].title)] + PdfAnchors(links[1..])
  }

  const PdfSectionOpen := "<br /><br /><span class=\"text-xs opacity-80\">"

  /** The text with the images removed and runs of line feeds collapsed. */
  function Stripped(text: string): string {
    var a := ReplaceAll(ClickableBlockEnd, Const(""), text);
    var b := ReplaceAll(PlainImageBlockEnd, Const(""), a);
    ReplaceAll(NewlineRunEnd, Const("\n\n"), b)
  }

  /** After the images are removed no three line feeds follow each other. */
  lemma StrippedHasNoTripleNewline(text: string)
    ensures NoTripleNewline(Stripped(text))
  {
    MarkdownPatterns();
    var b := ReplaceAll(PlainImageBlockEnd, Const(""), ReplaceAll(ClickableBlockEnd, Const(""), text));
    CollapseLeavesNoTriple(b, 0);
  }

  /** The text with links and bare URLs behind placeholders, and the contents. */
  function Protection(text: string): Protected {
    var links := ProtectFrom(LinkEnd, LinkReplacement, Stripped(text), 0, []);
    ProtectFrom(RawUrlEnd, RawUrlReplacement, links.text, 0, links.placeholders)
  }

  /** The HTML of a reply. */
  function Markdown(text: string): string {
    var p := Protection(text);
    var html := Restore(Breaks(Formatted(EscapePasses(p.text))), p.placeholders, 0);
    var links := PdfLinks(text);
    if |links| == 0 then html else Trim(html) + PdfSectionOpen + JoinWith(PdfAnchors(links), "<br />") + "</span>"
  }

  /** A character no pattern of the parse can start at: none of '[', a line
      feed, '&', '<', '>', '*', '_', a back-quote or ':'. */
  predicate IsPlain(c: char) {
    c != '[' && c != '\n' && c != '&' && c != '<' && c != '>' && c != '*' && c != '_' && c != '`' && c != ':'
  }

  /** A global replace of a pattern that matches nowhere changes nothing. */
  lemma NoMatchKeeps(mt: Matcher, sub: Template, s: string)
    requires Advances(mt)
    requires forall k :: 0 <= k <= |s| ==> mt(s, k).None?
    ensures ReplaceAll(mt, sub, s) == s
  {
    assert Search(mt, s, 0).None?;
    assert s[0..] == s;
  }

  /** A protecting pass of a pattern that matches nowhere sets nothing aside. */
  lemma NoMatchProtects(mt: Matcher, cb: Callback, s: string, ph: seq<string>)
    requires Advances(mt)
    requires forall k :: 0 <= k <= |s| ==> mt(s, k).None?
    ensures ProtectFrom(mt, cb, s, 0, ph) == Protected(s, ph)
  {
    assert Search(mt, s, 0).None?;
    assert s[0..] == s;
  }

  /** In a text of plain characters no image, line-feed run, link or bare
      URL matches. */
  lemma PlainTextMatchesNoMarkup(s: string, k: nat)
    requires forall j :: 0 <= j < |s| ==> IsPlain(s[j])
    requires k <= |s|
    ensures ClickableEnd(s, k).None? && ClickableBlockEnd(s, k).None? && PlainImageBlockEnd(s, k).None?
    ensures NewlineRunEnd(s, k).None? && LinkEnd(s, k).None? && RawUrlEnd(s, k).None?
  {
    if k < |s| {
      assert IsPlain(s[k]);
    }
    if k + 1 < |s| {
      assert IsPlain(s[k + 1]);
    }
    if k + 4 < |s| {
      assert IsPlain(s[k + 4]);
    }
    if k + 5 < |s| {
      assert IsPlain(s[k + 5]);
    }
    RunOfStops(s, k, k, IsLineFeed);
  }

  /** In a text of plain characters no escaped character, emphasis, code
      span or line feed matches. */
  lemma PlainTextMatchesNoFormat(s: string, k: nat)
    requires forall j :: 0 <= j < |s| ==> IsPlain(s[j])
    requires k <= |s|
    ensures LiteralEnd('&', s, k).None? && LiteralEnd('<', s, k).None? && LiteralEnd('>', s, k).None? && LiteralEnd('\n', s, k).None?
    ensures DelimitedEnd("**", s, k).None? && DelimitedEnd("__", s, k).None?
    ensures DelimitedEnd("*", s, k).None? && DelimitedEnd("_", s, k).None? && CodeSpanEnd(s, k).None?
  {
    if k < |s| {
      assert IsPlain(s[k]);
    }
    NoDelimitedStart("**", s, k);
    NoDelimitedStart("__", s, k);
    NoDelimitedStart("*", s, k);
    NoDelimitedStart("_", s, k);
  }

  /** A delimited pattern does not match where its delimiter does not start. */
  lemma NoDelimitedStart(delim: string, s: string, k: nat)
    requires |delim| > 0 && k <= |s|
    requires k < |s| ==> s[k] != delim[0]
    ensures DelimitedEnd(delim, s, k).None?
  {
    if k < |s| {
      assert s[k..][0] == s[k];
    }
  }

  /** Image removal and the line-feed collapse leave plain text as it is. */
  lemma PlainStripped(text: string)
    requires forall j :: 0 <= j < |text| ==> IsPlain(text[j])
    ensures Stripped(text) == text
  {
    MarkdownPatterns();
    forall k | 0 <= k <= |text|
      ensures ClickableBlockEnd(text, k).None? && PlainImageBlockEnd(text, k).None? && NewlineRunEnd(text, k).None?
    {
      PlainTextMatchesNoMarkup(text, k);
    }
    NoMatchKeeps(ClickableBlockEnd, Const(""), text);
    NoMatchKeeps(PlainImageBlockEnd, Const(""), text);
    NoMatchKeeps(NewlineRunEnd, Const("\n\n"), text);
  }

  /** Plain text has no link or bare URL to set aside. */
  lemma PlainProtection(text: string)
    requires forall j :: 0 <= j < |text| ==> IsPlain(text[j])
    ensures Protection(text) == Protected(text, [])
  {
    MarkdownPatterns();
    PlainStripped(text);
    forall k | 0 <= k <= |text| ensures LinkEnd(text, k).None? && RawUrlEnd(text, k).None? {
      PlainTextMatchesNoMarkup(text, k);
    }
    NoMatchProtects(LinkEnd, LinkReplacement, text, []);
    NoMatchProtects(RawUrlEnd, RawUrlReplacement, text, []);
  }

  /** Plain text needs no escape. */
  lemma PlainEscaped(text: string)
    requires forall j :: 0 <= j < |text| ==> IsPlain(text[j])
    ensures EscapePasses(text) == text
  {
    MarkdownPatterns();
    forall k | 0 <= k <= |text|
      ensures Literal('&')(text, k).None? && Literal('<')(text, k).None? && Literal('>')(text, k).None?
    {
      PlainTextMatchesNoFormat(text, k);
    }
    NoMatchKeeps(Literal('&'), Const("&amp;"), text);
    NoMatchKeeps(Literal('<'), Const("&lt;"), text);
    NoMatchKeeps(Literal('>'), Const("&gt;"), text);
  }

  /** Plain text has no emphasis, code span or line feed. */
  lemma PlainFormatted(text: string)
    requires forall j :: 0 <= j < |text| ==> IsPlain(text[j])
    ensures Breaks(Formatted(text)) == text
  {
    MarkdownPatterns();
    forall k | 0 <= k <= |text|
      ensures Delimited("**")(text, k).None? && Delimited("__")(text, k).None?
      ensures Delimited("*")(text, k).None? && Delimited("_")(text, k).None?
      ensures CodeSpanEnd(text, k).None? && Literal('\n')(text, k).None?
    {
      PlainTextMatchesNoFormat(text, k);
    }
    NoMatchKeeps(Delimited("**"), Wrap(2, "<strong>", "</strong>"), text);
    NoMatchKeeps(Delimited("__"), Wrap(2, "<strong>", "</strong>"), text);
    NoMatchKeeps(Delimited("*"), Wrap(1, "<em>", "</em>"), text);
    NoMatchKeeps(Delimited("_"), Wrap(1, "<em>", "</em>"), text);
    NoMatchKeeps(CodeSpanEnd, Wrap(1, CodeOpen, "</code>"), text);
    NoMatchKeeps(Literal('\n'), Const("<br />"), text);
  }

  /** Plain text has no clickable image and so no PDF link. */
  lemma PlainHasNoPdfLinks(text: string)
    requires forall j :: 0 <= j < |text| ==> IsPlain(text[j])
    ensures PdfLinks(text) == []
  {
    ImagePatterns();
    forall k | 0 <= k <= |text| ensures ClickableEnd(text, k).None? {
      PlainTextMatchesNoMarkup(text, k);
    }
    assert Search(ClickableEnd, text, 0).None?;
    assert ClickableCaptures(text) == [];
  }

  /** A reply made of plain characters is returned as it is: no image,
      link, URL, escape, emphasis or line break applies and no PDF link is
      added. */
  lemma PlainTextUnchanged(text: string)
    requires forall j :: 0 <= j < |text| ==> IsPlain(text[j])
    ensures Markdown(text) == text
  {
    PlainProtection(text);
    PlainEscaped(text);
    PlainFormatted(text);
    PlainHasNoPdfLinks(text);
  }

  /** `parseMarkdown`. */
  method ParseMarkdown(text: string) returns (html: string)
    ensures html == Markdown(text)
  {
    ImagePatterns();
    MarkdownPatterns();
    var pdfLinks := CollectLinks(ClickableEnd, ClickableAt, PdfLinkOf, text);
    html := text;
    html := ReplaceAll(ClickableBlockEnd, Const(""), html);
    html := ReplaceAll(PlainImageBlockEnd, Const(""), html);
    html := ReplaceAll(NewlineRunEnd, Const("\n\n"), html);
    assert html == Stripped(text);
    var placeholders: seq<string> := [];
    html, placeholders := ProtectAll(LinkEnd, LinkReplacement, html, placeholders);
    html, placeholders := ProtectAll(RawUrlEnd, RawUrlReplacement, html, placeholders);
    assert Protected(html, placeholders) == Protection(text);
    html := ReplaceAll(Literal('&'), Const("&amp;"), html);
    html := ReplaceAll(Literal('<'), Const("&lt;"), html);
    html := ReplaceAll(Literal('>'), Const("&gt;"), html);
    html := ReplaceAll(Delimited("**"), Wrap(2, "<strong>", "</strong>"), html);
    html := ReplaceAll(Delimited("__"), Wrap(2, "<strong>", "</strong>"), html);
    html := ReplaceAll(Delimited("*"), Wrap(1, "<em>", "</em>"), html);
    html := ReplaceAll(Delimited("_"), Wrap(1, "<em>", "</em>"), html);
    html := ReplaceAll(CodeSpanEnd, Wrap(1, CodeOpen, "</code>"), html);
    html := ReplaceAll(Literal('\n'), Const("<br />"), html);
    html := RestorePlaceholders(html, placeholders);
    if |pdfLinks| > 0 {
      var pdfLinksHtml := JoinWith(PdfAnchors(pdfLinks), "<br />");
      html := Trim(html) + PdfSectionOpen + pdfLinksHtml + "</span>";
    }
  }
}
