/** The images of a chat reply (src/lib/n8nChat.ts, `extractPageNumber` and
    `extractImages`): clickable images first, then the plain images left
    once the clickable ones are removed, numbered "img-0", "img-1", ... in
    that order. */
module ChatImages {
  import opened Wrappers
  import opened Text
  import opened ChatScan

  /** A chat image; `page` and `pdfUrl` are None where the source leaves them
      undefined. */
  datatype ChatImage = ChatImage(id: string, url: string, title: string, page: Option<nat>, pdfUrl: Option<string>)

  /** The title of an image without alt text. */
  const DefaultTitle := "Dokumentbild"

  // ---------------------------------------------------------------------
  // page numbers

  /** The lower-case word `w` at `i`, letters compared ignoring ASCII case. */
  predicate WordAt(s: string, i: nat, w: string)
    requires i <= |s|
    ensures WordAt(s, i, w) ==> i + |w| <= |s|
    decreases |w|
  {
    |w| == 0 || (i < |s| && LowerChar(s[i]) == w[0] && WordAt(s, i + 1, w[1..]))
  }

  /** The word matches exactly when every character, lower-cased, is the
      word's letter (the `i` flag). */
  lemma {:induction false} WordAtSpec(s: string, i: nat, w: string)
    requires i <= |s|
    ensures WordAt(s, i, w) <==> i + |w| <= |s| && forall m :: 0 <= m < |w| ==> LowerChar(s[i + m]) == w[m]
    decreases |w|
  {
    if |w| > 0 && i < |s| {
      WordAtSpec(s, i + 1, w[1..]);
      if i + |w| <= |s| && forall m :: 0 <= m < |w| ==> LowerChar(s[i + m]) == w[m] {
        forall m | 0 <= m < |w[1..]| ensures LowerChar(s[i + 1 + m]) == w[1..][m] {
          assert LowerChar(s[i + (m + 1)]) == w[m + 1];
        }
      }
      if WordAt(s, i, w) {
        forall m | 0 <= m < |w| ensures LowerChar(s[i + m]) == w[m] {
          if m > 0 {
            assert LowerChar(s[i + 1 + (m - 1)]) == w[1..][m - 1];
          }
        }
      }
    }
  }

  /** The longest non-empty run of digits at `k` (the greedy `\d+`). */
  function DigitsAt(s: string, k: nat): (r: Option<string>)
    requires k <= |s|
    ensures r.Some? ==> |r.value| >= 1 && forall m :: 0 <= m < |r.value| ==> IsDigit(r.value[m])
  {
    var e := RunOf(s, k, IsDigit);
    if e == k then None else Some(s[k..e])
  }

  /** The run is the text from `k` and is not followed by a digit; there is
      none exactly when no digit stands at `k`. */
  lemma DigitsAtSpec(s: string, k: nat)
    requires k <= |s|
    ensures var r := DigitsAt(s, k);
      && (r.Some? ==> (k + |r.value| <= |s| && r.value == s[k..k + |r.value|]
                       && (k + |r.value| == |s| || !IsDigit(s[k + |r.value|]))))
      && (r.None? <==> k == |s| || !IsDigit(s[k]))
  {
    var e := RunOf(s, k, IsDigit);
    if e > k {
      assert |s[k..e]| == e - k;
    }
  }

  predicate IsSeparator(c: char) { c == '_' || c == '-' }

  /** The word `w`, an optional '_' or '-', then digits, at `i`; the result is
      the digits. */
  function WordThenDigits(s: string, i: nat, w: string): (r: Option<string>)
    requires i <= |s|
    ensures r.Some? ==> |r.value| >= 1 && forall m :: 0 <= m < |r.value| ==> IsDigit(r.value[m])
  {
    if !WordAt(s, i, w) then None
    else
      var k := i + |w|;
      if k < |s| && IsSeparator(s[k]) then DigitsAt(s, k + 1) else DigitsAt(s, k)
  }

  /** A match needs the word, and its capture is the digits right after the
      word or after one separator; there is no match exactly when neither
      choice of the optional separator is followed by digits. */
  lemma WordThenDigitsSpec(s: string, i: nat, w: string)
    requires i <= |s|
    ensures var r := WordThenDigits(s, i, w);
      && (r.Some? ==> (WordAt(s, i, w)
                       && (r == DigitsAt(s, i + |w|)
                           || (i + |w| < |s| && IsSeparator(s[i + |w|]) && r == DigitsAt(s, i + |w| + 1)))))
      && (r.None? <==> (!WordAt(s, i, w)
                        || (DigitsAt(s, i + |w|).None?
                            && !(i + |w| < |s| && IsSeparator(s[i + |w|]) && DigitsAt(s, i + |w| + 1).Some?))))
  {
    if WordAt(s, i, w) {
      var k := i + |w|;
      DigitsAtSpec(s, k);
    }
  }

  /** The page-number pattern at `i`, its three alternatives tried in order:
      "page" or "sida", each with an optional '_' or '-', or "p", and then
      digits, ignoring case. The result is the digits. */
  function PageDigitsAt(s: string, i: nat): (r: Option<string>)
    requires i <= |s|
    ensures r.Some? ==> |r.value| >= 1 && forall m :: 0 <= m < |r.value| ==> IsDigit(r.value[m])
  {
    var a := WordThenDigits(s, i, "page");
    if a.Some? then a
    else
      var b := WordThenDigits(s, i, "sida");
      if b.Some? then b
      else if WordAt(s, i, "p") then DigitsAt(s, i + 1)
      else None
  }

  /** The alternation: the first of the three alternatives that matches
      gives the capture, and there is no match exactly when none does. */
  lemma PageDigitsAtSpec(s: string, i: nat)
    requires i <= |s|
    ensures var r := PageDigitsAt(s, i);
      var page := WordThenDigits(s, i, "page");
      var sida := WordThenDigits(s, i, "sida");
      && (page.Some? ==> r == page)
      && (page.None? && sida.Some? ==> r == sida)
      && (page.None? && sida.None? ==> r == (if WordAt(s, i, "p") then DigitsAt(s, i + 1) else None))
      && (r.None? <==> page.None? && sida.None? && !(WordAt(s, i, "p") && DigitsAt(s, i + 1).Some?))
  {
  }

  /** The leftmost position from `i` where the page-number pattern matches. */
  function LeftmostPage(s: string, i: nat): (r: Option<nat>)
    requires i <= |s|
    ensures r.Some? ==> i <= r.value <= |s| && PageDigitsAt(s, r.value).Some?
    decreases |s| - i
  {
    if PageDigitsAt(s, i).Some? then Some(i)
    else if i == |s| then None
    else LeftmostPage(s, i + 1)
  }

  /** No position before the one found matches, and when none is found no
      position from `i` matches. */
  lemma {:induction false} LeftmostPageFirst(s: string, i: nat)
    requires i <= |s|
    ensures LeftmostPage(s, i).Some? ==> forall k :: i <= k < LeftmostPage(s, i).value ==> PageDigitsAt(s, k).None?
    ensures LeftmostPage(s, i).None? ==> forall k :: i <= k <= |s| ==> PageDigitsAt(s, k).None?
    decreases |s| - i
  {
    if PageDigitsAt(s, i).None? && i < |s| {
      LeftmostPageFirst(s, i + 1);
    }
  }

  /** `extractPageNumber`: the value of the digits of the leftmost match, or
      None when the pattern matches nowhere. */
  function ExtractPageNumber(s: string): (r: Option<nat>)
    ensures r.Some? ==> exists k :: 0 <= k <= |s| && PageDigitsAt(s, k).Some? && r.value == DigitsValue(PageDigitsAt(s, k).value)
  {
    var k := LeftmostPage(s, 0);
    if k.None? then None else Some(DigitsValue(PageDigitsAt(s, k.value).value))
  }

  /** There is a page number exactly when the pattern matches somewhere, and
      then it is the value of the digits at the leftmost match. */
  lemma ExtractPageNumberLeftmost(s: string)
    ensures ExtractPageNumber(s).None? <==> forall k :: 0 <= k <= |s| ==> PageDigitsAt(s, k).None?
    ensures ExtractPageNumber(s).Some? ==>
      exists k :: 0 <= k <= |s| && PageDigitsAt(s, k).Some? && (forall j :: 0 <= j < k ==> PageDigitsAt(s, j).None?)
        && ExtractPageNumber(s).value == DigitsValue(PageDigitsAt(s, k).value)
  {
    LeftmostPageFirst(s, 0);
    var r := LeftmostPage(s, 0);
    if r.Some? {
      var k := r.value;
      assert PageDigitsAt(s, k).Some? && (forall j :: 0 <= j < k ==> PageDigitsAt(s, j).None?);
    }
  }

  /** "sida-12" names page 12. */
  lemma PageAfterSida()
    ensures ExtractPageNumber("sida-12") == Some(12)
  {
    var s := "sida-12";
    assert !WordAt(s, 0, "page") by { assert LowerChar(s[1]) != "page"[1]; }
    assert WordAt(s, 0, "sida");
    assert RunOf(s, 5, IsDigit) == 7;
    assert s[5..7] == "12";
    assert DigitsValue("12") == 12 by { assert "12"[..1] == "1"; }
  }

  /** The leftmost match wins, even when a later one is more specific:
      "Bild_p3_Page4" names page 3. */
  lemma LeftmostPageWins()
    ensures ExtractPageNumber("Bild_p3_Page4") == Some(3)
  {
    var s := "Bild_p3_Page4";
    forall k | 0 <= k < 5 ensures PageDigitsAt(s, k).None? {
      NoPageStart(s, k);
    }
    assert PageDigitsAt(s, 5) == Some("3") by {
      assert !WordAt(s, 5, "page") by { assert LowerChar(s[6]) != 'a'; }
      assert !WordAt(s, 5, "sida");
      assert WordAt(s, 5, "p");
      assert RunOf(s, 6, IsDigit) == 7;
      assert s[6..7] == "3";
    }
    LeftmostPageFirst(s, 0);
    assert LeftmostPage(s, 0) == Some(5);
    assert DigitsValue("3") == 3 by { assert "3"[..0] == ""; }
  }

  /** No page number starts at a character other than 'p' or 's'. */
  lemma NoPageStart(s: string, k: nat)
    requires k < |s| && LowerChar(s[k]) != 'p' && LowerChar(s[k]) != 's'
    ensures PageDigitsAt(s, k).None?
  {
    assert !WordAt(s, k, "page") && !WordAt(s, k, "sida") && !WordAt(s, k, "p");
  }

  /** A word that merely starts with "page" is no page number: "pages5" has none. */
  lemma PagesIsNoPage()
    ensures ExtractPageNumber("pages5") == None
  {
    var s := "pages5";
    assert RunOf(s, 4, IsDigit) == 4;
    assert RunOf(s, 1, IsDigit) == 1;
    forall k | 0 <= k <= |s| ensures PageDigitsAt(s, k).None? {
      if k == 0 {
        assert !WordAt(s, 0, "sida");
      } else if k < |s| {
        assert LowerChar(s[k]) != 'p' && (LowerChar(s[k]) != 's' || k == 4);
        assert !WordAt(s, k, "page") && !WordAt(s, k, "sida") && !WordAt(s, k, "p");
      }
    }
  }

  // ---------------------------------------------------------------------
  // images

  /** The image a match gives: the alt text is the title unless it is empty,
      and the page is read from the alt text or, when it is empty, from the
      link (clickable) or image (plain) URL. */
  function ImageOf(parts: ImageParts, n: nat, clickable: bool): (img: ChatImage)
    ensures img.id == "img-" + NatToString(n) && img.url == parts.url
    ensures img.title == (if parts.alt == "" then DefaultTitle else parts.alt)
    ensures img.pdfUrl == (if clickable then Some(parts.pdfUrl) else None)
    ensures parts.alt != "" ==> img.page == ExtractPageNumber(parts.alt)
    ensures parts.alt == "" ==> img.page == ExtractPageNumber(if clickable then parts.pdfUrl else parts.url)
  {
    var key := if parts.alt != "" then parts.alt else if clickable then parts.pdfUrl else parts.url;
    ChatImage("img-" + NatToString(n), parts.url, if parts.alt != "" then parts.alt else DefaultTitle,
              ExtractPageNumber(key), if clickable then Some(parts.pdfUrl) else None)
  }

  /** The image of a clickable match numbered `n`. */
  function ClickableImage(parts: ImageParts, n: nat): ChatImage {
    ImageOf(parts, n, true)
  }

  /** The image of a plain match numbered `n`. */
  function PlainImage(parts: ImageParts, n: nat): ChatImage {
    ImageOf(parts, n, false)
  }

  /** What a pattern captures at a position. */
  type Capturer = (string, nat) -> Option<ImageParts>

  /** Wherever the pattern matches, its captures are there. */
  ghost predicate Agrees(find: Matcher, at: Capturer) {
    forall t: string, k: nat :: find(t, k).Some? ==> at(t, k).Some?
  }

  /** The captures of the successive matches from `i`, as an `exec` loop
      sees them. */
  function CapturesFrom(find: Matcher, at: Capturer, s: string, i: nat): (r: seq<ImageParts>)
    requires i <= |s| && Advances(find) && Agrees(find, at)
    decreases |s| - i
  {
    var m := Search(find, s, i);
    if m.None? then [] else [at(s, m.value.start).value] + CapturesFrom(find, at, s, m.value.end)
  }

  /** The images of a list of captures, numbered from `n`. */
  function Numbered(caps: seq<ImageParts>, n: nat, make: (ImageParts, nat) -> ChatImage): (r: seq<ChatImage>)
    ensures |r| == |caps|
    decreases |caps|
  {
    if |caps| == 0 then []
    else Numbered(caps[..|caps| - 1], n, make) + [make(caps[|caps| - 1], n + |caps| - 1)]
  }

  /** Image `k` of a numbered list is made from capture `k` with number `n + k`. */
  lemma {:induction false} NumberedAt(caps: seq<ImageParts>, n: nat, make: (ImageParts, nat) -> ChatImage, k: nat)
    requires k < |caps|
    ensures Numbered(caps, n, make)[k] == make(caps[k], n + k)
    decreases |caps|
  {
    if k < |caps| - 1 {
      NumberedAt(caps[..|caps| - 1], n, make, k);
    }
  }

  /** Both image patterns advance, and capture wherever they match. */
  lemma ImagePatterns()
    ensures Advances(ClickableEnd) && Agrees(ClickableEnd, ClickableAt)
    ensures Advances(PlainImageEnd) && Agrees(PlainImageEnd, PlainImageAt)
  {
    forall t: string, k: nat | ClickableEnd(t, k).Some? ensures ClickableAt(t, k).Some? {
    }
    forall t: string, k: nat | PlainImageEnd(t, k).Some? ensures PlainImageAt(t, k).Some? {
    }
  }

  /** The text the plain images are looked for in: the content with every
      clickable image removed. */
  function WithoutClickable(content: string): string {
    ReplaceAll(ClickableEnd, Const(""), content)
  }

  /** The captures of the clickable images of the content. */
  function ClickableCaptures(content: string): seq<ImageParts> {
    ImagePatterns();
    CapturesFrom(ClickableEnd, ClickableAt, content, 0)
  }

  /** The captures of the plain images left once the clickable ones are removed. */
  function PlainCaptures(content: string): seq<ImageParts> {
    ImagePatterns();
    CapturesFrom(PlainImageEnd, PlainImageAt, WithoutClickable(content), 0)
  }

  /** The images of a reply: the clickable ones, then the plain ones. */
  function Images(content: string): (r: seq<ChatImage>)
    ensures |r| == |ClickableCaptures(content)| + |PlainCaptures(content)|
  {
    var clickable := ClickableCaptures(content);
    Numbered(clickable, 0, ClickableImage) + Numbered(PlainCaptures(content), |clickable|, PlainImage)
  }

  /** One `exec` loop: every match of `find` in `s`, in order, made into an
      image numbered on from `n`. */
  method Collect(find: Matcher, at: Capturer, make: (ImageParts, nat) -> ChatImage, s: string, n: nat)
    returns (images: seq<ChatImage>)
    requires Advances(find) && Agrees(find, at)
    ensures images == Numbered(CapturesFrom(find, at, s, 0), n, make)
  {
    images := [];
    var lastIndex := 0;
    ghost var caps: seq<ImageParts> := [];
    var m := Search(find, s, lastIndex);
    while m.Some?
      invariant lastIndex <= |s|
      invariant m == Search(find, s, lastIndex)
      invariant caps + CapturesFrom(find, at, s, lastIndex) == CapturesFrom(find, at, s, 0)
      invariant images == Numbered(caps, n, make)
      decreases |s| - lastIndex
    {
      assert find(s, m.value.start).Some?;
      var parts := at(s, m.value.start).value;
      images := images + [make(parts, n + |images|)];
      ghost var rest := CapturesFrom(find, at, s, m.value.end);
      assert CapturesFrom(find, at, s, lastIndex) == [parts] + rest;
      assert (caps + [parts]) + rest == caps + ([parts] + rest);
      assert (caps + [parts])[..|caps|] == caps;
      assert Numbered(caps + [parts], n, make) == images;
      caps := caps + [parts];
      lastIndex := m.value.end;
      m := Search(find, s, lastIndex);
    }
    assert caps + [] == caps;
  }

  /** `extractImages`: the clickable images of the content, then the plain
      images of the content without clickable images, numbered on. */
  method ExtractImages(content: string) returns (images: seq<ChatImage>)
    ensures images == Images(content)
  {
    ImagePatterns();
    images := Collect(ClickableEnd, ClickableAt, ClickableImage, content, 0);
    var plain := Collect(PlainImageEnd, PlainImageAt, PlainImage, WithoutClickable(content), |images|);
    images := images + plain;
  }

  /** A way of making images that numbers image `n` "img-" followed by `n`,
      and gives it a link URL exactly when `linked`. */
  ghost predicate NumbersImages(make: (ImageParts, nat) -> ChatImage, linked: bool) {
    forall p: ImageParts, n: nat :: make(p, n).id == "img-" + NatToString(n) && make(p, n).pdfUrl.Some? == linked
  }

  /** Clickable images are numbered and linked, plain ones numbered and not. */
  lemma MadeImages()
    ensures NumbersImages(ClickableImage, true) && NumbersImages(PlainImage, false)
  {
    forall p: ImageParts, n: nat
      ensures ClickableImage(p, n).id == "img-" + NatToString(n) && ClickableImage(p, n).pdfUrl.Some?
      ensures PlainImage(p, n).id == "img-" + NatToString(n) && PlainImage(p, n).pdfUrl.None?
    {
      var c := ImageOf(p, n, true);
      var q := ImageOf(p, n, false);
    }
  }

  /** Linked images numbered from 0 followed by unlinked images numbered on
      are numbered "img-0", "img-1", ... in order, and exactly the first ones
      carry a link URL. */
  lemma NumberedIds(ca: seq<ImageParts>, pa: seq<ImageParts>,
                    clickable: (ImageParts, nat) -> ChatImage, plain: (ImageParts, nat) -> ChatImage)
    requires NumbersImages(clickable, true) && NumbersImages(plain, false)
    ensures var imgs := Numbered(ca, 0, clickable) + Numbered(pa, |ca|, plain);
      (forall k :: 0 <= k < |imgs| ==> imgs[k].id == "img-" + NatToString(k))
      && (forall k :: 0 <= k < |imgs| ==> (imgs[k].pdfUrl.Some? <==> k < |ca|))
  {
    var a := Numbered(ca, 0, clickable);
    var b := Numbered(pa, |ca|, plain);
    var imgs: seq<ChatImage> := a + b;
    forall k | 0 <= k < |imgs| ensures imgs[k].id == "img-" + NatToString(k) && (imgs[k].pdfUrl.Some? <==> k < |a|) {
      if k >= |a| {
        NumberedAt(pa, |ca|, plain, k - |a|);
        assert imgs[k] == plain(pa[k - |a|], k);
      } else {
        NumberedAt(ca, 0, clickable, k);
        assert imgs[k] == clickable(ca[k], k);
      }
    }
  }

  /** The images of a reply are numbered "img-0", "img-1", ... in order; the
      clickable ones come first and only they carry a link URL. */
  lemma ImagesNumberedClickableFirst(content: string)
    ensures var imgs := Images(content);
      var c := |ClickableCaptures(content)|;
      c <= |imgs|
      && (forall k :: 0 <= k < |imgs| ==> imgs[k].id == "img-" + NatToString(k))
      && (forall k :: 0 <= k < |imgs| ==> (imgs[k].pdfUrl.Some? <==> k < c))
  {
    MadeImages();
    NumberedIds(ClickableCaptures(content), PlainCaptures(content), ClickableImage, PlainImage);
  }

  /** No two images share an id. */
  lemma ImageIdsDistinct(content: string, j: nat, k: nat)
    requires j < k < |Images(content)|
    ensures Images(content)[j].id != Images(content)[k].id
  {
    ImagesNumberedClickableFirst(content);
    var a := NatToString(j);
    var b := NatToString(k);
    if "img-" + a == "img-" + b {
      assert a == ("img-" + a)[4..] == ("img-" + b)[4..] == b;
      NatToStringRoundTrip(j);
      NatToStringRoundTrip(k);
    }
  }

  /** The clickable image of the example below, and nothing after it. */
  lemma ClickableExample()
    ensures ClickableCaptures("[![a](u)](p)") == [ImageParts("a", "u", "p", 12)]
  {
    var s := "[![a](u)](p)";
    var parts := ImageParts("a", "u", "p", 12);
    ImagePatterns();
    assert ClickableAt(s, 0) == Some(parts) by {
      assert RunOf(s, 3, NotCloseBracket) == 4;
      assert RunOf(s, 6, NotCloseParen) == 7;
      assert RunOf(s, 10, NotCloseParen) == 11;
      assert s[3..4] == "a" && s[6..7] == "u" && s[10..11] == "p";
    }
    assert Search(ClickableEnd, s, 0) == Some(Span(0, 12));
    assert Search(ClickableEnd, s, 12) == None;
  }

  /** Removing the clickable image of the example leaves no text. */
  lemma ClickableExampleRemoved()
    ensures PlainCaptures("[![a](u)](p)") == []
  {
    var s := "[![a](u)](p)";
    ClickableExample();
    assert WithoutClickable(s) == "" by {
      assert s[0..0] == "" && s[12..] == "";
      assert Search(ClickableEnd, s, 0) == Some(Span(0, 12));
    }
    assert Search(PlainImageEnd, "", 0) == None;
  }

  /** A clickable image is reported once, not again as the plain image inside it. */
  lemma ClickableCountedOnce()
    ensures Images("[![a](u)](p)") == [ChatImage("img-0", "u", "a", None, Some("p"))]
  {
    var parts := ImageParts("a", "u", "p", 12);
    ClickableExample();
    ClickableExampleRemoved();
    assert ClickableImage(parts, 0) == ChatImage("img-0", "u", "a", None, Some("p")) by {
      assert NatToString(0) == "0";
      assert ExtractPageNumber("a") == None by {
        assert PageDigitsAt("a", 0).None?;
        assert PageDigitsAt("a", 1).None?;
      }
    }
    assert Numbered([parts], 0, ClickableImage) == [ClickableImage(parts, 0)];
  }
}
