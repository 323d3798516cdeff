/** The breadcrumb above the document list
    (src/components/documents/CategoryBreadcrumb.tsx): one crumb per segment
    of the selected category path, each leading to the path up to it. */
module CategoryBreadcrumb {
  import opened Wrappers
  import opened Text
  import opened DocumentTypes

  /** One crumb: the segment shown, the path it navigates to, and whether it
      is the last (highlighted) one. */
  datatype Crumb = Crumb(segment: string, path: string, isLast: bool)

  /** What the breadcrumb shows: "Alla dokument", "Okategoriserade", or a
      home button followed by crumbs. */
  datatype Breadcrumb = AllDocuments | Uncategorized | Trail(crumbs: seq<Crumb>)

  /** The crumbs for the segments of a path. */
  function CrumbsOf(segments: seq<string>): (r: seq<Crumb>)
    ensures |r| == |segments|
  {
    seq(|segments|, i requires 0 <= i < |segments| =>
      Crumb(segments[i], Join(segments[..i + 1], '/'), i == |segments| - 1))
  }

  /** The breadcrumb for the selected category (none when nothing is
      selected). An empty path counts as no selection. */
  function BreadcrumbOf(category: Option<string>): (r: Breadcrumb)
    ensures r.Trail? <==> Truthy(category) && category.value != UncategorizedKey
    ensures r == Uncategorized <==> category == Some(UncategorizedKey)
  {
    if !Truthy(category) then AllDocuments
    else if category.value == UncategorizedKey then Uncategorized
    else Trail(CrumbsOf(Split(category.value, '/')))
  }

  /** The home button navigates to no selection; crumb `i` to its path. */
  function NavigateTo(b: Breadcrumb, i: int): Option<string>
    requires b.Trail? && -1 <= i < |b.crumbs|
  {
    if i < 0 then None else Some(b.crumbs[i].path)
  }

  /** A trail has one crumb per segment, only the last is highlighted, and
      it navigates to the selected category itself. */
  lemma LastCrumbIsCategory(category: string)
    requires category != "" && category != UncategorizedKey
    ensures var b := BreadcrumbOf(Some(category));
            && |b.crumbs| == |Split(category, '/')| >= 1
            && (forall i :: 0 <= i < |b.crumbs| ==> (b.crumbs[i].isLast <==> i == |b.crumbs| - 1))
            && b.crumbs[|b.crumbs| - 1].path == category
  {
    var segs := Split(category, '/');
    assert segs[..|segs|] == segs;
    JoinSplit(category, '/');
  }

  /** Each crumb's path extends the previous one by one segment. */
  lemma CrumbPathsChain(segments: seq<string>, i: int)
    requires 0 <= i && i + 1 < |segments|
    ensures var c := CrumbsOf(segments);
            c[i + 1].path == c[i].path + "/" + c[i + 1].segment
  {
    assert segments[..i + 2] == segments[..i + 1] + [segments[i + 1]];
    JoinSnoc(segments[..i + 1], segments[i + 1], '/');
  }

  /** Every crumb leads to the selected category or to a category above it. */
  lemma CrumbIsAncestor(category: string, i: int)
    requires category != "" && category != UncategorizedKey
    requires 0 <= i < |Split(category, '/')|
    ensures AtOrUnder(category, BreadcrumbOf(Some(category)).crumbs[i].path)
  {
    var segs := Split(category, '/');
    var path := Join(segs[..i + 1], '/');
    JoinSplit(category, '/');
    if i + 1 < |segs| {
      assert segs == segs[..i + 1] + segs[i + 1..];
      JoinAppend(segs[..i + 1], segs[i + 1..], '/');
      var rest := Join(segs[i + 1..], '/');
      assert category == path + "/" + rest;
      assert category[..|path + "/"|] == path + "/";
    } else {
      assert segs[..i + 1] == segs;
    }
  }

  /** The crumbs of a shorter run of segments agree with the first crumbs of
      the longer run, except for the highlight. */
  lemma CrumbsOfPrefix(segments: seq<string>, i: int, j: int)
    requires 0 <= j <= i < |segments|
    ensures var short := CrumbsOf(segments[..i + 1]);
            var long := CrumbsOf(segments);
            short[j].segment == long[j].segment && short[j].path == long[j].path
  {
    assert segments[..i + 1][..j + 1] == segments[..j + 1];
  }

  /** Following crumb `i` shows the trail up to that crumb, provided its
      path is neither empty nor the "uncategorized" key. */
  lemma FollowCrumb(category: string, i: int)
    requires category != "" && category != UncategorizedKey
    requires 0 <= i < |Split(category, '/')|
    ensures var p := BreadcrumbOf(Some(category)).crumbs[i].path;
            p != "" && p != UncategorizedKey ==>
              BreadcrumbOf(Some(p)) == Trail(CrumbsOf(Split(category, '/')[..i + 1]))
  {
    var segs := Split(category, '/');
    var prefix := segs[..i + 1];
    var p := Join(prefix, '/');
    assert BreadcrumbOf(Some(category)).crumbs[i].path == p;
    assert forall k :: 0 <= k < |prefix| ==> '/' !in prefix[k] by {
      forall k | 0 <= k < |prefix| ensures '/' !in prefix[k] {
        assert prefix[k] == segs[k];
      }
    }
    SplitJoin(prefix, '/');
  }

  /** A path with a leading '/' yields an empty first crumb, and following it
      shows all documents rather than a category. */
  lemma LeadingSlashCrumbShowsAll()
    ensures var b := BreadcrumbOf(Some("/a"));
            && |b.crumbs| == 2
            && b.crumbs[0].path == ""
            && BreadcrumbOf(NavigateTo(b, 0)) == AllDocuments
  {
    assert "/a"[1..] == "a";
    assert "a"[1..] == "";
    assert Split("", '/') == [""];
    assert ['a'] + "" == "a";
    assert Split("a", '/') == ["a"];
    assert Split("/a", '/') == ["", "a"];
    assert Split("/a", '/')[..1] == [""];
  }
}
