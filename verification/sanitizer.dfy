/** `sanitizeWvSection` (app.js:407-444): five passes over the parsed section,
    in the order the code runs them. Each pass visits the elements a static
    `querySelectorAll` list would, in document order. */
module Sanitizer {
  import opened Text
  import opened Html

  const SiteBase: string := "https://en.wikivoyage.org"
  const ScriptTags: set<string> := {"script", "style", "noscript"}
  const TableTags: set<string> := {"table"}
  const BlockedClasses: set<string> := {"mw-editsection", "noprint", "thumb", "metadata"}
  const MaxImages: nat := 6
  const MaxListItems: nat := 10

  // ------------------------------------------------------------ links and sources

  /** `/action=edit|Special:|index\.php\?title=.*&action=edit/i`, reduced to
      its first two alternatives (see `EditPatternReduces`). */
  predicate IsEditLink(href: string) {
    Contains(ToLower(href), "action=edit") || Contains(ToLower(href), "special:")
  }

  /** The pattern with all three alternatives; the third is read loosely here
      (`.*` may also span line breaks), which only enlarges it. */
  predicate EditPattern(href: string) {
    var h := ToLower(href);
    || Contains(h, "action=edit")
    || Contains(h, "special:")
    || exists i, j | 0 <= i <= j <= |h| :: ContainsAt(h, "index.php?title=", i) && ContainsAt(h, "&action=edit", j)
  }

  /** The third alternative adds nothing: any match of it contains `action=edit`. */
  lemma EditPatternReduces(href: string)
    ensures EditPattern(href) <==> IsEditLink(href)
  {
    var h := ToLower(href);
    forall i, j | 0 <= i <= j <= |h| && ContainsAt(h, "index.php?title=", i) && ContainsAt(h, "&action=edit", j)
      ensures Contains(h, "action=edit")
    {
      ContainsAtSuffix(h, "&action=edit", j, 1);
      assert "&action=edit"[1..] == "action=edit";
      assert ContainsAt(h, "action=edit", j + 1);
    }
  }

  /** The `href` rewrite of a kept anchor: protocol-relative and site-relative
      links and bare fragments become absolute; anything else is kept. */
  function RewriteHref(href: string, encodedTitle: string): (r: string)
    ensures |href| <= |r| && r[|r| - |href|..] == href
    ensures StartsWith(href, "/") || StartsWith(href, "#") ==> StartsWith(r, "https:")
    ensures StartsWith(href, "//") ==> r == "https:" + href
    ensures StartsWith(href, "/") && !StartsWith(href, "//") ==> r == SiteBase + href
    ensures StartsWith(href, "#") ==> r == SiteBase + "/wiki/" + encodedTitle + href
    ensures !StartsWith(href, "/") && !StartsWith(href, "#") ==> r == href
  {
    assert StartsWith(href, "/") ==> href[0] == '/';
    assert StartsWith(href, "#") ==> href[0] == '#';
    if StartsWith(href, "//") then "https:" + href
    else if StartsWith(href, "/") then SiteBase + href
    else if StartsWith(href, "#") then
      var r := SiteBase + "/wiki/" + encodedTitle + href;
      assert r[..6] == SiteBase[..6];
      r
    else href
  }

  /** A rewritten link is left alone by a second rewrite. */
  lemma RewriteHrefIdempotent(href: string, encodedTitle: string)
    ensures RewriteHref(RewriteHref(href, encodedTitle), encodedTitle) == RewriteHref(href, encodedTitle)
  {
    var r := RewriteHref(href, encodedTitle);
    if StartsWith(href, "/") || StartsWith(href, "#") {
      assert r[0] == 'h';
    }
  }

  /** The image `src` rewrite as written: both tests read the original value,
      so the site-relative rewrite overrides the protocol-relative one. */
  function ImageSrc(src: string): (r: string)
    ensures |src| <= |r| && r[|r| - |src|..] == src
    ensures StartsWith(src, "/") ==> r == SiteBase + src
    ensures !StartsWith(src, "/") ==> r == src
  {
    var afterFirst := if StartsWith(src, "//") then "https:" + src else src;
    if StartsWith(src, "/") then SiteBase + src else afterFirst
  }

  /** A protocol-relative image source ends up under the guide's own host,
      whereas the same anchor `href` gains only a scheme. */
  lemma ProtocolRelativeImageQuirk(rest: string, encodedTitle: string)
    ensures ImageSrc("//" + rest) == SiteBase + "//" + rest
    ensures RewriteHref("//" + rest, encodedTitle) == "https://" + rest
  {
    assert StartsWith("//" + rest, "//");
  }

  // ------------------------------------------------------------ passes 1 and 3

  predicate Dropped(tag: string, classes: seq<string>, tags: set<string>, banned: set<string>) {
    tag in tags || exists c | c in classes :: c in banned
  }

  /** Removes, with their subtrees, the elements whose tag is in `tags` or that
      carry a class in `banned`. Everything else is kept unchanged. */
  function RemoveWhere(ns: seq<Node>, tags: set<string>, banned: set<string>): (r: seq<Node>)
    ensures AllHeads(r, NoTags(tags)) && AllHeads(r, NoClasses(banned))
    ensures forall rule :: AllHeads(ns, rule) ==> AllHeads(r, rule)
    ensures |ImgAttrs(r)| <= |ImgAttrs(ns)|
    ensures TextOnly(r) == TextOnly(ns)
  {
    if |ns| == 0 then []
    else
      var head := RemoveFromNode(ns[0], tags, banned);
      var rest := RemoveWhere(ns[1..], tags, banned);
      AllHeadsConcat(head, rest);
      ImgAttrsConcat(head, rest);
      TextOnlyConcat(head, rest);
      head + rest
  }

  function RemoveFromNode(n: Node, tags: set<string>, banned: set<string>): (r: seq<Node>)
    ensures |r| <= 1
    ensures AllHeads(r, NoTags(tags)) && AllHeads(r, NoClasses(banned))
    ensures forall rule :: NodeOk(n, rule) ==> AllHeads(r, rule)
    ensures |ImgAttrs(r)| <= |NodeImgs(n)|
    ensures n.Text? ==> r == [n]
    ensures n.Elem? && Dropped(n.tag, n.classes, tags, banned) ==> r == []
    ensures n.Elem? && !Dropped(n.tag, n.classes, tags, banned) ==>
              r == [Elem(n.tag, n.classes, n.attrs, RemoveWhere(n.children, tags, banned))]
  {
    match n
    case Text(_) => [n]
    case Elem(t, c, a, kids) =>
      if Dropped(t, c, tags, banned) then []
      else [Elem(t, c, a, RemoveWhere(kids, tags, banned))]
  }

  /** The pass works node by node: each top-level node is handled on its own
      (`RemoveWhereSingle`), and the results are joined in order. */
  lemma {:induction false} RemoveWhereConcat(xs: seq<Node>, ys: seq<Node>, tags: set<string>, banned: set<string>)
    ensures RemoveWhere(xs + ys, tags, banned) == RemoveWhere(xs, tags, banned) + RemoveWhere(ys, tags, banned)
  {
    if |xs| > 0 {
      var h := RemoveFromNode(xs[0], tags, banned);
      var left := RemoveWhere(xs[1..], tags, banned);
      var right := RemoveWhere(ys, tags, banned);
      assert RemoveWhere(xs + ys, tags, banned) == h + (left + right) by {
        ConsConcat(xs, ys);
        RemoveWhereConcat(xs[1..], ys, tags, banned);
      }
      ConcatAssoc(h, left, right);
    } else {
      assert xs + ys == ys;
    }
  }

  lemma RemoveWhereSingle(n: Node, tags: set<string>, banned: set<string>)
    ensures RemoveWhere([n], tags, banned) == RemoveFromNode(n, tags, banned)
  {
    assert [n][1..] == [];
  }

  /** A tree with nothing to remove comes through unchanged. */
  lemma {:induction false} RemoveWhereKeepsClean(ns: seq<Node>, tags: set<string>, banned: set<string>)
    requires AllHeads(ns, NoTags(tags)) && AllHeads(ns, NoClasses(banned))
    ensures RemoveWhere(ns, tags, banned) == ns
  {
    if |ns| > 0 {
      RemoveFromNodeKeepsClean(ns[0], tags, banned);
      RemoveWhereKeepsClean(ns[1..], tags, banned);
      assert ns == [ns[0]] + ns[1..];
    }
  }

  lemma {:induction false} RemoveFromNodeKeepsClean(n: Node, tags: set<string>, banned: set<string>)
    requires NodeOk(n, NoTags(tags)) && NodeOk(n, NoClasses(banned))
    ensures RemoveFromNode(n, tags, banned) == [n]
  {
    match n
    case Text(_) =>
    case Elem(t, c, a, kids) =>
      RemoveWhereKeepsClean(kids, tags, banned);
  }

  // ------------------------------------------------------------ pass 2: anchors

  /** `a.getAttribute('href') || ''`. */
  function Href(attrs: map<string, string>): string {
    if "href" in attrs then attrs["href"] else ""
  }

  /** A kept link's attributes: `href` rewritten, `target = '_blank'` and
      `rel = 'noopener'` set, every other attribute as it was. */
  function LinkAttrs(a: map<string, string>, encodedTitle: string): (r: map<string, string>)
    ensures r.Keys == a.Keys + {"href", "target", "rel"}
    ensures r["href"] == RewriteHref(Href(a), encodedTitle)
    ensures r["target"] == "_blank" && r["rel"] == "noopener"
    ensures forall k :: k in a && k !in {"href", "target", "rel"} ==> r[k] == a[k]
  {
    a["href" := RewriteHref(Href(a), encodedTitle)]["target" := "_blank"]["rel" := "noopener"]
  }

  /** Every anchor, outer ones first: one without a link loses its `href`
      attribute; an edit or special-page link is replaced by its text; any
      other link is rewritten and opens in a new context without opener.
      Anchors nested in a replaced anchor disappear with it. */
  function FixAnchors(ns: seq<Node>, encodedTitle: string): (r: seq<Node>)
    ensures |r| == |ns|
    ensures AllHeads(r, AnchorsOpenSafely)
    ensures forall rule :: AllHeads(ns, rule) ==> AllHeads(r, rule)
    ensures |ImgAttrs(r)| <= |ImgAttrs(ns)|
    ensures TextContent(r) == TextContent(ns)
    ensures forall i :: 0 <= i < |ns| ==> r[i] == FixAnchor(ns[i], encodedTitle)
  {
    if |ns| == 0 then []
    else
      var head := [FixAnchor(ns[0], encodedTitle)];
      var rest := FixAnchors(ns[1..], encodedTitle);
      AllHeadsConcat(head, rest);
      ImgAttrsConcat(head, rest);
      TextContentConcat(head, rest);
      head + rest
  }

  /** One node: the visible text is always kept; an anchor without a link
      loses exactly its `href`; an edit link becomes a text node; any other
      link gets the three link attributes and keeps every other attribute. */
  function FixAnchor(n: Node, encodedTitle: string): (r: Node)
    ensures AllHeads([r], AnchorsOpenSafely)
    ensures forall rule :: NodeOk(n, rule) ==> NodeOk(r, rule)
    ensures |NodeImgs(r)| <= |NodeImgs(n)|
    ensures NodeText(r) == NodeText(n)
    ensures n.Text? ==> r == n
    ensures n.Elem? && n.tag != "a" ==>
              && r.Elem? && r.tag == n.tag && r.classes == n.classes && r.attrs == n.attrs
              && r.children == FixAnchors(n.children, encodedTitle)
    ensures n.Elem? && n.tag == "a" && Href(n.attrs) == "" ==>
              && r.Elem? && r.tag == "a" && r.classes == n.classes
              && r.attrs == n.attrs - {"href"}
              && r.children == FixAnchors(n.children, encodedTitle)
    ensures n.Elem? && n.tag == "a" && Href(n.attrs) != "" && IsEditLink(Href(n.attrs)) ==>
              r == Text(TextContent(n.children))
    ensures n.Elem? && n.tag == "a" && Href(n.attrs) != "" && !IsEditLink(Href(n.attrs)) ==>
              && r.Elem? && r.tag == "a" && r.classes == n.classes && r.attrs == LinkAttrs(n.attrs, encodedTitle)
              && r.children == FixAnchors(n.children, encodedTitle)
  {
    match n
    case Text(_) =>
      AllHeadsSingle(n);
      n
    case Elem(t, c, a, kids) =>
      if t != "a" then
        var e := Elem(t, c, a, FixAnchors(kids, encodedTitle));
        AllHeadsSingle(e);
        e
      else
        var href := Href(a);
        if href == "" then
          var e := Elem(t, c, a - {"href"}, FixAnchors(kids, encodedTitle));
          AllHeadsSingle(e);
          e
        else if IsEditLink(href) then
          var e := Text(TextContent(kids));
          AllHeadsSingle(e);
          e
        else
          var e := Elem(t, c, LinkAttrs(a, encodedTitle), FixAnchors(kids, encodedTitle));
          AllHeadsSingle(e);
          e
  }

  /** A tree without anchors comes through unchanged. */
  lemma {:induction false} FixAnchorsKeepsAnchorFree(ns: seq<Node>, encodedTitle: string)
    requires AllHeads(ns, NoTags({"a"}))
    ensures FixAnchors(ns, encodedTitle) == ns
  {
    if |ns| > 0 {
      FixAnchorKeepsAnchorFree(ns[0], encodedTitle);
      FixAnchorsKeepsAnchorFree(ns[1..], encodedTitle);
      assert ns == [ns[0]] + ns[1..];
    }
  }

  lemma {:induction false} FixAnchorKeepsAnchorFree(n: Node, encodedTitle: string)
    requires NodeOk(n, NoTags({"a"}))
    ensures FixAnchor(n, encodedTitle) == n
  {
    match n
    case Text(_) =>
    case Elem(t, c, a, kids) =>
      FixAnchorsKeepsAnchorFree(kids, encodedTitle);
  }

  // ------------------------------------------------------------ pass 4: images

  /** Source rewrite plus `loading = 'lazy'` on one image's attributes. */
  function FixImgAttrs(a: map<string, string>): (r: map<string, string>)
    ensures forall k :: k in r <==> k in a || k == "loading"
    ensures "loading" in r && r["loading"] == "lazy"
    ensures "src" in r <==> "src" in a
    ensures "src" in a ==> r["src"] == ImageSrc(a["src"])
    ensures forall k :: k in a && k !in {"src", "loading"} ==> k in r && r[k] == a[k]
  {
    var withSrc := if "src" in a then a["src" := ImageSrc(a["src"])] else a;
    withSrc["loading" := "lazy"]
  }

  function FixAll(imgs: seq<map<string, string>>): (r: seq<map<string, string>>)
    ensures |r| == |imgs|
    ensures forall i :: 0 <= i < |imgs| ==> r[i] == FixImgAttrs(imgs[i])
  {
    seq(|imgs|, i requires 0 <= i < |imgs| => FixImgAttrs(imgs[i]))
  }

  /** How many of the images still to come survive, once `seen` were met. */
  function Remaining(seen: nat): nat {
    if seen >= MaxImages then 0 else MaxImages - seen
  }

  function Prefix<T>(s: seq<T>, n: nat): (r: seq<T>)
    ensures |r| == if n <= |s| then n else |s|
    ensures r == s[..|r|]
  {
    if n <= |s| then s[..n] else s
  }

  /** Every image, with `seen` images met before `ns` in document order:
      rewritten and made lazy, and removed (with its subtree) once six
      came before it. */
  function FixImages(ns: seq<Node>, seen: nat): (r: seq<Node>)
    ensures forall rule :: rule != ImagesLazy && AllHeads(ns, rule) ==> AllHeads(r, rule)
  {
    if |ns| == 0 then []
    else
      var head := FixImage(ns[0], seen);
      var rest := FixImages(ns[1..], seen + |NodeImgs(ns[0])|);
      AllHeadsConcat(head, rest);
      head + rest
  }

  function FixImage(n: Node, seen: nat): (r: seq<Node>)
    ensures |r| <= 1
    ensures forall rule :: rule != ImagesLazy && NodeOk(n, rule) ==> AllHeads(r, rule)
  {
    match n
    case Text(_) =>
      AllHeadsSingle(n);
      [n]
    case Elem(t, c, a, kids) =>
      if t != "img" then
        var e := Elem(t, c, a, FixImages(kids, seen));
        AllHeadsSingle(e);
        [e]
      else if seen < MaxImages then
        var e := Elem(t, c, FixImgAttrs(a), FixImages(kids, seen + 1));
        AllHeadsSingle(e);
        [e]
      else []
  }

  /** The image budget threads through a sequence: the second part starts
      with the images of the first part already counted. */
  lemma {:induction false} FixImagesConcat(xs: seq<Node>, ys: seq<Node>, seen: nat)
    ensures FixImages(xs + ys, seen) == FixImages(xs, seen) + FixImages(ys, seen + |ImgAttrs(xs)|)
  {
    if |xs| > 0 {
      var later := seen + |NodeImgs(xs[0])|;
      var h := FixImage(xs[0], seen);
      var left := FixImages(xs[1..], later);
      var right := FixImages(ys, later + |ImgAttrs(xs[1..])|);
      assert FixImages(xs + ys, seen) == h + FixImages(xs[1..] + ys, later) by {
        FixImagesConsConcat(xs, ys, seen);
      }
      assert FixImages(xs[1..] + ys, later) == left + right by {
        FixImagesConcat(xs[1..], ys, later);
      }
      assert FixImages(xs, seen) == h + left by {
        FixImagesUnfold(xs, seen);
      }
      var total: nat := seen + |ImgAttrs(xs)|;
      assert later + |ImgAttrs(xs[1..])| == total by {
        ImgCountStep(xs);
      }
      JoinParts(FixImages(xs + ys, seen), h, left, right, FixImages(xs, seen));
    } else {
      assert xs + ys == ys;
    }
  }

  /** Regrouping a three-part join, for the `...Concat` proofs. */
  lemma JoinParts<T>(whole: seq<T>, h: seq<T>, left: seq<T>, right: seq<T>, front: seq<T>)
    requires whole == h + (left + right) && front == h + left
    ensures whole == front + right
  {
  }

  lemma FixImagesConsConcat(xs: seq<Node>, ys: seq<Node>, seen: nat)
    requires |xs| > 0
    ensures FixImages(xs + ys, seen) == FixImage(xs[0], seen) + FixImages(xs[1..] + ys, seen + |NodeImgs(xs[0])|)
  {
    ConsConcat(xs, ys);
    FixImagesUnfold(xs + ys, seen);
  }

  lemma FixImagesUnfold(ns: seq<Node>, seen: nat)
    requires |ns| > 0
    ensures FixImages(ns, seen) == FixImage(ns[0], seen) + FixImages(ns[1..], seen + |NodeImgs(ns[0])|)
  {
  }

  lemma ImgCountStep(ns: seq<Node>)
    requires |ns| > 0
    ensures |ImgAttrs(ns)| == |NodeImgs(ns[0])| + |ImgAttrs(ns[1..])|
  {
  }

  /** What pass 4 does to one node: a text node stays; an element other than
      an image keeps its tag, classes and attributes, its children passing
      through the same pass; an image within the budget gets its attributes
      fixed; an image past it goes. */
  lemma FixImageShape(n: Node, seen: nat)
    ensures n.Text? ==> FixImage(n, seen) == [n]
    ensures n.Elem? && n.tag != "img" ==>
              FixImage(n, seen) == [Elem(n.tag, n.classes, n.attrs, FixImages(n.children, seen))]
    ensures n.Elem? && n.tag == "img" && seen < MaxImages ==>
              FixImage(n, seen) == [Elem(n.tag, n.classes, FixImgAttrs(n.attrs), FixImages(n.children, seen + 1))]
    ensures n.Elem? && n.tag == "img" && seen >= MaxImages ==> FixImage(n, seen) == []
  {
  }

  /** Every image left after pass 4 is lazy. */
  lemma {:induction false} FixImagesLazy(ns: seq<Node>, seen: nat)
    ensures AllHeads(FixImages(ns, seen), ImagesLazy)
  {
    if |ns| > 0 {
      var head := FixImage(ns[0], seen);
      var rest := FixImages(ns[1..], seen + |NodeImgs(ns[0])|);
      FixImagesUnfold(ns, seen);
      FixImageLazy(ns[0], seen);
      FixImagesLazy(ns[1..], seen + |NodeImgs(ns[0])|);
      AllHeadsConcat(head, rest);
    }
  }

  lemma {:induction false} FixImageLazy(n: Node, seen: nat)
    ensures AllHeads(FixImage(n, seen), ImagesLazy)
  {
    match n
    case Text(_) =>
      AllHeadsSingle(n);
    case Elem(t, c, a, kids) =>
      if t != "img" {
        FixImagesLazy(kids, seen);
        AllHeadsSingle(Elem(t, c, a, FixImages(kids, seen)));
      } else if seen < MaxImages {
        FixImagesLazy(kids, seen + 1);
        AllHeadsSingle(Elem(t, c, FixImgAttrs(a), FixImages(kids, seen + 1)));
      }
  }

  /** Pass 4 keeps every top-level text node, in order. */
  lemma {:induction false} FixImagesKeepsTextNodes(ns: seq<Node>, seen: nat)
    ensures TextOnly(FixImages(ns, seen)) == TextOnly(ns)
  {
    if |ns| > 0 {
      var head := FixImage(ns[0], seen);
      var rest := FixImages(ns[1..], seen + |NodeImgs(ns[0])|);
      FixImagesUnfold(ns, seen);
      FixImagesKeepsTextNodes(ns[1..], seen + |NodeImgs(ns[0])|);
      TextOnlyConcat(head, rest);
      FixImageShape(ns[0], seen);
      assert TextOnly(head) == (if ns[0].Text? then [ns[0].text] else []) by {
        if head != [] {
          assert head == [head[0]] && [head[0]][1..] == [];
        }
      }
    }
  }

  lemma FixImagesSingle(n: Node, seen: nat)
    ensures FixImages([n], seen) == FixImage(n, seen)
  {
    assert [n][1..] == [];
  }

  /** A tree without images comes through unchanged. */
  lemma {:induction false} FixImagesKeepsImageFree(ns: seq<Node>, seen: nat)
    requires ImgAttrs(ns) == []
    ensures FixImages(ns, seen) == ns
  {
    if |ns| > 0 {
      FixImageKeepsImageFree(ns[0], seen);
      FixImagesKeepsImageFree(ns[1..], seen);
      assert ns == [ns[0]] + ns[1..];
    }
  }

  lemma {:induction false} FixImageKeepsImageFree(n: Node, seen: nat)
    requires NodeImgs(n) == []
    ensures FixImage(n, seen) == [n]
  {
    match n
    case Text(_) =>
    case Elem(t, c, a, kids) =>
      assert t != "img";
      FixImagesKeepsImageFree(kids, seen);
  }

  lemma PrefixConcat<T>(xs: seq<T>, ys: seq<T>, k: nat)
    ensures Prefix(xs, k) + Prefix(ys, if k <= |xs| then 0 else k - |xs|) == Prefix(xs + ys, k)
  {
  }

  lemma FixAllConcat(xs: seq<map<string, string>>, ys: seq<map<string, string>>)
    ensures FixAll(xs + ys) == FixAll(xs) + FixAll(ys)
  {
  }

  /** The images left after pass 4 are the first six in document order (fewer
      if `seen` were already met), each rewritten and lazy. */
  lemma {:induction false} FixImagesKeepsFirst(ns: seq<Node>, seen: nat)
    ensures ImgAttrs(FixImages(ns, seen)) == Prefix(FixAll(ImgAttrs(ns)), Remaining(seen))
  {
    if |ns| > 0 {
      var here, tail := NodeImgs(ns[0]), ImgAttrs(ns[1..]);
      var head := FixImage(ns[0], seen);
      var rest := FixImages(ns[1..], seen + |here|);
      assert FixImages(ns, seen) == head + rest;
      ImgAttrsConcat(head, rest);
      FixImageKeepsFirst(ns[0], seen);
      FixImagesKeepsFirst(ns[1..], seen + |here|);
      KeptAcross(here, tail, seen);
      assert ImgAttrs(ns) == here + tail;
      assert ImgAttrs(head) + ImgAttrs(rest) == Prefix(FixAll(ImgAttrs(ns)), Remaining(seen));
    } else {
      assert FixImages(ns, seen) == [] && FixAll(ImgAttrs(ns)) == [];
    }
  }

  /** The six-image budget carries over from one run of images to the next. */
  lemma KeptAcross(here: seq<map<string, string>>, tail: seq<map<string, string>>, seen: nat)
    ensures Prefix(FixAll(here), Remaining(seen)) + Prefix(FixAll(tail), Remaining(seen + |here|))
         == Prefix(FixAll(here + tail), Remaining(seen))
  {
    var k := Remaining(seen);
    assert Remaining(seen + |here|) == if k <= |FixAll(here)| then 0 else k - |FixAll(here)|;
    PrefixConcat(FixAll(here), FixAll(tail), k);
    FixAllConcat(here, tail);
  }

  lemma {:induction false} FixImageKeepsFirst(n: Node, seen: nat)
    ensures ImgAttrs(FixImage(n, seen)) == Prefix(FixAll(NodeImgs(n)), Remaining(seen))
  {
    match n
    case Text(_) =>
      assert ImgAttrs([n]) == NodeImgs(n) + ImgAttrs([]);
    case Elem(t, c, a, kids) =>
      var r := FixImage(n, seen);
      if t != "img" {
        FixImagesKeepsFirst(kids, seen);
        assert r == [Elem(t, c, a, FixImages(kids, seen))];
        assert ImgAttrs(r) == NodeImgs(r[0]) + ImgAttrs([]);
        assert NodeImgs(n) == ImgAttrs(kids);
      } else if seen < MaxImages {
        FixImagesKeepsFirst(kids, seen + 1);
        FixImageFirstKept(t, c, a, kids, seen);
      } else {
        assert r == [];
      }
  }

  /** An image met before the sixth: it is kept, rewritten, ahead of those below it. */
  lemma FixImageFirstKept(t: string, c: seq<string>, a: map<string, string>, kids: seq<Node>, seen: nat)
    requires t == "img" && seen < MaxImages
    requires ImgAttrs(FixImages(kids, seen + 1)) == Prefix(FixAll(ImgAttrs(kids)), Remaining(seen + 1))
    ensures ImgAttrs(FixImage(Elem(t, c, a, kids), seen))
         == Prefix(FixAll(NodeImgs(Elem(t, c, a, kids))), Remaining(seen))
  {
    var below := FixImages(kids, seen + 1);
    var r := FixImage(Elem(t, c, a, kids), seen);
    assert r == [Elem(t, c, FixImgAttrs(a), below)];
    assert ImgAttrs(r) == NodeImgs(r[0]) + ImgAttrs([]);
    assert ImgAttrs(r) == [FixImgAttrs(a)] + ImgAttrs(below);
    var all := FixAll(ImgAttrs(kids));
    assert NodeImgs(Elem(t, c, a, kids)) == [a] + ImgAttrs(kids);
    FixAllConcat([a], ImgAttrs(kids));
    assert FixAll([a] + ImgAttrs(kids)) == [FixImgAttrs(a)] + all;
    PrefixCons(FixImgAttrs(a), all, Remaining(seen));
  }

  lemma PrefixCons<T>(x: T, s: seq<T>, k: nat)
    requires k >= 1
    ensures Prefix([x] + s, k) == [x] + Prefix(s, k - 1)
  {
  }

  // ------------------------------------------------------------ pass 5: lists

  /** The text nodes among `ns`, in order. */
  function TextOnly(ns: seq<Node>): seq<string> {
    if |ns| == 0 then [] else (if ns[0].Text? then [ns[0].text] else []) + TextOnly(ns[1..])
  }

  lemma {:induction false} TextOnlyConcat(xs: seq<Node>, ys: seq<Node>)
    ensures TextOnly(xs + ys) == TextOnly(xs) + TextOnly(ys)
  {
    if |xs| > 0 {
      assert (xs + ys)[0] == xs[0];
      assert (xs + ys)[1..] == xs[1..] + ys;
      TextOnlyConcat(xs[1..], ys);
    } else {
      assert xs + ys == ys;
    }
  }

  /** The element nodes among `ns` (what `children` lists), in order. */
  function ElemsOf(ns: seq<Node>): seq<Node> {
    if |ns| == 0 then [] else (if ns[0].Elem? then [ns[0]] else []) + ElemsOf(ns[1..])
  }

  /** `items.slice(n).forEach(li => li.remove())` on `children`: text nodes
      stay, element children past the first `n` go. */
  function KeepElements(ns: seq<Node>, n: nat): (r: seq<Node>)
    ensures ElemsOf(r) == Prefix(ElemsOf(ns), n)
    ensures ElemCount(ns) <= n ==> r == ns
    ensures |r| <= |ns|
    ensures ElemCount(r) == if ElemCount(ns) <= n then ElemCount(ns) else n
    ensures TextOnly(r) == TextOnly(ns)
    ensures forall rule :: AllHeads(ns, rule) ==> AllHeads(r, rule)
    ensures forall b :: ListsBounded(ns, b) ==> ListsBounded(r, b)
    ensures |ImgAttrs(r)| <= |ImgAttrs(ns)|
  {
    if |ns| == 0 then []
    else
      var rest := KeepElements(ns[1..], if ns[0].Elem? && n > 0 then n - 1 else n);
      if ns[0].Text? then
        assert ([ns[0]] + rest)[1..] == rest;
        assert ns == [ns[0]] + ns[1..];
        [ns[0]] + rest
      else if n > 0 then
        assert ([ns[0]] + rest)[1..] == rest;
        assert ns == [ns[0]] + ns[1..];
        PrefixCons(ns[0], ElemsOf(ns[1..]), n);
        [ns[0]] + rest
      else rest
  }

  /** How the budget of `n` element children carries from one part of a
      sequence to the next; with `KeepElementsSingle` this fixes which nodes
      are kept and in what order. */
  lemma {:induction false} KeepElementsConcat(xs: seq<Node>, ys: seq<Node>, n: nat)
    ensures KeepElements(xs + ys, n) == KeepElements(xs, n) + KeepElements(ys, Budget(xs, n))
  {
    if |xs| > 0 {
      var x, xt := xs[0], xs[1..];
      var m := if x.Elem? && n > 0 then n - 1 else n;
      var h := if x.Text? || n > 0 then [x] else [];
      var left := KeepElements(xt, m);
      var right := KeepElements(ys, Budget(xt, m));
      assert KeepElements(xs + ys, n) == h + (left + right) by {
        ConsConcat(xs, ys);
        KeepElementsUnfold(xs + ys, n);
        KeepElementsConcat(xt, ys, m);
      }
      assert KeepElements(xs, n) == h + left by {
        KeepElementsUnfold(xs, n);
      }
      BudgetStep(xs, n);
      ConcatAssoc(h, left, right);
    } else {
      assert xs + ys == ys;
    }
  }

  lemma ConsConcat<T>(xs: seq<T>, ys: seq<T>)
    requires |xs| > 0
    ensures (xs + ys)[0] == xs[0] && (xs + ys)[1..] == xs[1..] + ys
  {
  }

  lemma BudgetStep(xs: seq<Node>, n: nat)
    requires |xs| > 0
    ensures Budget(xs[1..], if xs[0].Elem? && n > 0 then n - 1 else n) == Budget(xs, n)
  {
  }

  /** What is left of a budget of `n` element children after `ns`. */
  function Budget(ns: seq<Node>, n: nat): nat {
    if ElemCount(ns) <= n then n - ElemCount(ns) else 0
  }

  lemma ConcatAssoc<T>(a: seq<T>, b: seq<T>, c: seq<T>)
    ensures a + (b + c) == (a + b) + c
  {
  }

  lemma KeepElementsUnfold(ns: seq<Node>, n: nat)
    requires |ns| > 0
    ensures KeepElements(ns, n)
         == (if ns[0].Text? || n > 0 then [ns[0]] else [])
          + KeepElements(ns[1..], if ns[0].Elem? && n > 0 then n - 1 else n)
  {
  }

  /** A text node is always kept; an element is kept while the budget lasts. */
  lemma KeepElementsSingle(x: Node, n: nat)
    ensures KeepElements([x], n) == if x.Text? || n > 0 then [x] else []
  {
    assert [x][1..] == [];
  }

  /** Every `ul`/`ol`, outer lists first, keeps only its first ten element
      children. Truncating a list after its children were processed gives the
      same tree, since processing keeps each child in place. */
  function TruncateLists(ns: seq<Node>): (r: seq<Node>)
    ensures ListsBounded(r, MaxListItems)
    ensures forall rule :: AllHeads(ns, rule) ==> AllHeads(r, rule)
    ensures |ImgAttrs(r)| <= |ImgAttrs(ns)|
    ensures |r| == |ns| && TextOnly(r) == TextOnly(ns)
    ensures forall i :: 0 <= i < |ns| ==> r[i] == TruncateNode(ns[i])
  {
    if |ns| == 0 then []
    else
      var head := TruncateNode(ns[0]);
      var rest := TruncateLists(ns[1..]);
      assert ([head] + rest)[1..] == rest;
      [head] + rest
  }

  function TruncateNode(n: Node): (r: Node)
    ensures NodeListsBounded(r, MaxListItems)
    ensures forall rule :: NodeOk(n, rule) ==> NodeOk(r, rule)
    ensures |NodeImgs(r)| <= |NodeImgs(n)|
    ensures n.Text? ==> r == n
    ensures n.Elem? ==> r.Elem? && r.tag == n.tag && r.classes == n.classes && r.attrs == n.attrs
    ensures n.Elem? ==> |r.children| <= |n.children| && TextOnly(r.children) == TextOnly(n.children)
    ensures n.Elem? && IsList(n.tag) ==> ElemsOf(r.children) == Prefix(ElemsOf(TruncateLists(n.children)), MaxListItems)
    ensures n.Elem? && !IsList(n.tag) ==> r.children == TruncateLists(n.children)
    ensures n.Elem? && IsList(n.tag) ==> r.children == KeepElements(TruncateLists(n.children), MaxListItems)
  {
    match n
    case Text(_) => n
    case Elem(t, c, a, kids) =>
      var inner := TruncateLists(kids);
      Elem(t, c, a, if IsList(t) then KeepElements(inner, MaxListItems) else inner)
  }

  /** A tree whose lists are all short enough comes through unchanged. */
  lemma {:induction false} TruncateListsKeepsBounded(ns: seq<Node>)
    requires ListsBounded(ns, MaxListItems)
    ensures TruncateLists(ns) == ns
  {
    if |ns| > 0 {
      TruncateNodeKeepsBounded(ns[0]);
      TruncateListsKeepsBounded(ns[1..]);
      assert ns == [ns[0]] + ns[1..];
    }
  }

  lemma {:induction false} TruncateNodeKeepsBounded(n: Node)
    requires NodeListsBounded(n, MaxListItems)
    ensures TruncateNode(n) == n
  {
    match n
    case Text(_) =>
    case Elem(t, c, a, kids) =>
      TruncateListsKeepsBounded(kids);
  }

  // ------------------------------------------------------------ the whole sanitiser

  /** Everything the sanitiser guarantees about its output. */
  predicate Safe(r: seq<Node>) {
    && AllHeads(r, NoTags(ScriptTags)) && AllHeads(r, NoTags(TableTags))
    && AllHeads(r, NoClasses(BlockedClasses))
    && AllHeads(r, AnchorsOpenSafely)
    && AllHeads(r, ImagesLazy)
    && |ImgAttrs(r)| <= MaxImages
    && ListsBounded(r, MaxListItems)
  }

  /** `sanitizeWvSection` over the parsed markup, `encodedTitle` being
      `encodeURIComponent(title)`. */
  function Sanitize(ns: seq<Node>, encodedTitle: string): (r: seq<Node>)
    ensures AllHeads(r, NoTags(ScriptTags)) && AllHeads(r, NoTags(TableTags))
    ensures AllHeads(r, NoClasses(BlockedClasses))
    ensures AllHeads(r, AnchorsOpenSafely)
    ensures AllHeads(r, ImagesLazy)
    ensures |ImgAttrs(r)| <= MaxImages
    ensures ListsBounded(r, MaxListItems)
  {
    var p1 := RemoveWhere(ns, ScriptTags, {});
    var p2 := FixAnchors(p1, encodedTitle);
    var p3 := RemoveWhere(p2, TableTags, BlockedClasses);
    var p4 := FixImages(p3, 0);
    FixImagesLazy(p3, 0);
    FixImagesKeepsFirst(p3, 0);
    TruncateLists(p4)
  }

  /** Pass 2 never turns a text node into an element, so no list grows. */
  lemma {:induction false} FixAnchorsListsBounded(ns: seq<Node>, encodedTitle: string, b: nat)
    requires ListsBounded(ns, b)
    ensures ListsBounded(FixAnchors(ns, encodedTitle), b)
    ensures ElemCount(FixAnchors(ns, encodedTitle)) <= ElemCount(ns)
  {
    if |ns| > 0 {
      var r := FixAnchors(ns, encodedTitle);
      FixAnchorListsBounded(ns[0], encodedTitle, b);
      FixAnchorsListsBounded(ns[1..], encodedTitle, b);
      assert r[1..] == FixAnchors(ns[1..], encodedTitle);
    }
  }

  lemma {:induction false} FixAnchorListsBounded(n: Node, encodedTitle: string, b: nat)
    requires NodeListsBounded(n, b)
    ensures NodeListsBounded(FixAnchor(n, encodedTitle), b)
    ensures FixAnchor(n, encodedTitle).Elem? ==> n.Elem?
  {
    match n
    case Text(_) =>
    case Elem(t, c, a, kids) =>
      FixAnchorsListsBounded(kids, encodedTitle, b);
  }

  /** Pass 4 only removes elements, so no list grows. */
  lemma {:induction false} FixImagesListsBounded(ns: seq<Node>, seen: nat, b: nat)
    requires ListsBounded(ns, b)
    ensures ListsBounded(FixImages(ns, seen), b)
    ensures ElemCount(FixImages(ns, seen)) <= ElemCount(ns)
  {
    if |ns| > 0 {
      var head := FixImage(ns[0], seen);
      var rest := FixImages(ns[1..], seen + |NodeImgs(ns[0])|);
      FixImageListsBounded(ns[0], seen, b);
      FixImagesListsBounded(ns[1..], seen + |NodeImgs(ns[0])|, b);
      if head == [] {
        assert head + rest == rest;
      } else {
        assert (head + rest)[0] == head[0] && (head + rest)[1..] == rest;
      }
    }
  }

  lemma {:induction false} FixImageListsBounded(n: Node, seen: nat, b: nat)
    requires NodeListsBounded(n, b)
    ensures forall m :: m in FixImage(n, seen) ==> NodeListsBounded(m, b) && (m.Elem? ==> n.Elem?)
  {
    match n
    case Text(_) =>
    case Elem(t, c, a, kids) =>
      if t != "img" {
        FixImagesListsBounded(kids, seen, b);
      } else if seen < MaxImages {
        FixImagesListsBounded(kids, seen + 1, b);
      }
  }

  /** Within the six-image budget pass 4 removes nothing, so the text stays. */
  lemma {:induction false} FixImagesKeepsText(ns: seq<Node>, seen: nat)
    requires seen + |ImgAttrs(ns)| <= MaxImages
    ensures TextContent(FixImages(ns, seen)) == TextContent(ns)
  {
    if |ns| > 0 {
      var head := FixImage(ns[0], seen);
      var rest := FixImages(ns[1..], seen + |NodeImgs(ns[0])|);
      FixImageKeepsText(ns[0], seen);
      FixImagesKeepsText(ns[1..], seen + |NodeImgs(ns[0])|);
      TextContentConcat(head, rest);
    }
  }

  lemma {:induction false} FixImageKeepsText(n: Node, seen: nat)
    requires seen + |NodeImgs(n)| <= MaxImages
    ensures TextContent(FixImage(n, seen)) == NodeText(n)
  {
    match n
    case Text(_) =>
      assert TextContent([n]) == NodeText(n) + TextContent([]);
    case Elem(t, c, a, kids) =>
      var r := FixImage(n, seen);
      if t != "img" {
        FixImagesKeepsText(kids, seen);
      } else {
        FixImagesKeepsText(kids, seen + 1);
      }
      assert TextContent(r) == NodeText(r[0]) + TextContent([]);
  }

  /** When nothing in the section is removed (no dropped tag or class, at most
      six images, no over-long list), only the anchor and image passes act, so
      edit links become their own text, every other change is to anchor and
      image attributes, and the text survives sanitising whole. */
  lemma SanitizeKeepsText(ns: seq<Node>, encodedTitle: string)
    requires AllHeads(ns, NoTags(ScriptTags)) && AllHeads(ns, NoTags(TableTags))
    requires AllHeads(ns, NoClasses(BlockedClasses))
    requires |ImgAttrs(ns)| <= MaxImages && ListsBounded(ns, MaxListItems)
    ensures Sanitize(ns, encodedTitle) == FixImages(FixAnchors(ns, encodedTitle), 0)
    ensures TextContent(Sanitize(ns, encodedTitle)) == TextContent(ns)
  {
    AllHeadsTrivial(ns, NoClasses({}));
    RemoveWhereKeepsClean(ns, ScriptTags, {});
    var p2 := FixAnchors(ns, encodedTitle);
    RemoveWhereKeepsClean(p2, TableTags, BlockedClasses);
    FixAnchorsListsBounded(ns, encodedTitle, MaxListItems);
    FixImagesKeepsText(p2, 0);
    FixImagesListsBounded(p2, 0, MaxListItems);
    TruncateListsKeepsBounded(FixImages(p2, 0));
  }

  /** Nothing for any pass to do: no element the passes remove, no anchor, no
      image and no over-long list. */
  predicate Clean(ns: seq<Node>) {
    && AllHeads(ns, NoTags(ScriptTags)) && AllHeads(ns, NoTags(TableTags))
    && AllHeads(ns, NoClasses(BlockedClasses)) && AllHeads(ns, NoTags({"a"}))
    && ImgAttrs(ns) == [] && ListsBounded(ns, MaxListItems)
  }

  /** The sanitiser only changes what it has to: a clean tree comes out as it
      went in. */
  lemma SanitizeKeepsClean(ns: seq<Node>, encodedTitle: string)
    requires Clean(ns)
    ensures Sanitize(ns, encodedTitle) == ns
  {
    AllHeadsTrivial(ns, NoClasses({}));
    RemoveWhereKeepsClean(ns, ScriptTags, {});
    FixAnchorsKeepsAnchorFree(ns, encodedTitle);
    RemoveWhereKeepsClean(ns, TableTags, BlockedClasses);
    FixImagesKeepsImageFree(ns, 0);
    TruncateListsKeepsBounded(ns);
  }

  /** Why the passes run in this order: an edit link with class `noprint` is
      unwrapped to its text by the anchor pass before the class pass runs, so
      its text stays; with the class pass first, the whole link would go. */
  lemma EditLinkTextOutlivesBlockedClass(href: string, text: string, encodedTitle: string)
    requires href != "" && IsEditLink(href)
    ensures var link := Elem("a", ["noprint"], map["href" := href], [Text(text)]);
            && Sanitize([link], encodedTitle) == [Text(text)]
            && FixAnchors(RemoveWhere([link], TableTags, BlockedClasses), encodedTitle) == []
  {
    var link := Elem("a", ["noprint"], map["href" := href], [Text(text)]);
    var unwrapped := [Text(text)];
    assert RemoveWhere([link], ScriptTags, {}) == [link] by {
      RemoveWhereSingle(link, ScriptTags, {});
      RemoveWhereSingle(Text(text), ScriptTags, {});
    }
    assert FixAnchors([link], encodedTitle) == unwrapped by {
      assert Href(link.attrs) == href;
      assert TextContent(link.children) == text + TextContent([]);
      assert FixAnchor(link, encodedTitle) == Text(text);
      var r := FixAnchors([link], encodedTitle);
      assert |r| == 1 && r[0] == Text(text);
    }
    assert RemoveWhere(unwrapped, TableTags, BlockedClasses) == unwrapped by {
      RemoveWhereSingle(Text(text), TableTags, BlockedClasses);
    }
    assert FixImages(unwrapped, 0) == unwrapped by {
      FixImagesSingle(Text(text), 0);
      FixImageShape(Text(text), 0);
    }
    assert TruncateLists(unwrapped) == unwrapped;
    assert RemoveWhere([link], TableTags, BlockedClasses) == [] by {
      RemoveWhereSingle(link, TableTags, BlockedClasses);
      assert "noprint" in link.classes;
    }
  }
}
