/** The document tree the sanitiser works on (what the browser's parser makes
    of a section's markup), and the whole-tree properties stated about it. */
module Html {

  /** An element with its lower-case tag name, its class tokens, its
      attributes and its child nodes; or a text node. */
  datatype Node =
    | Elem(tag: string, classes: seq<string>, attrs: map<string, string>, children: seq<Node>)
    | Text(text: string)

  /** `textContent`: the text of every text node below, in document order. */
  function TextContent(ns: seq<Node>): string {
    if |ns| == 0 then "" else NodeText(ns[0]) + TextContent(ns[1..])
  }

  function NodeText(n: Node): string {
    match n
    case Text(s) => s
    case Elem(_, _, _, kids) => TextContent(kids)
  }

  lemma {:induction false} TextContentConcat(xs: seq<Node>, ys: seq<Node>)
    ensures TextContent(xs + ys) == TextContent(xs) + TextContent(ys)
  {
    if |xs| > 0 {
      assert (xs + ys)[0] == xs[0];
      assert (xs + ys)[1..] == xs[1..] + ys;
      TextContentConcat(xs[1..], ys);
    } else {
      assert xs + ys == ys;
    }
  }

  // ------------------------------------------------------------ per-element rules

  /** Properties of one element's tag, classes and attributes alone. */
  datatype Rule =
    | NoTags(tags: set<string>)           // no element with one of these tags
    | NoClasses(banned: set<string>)      // no element carrying one of these classes
    | AnchorsOpenSafely                   // a linking anchor opens a new context without opener
    | ImagesLazy                          // every image defers loading

  predicate HeadOk(rule: Rule, tag: string, classes: seq<string>, attrs: map<string, string>) {
    match rule
    case NoTags(tags) => tag !in tags
    case NoClasses(banned) => forall c :: c in classes ==> c !in banned
    case AnchorsOpenSafely =>
      tag == "a" && "href" in attrs ==>
        "target" in attrs && attrs["target"] == "_blank" && "rel" in attrs && attrs["rel"] == "noopener"
    case ImagesLazy => tag == "img" ==> "loading" in attrs && attrs["loading"] == "lazy"
  }

  /** Every element anywhere in `ns` satisfies `rule`. */
  predicate AllHeads(ns: seq<Node>, rule: Rule) {
    |ns| == 0 || (NodeOk(ns[0], rule) && AllHeads(ns[1..], rule))
  }

  predicate NodeOk(n: Node, rule: Rule) {
    match n
    case Text(_) => true
    case Elem(t, c, a, kids) => HeadOk(rule, t, c, a) && AllHeads(kids, rule)
  }

  lemma AllHeadsSingle(n: Node)
    ensures forall rule :: AllHeads([n], rule) <==> NodeOk(n, rule)
  {
    assert [n][1..] == [];
  }

  lemma {:induction false} AllHeadsConcat(xs: seq<Node>, ys: seq<Node>)
    ensures forall rule :: AllHeads(xs + ys, rule) <==> AllHeads(xs, rule) && AllHeads(ys, rule)
  {
    if |xs| > 0 {
      assert (xs + ys)[0] == xs[0];
      assert (xs + ys)[1..] == xs[1..] + ys;
      AllHeadsConcat(xs[1..], ys);
    } else {
      assert xs + ys == ys;
    }
  }

  /** A rule every element head meets holds throughout any tree. */
  lemma {:induction false} AllHeadsTrivial(ns: seq<Node>, rule: Rule)
    requires forall t, c, a :: HeadOk(rule, t, c, a)
    ensures AllHeads(ns, rule)
  {
    if |ns| > 0 {
      NodeOkTrivial(ns[0], rule);
      AllHeadsTrivial(ns[1..], rule);
    }
  }

  lemma {:induction false} NodeOkTrivial(n: Node, rule: Rule)
    requires forall t, c, a :: HeadOk(rule, t, c, a)
    ensures NodeOk(n, rule)
  {
    match n
    case Text(_) =>
    case Elem(_, _, _, kids) =>
      AllHeadsTrivial(kids, rule);
  }

  // ------------------------------------------------------------ images

  /** The attribute maps of the `img` elements of `ns`, in document order
      (what `querySelectorAll('img')` enumerates). */
  function ImgAttrs(ns: seq<Node>): seq<map<string, string>> {
    if |ns| == 0 then [] else NodeImgs(ns[0]) + ImgAttrs(ns[1..])
  }

  function NodeImgs(n: Node): seq<map<string, string>> {
    match n
    case Text(_) => []
    case Elem(t, _, a, kids) => (if t == "img" then [a] else []) + ImgAttrs(kids)
  }

  lemma {:induction false} ImgAttrsConcat(xs: seq<Node>, ys: seq<Node>)
    ensures ImgAttrs(xs + ys) == ImgAttrs(xs) + ImgAttrs(ys)
  {
    if |xs| > 0 {
      assert (xs + ys)[0] == xs[0];
      assert (xs + ys)[1..] == xs[1..] + ys;
      ImgAttrsConcat(xs[1..], ys);
    } else {
      assert xs + ys == ys;
    }
  }

  // ------------------------------------------------------------ lists

  /** Number of element nodes among `ns` (what `children.length` counts). */
  function ElemCount(ns: seq<Node>): nat {
    if |ns| == 0 then 0 else (if ns[0].Elem? then 1 else 0) + ElemCount(ns[1..])
  }

  predicate IsList(tag: string) {
    tag == "ul" || tag == "ol"
  }

  /** Every `ul`/`ol` anywhere in `ns` has at most `bound` element children. */
  predicate ListsBounded(ns: seq<Node>, bound: nat) {
    |ns| == 0 || (NodeListsBounded(ns[0], bound) && ListsBounded(ns[1..], bound))
  }

  predicate NodeListsBounded(n: Node, bound: nat) {
    match n
    case Text(_) => true
    case Elem(t, _, _, kids) => (IsList(t) ==> ElemCount(kids) <= bound) && ListsBounded(kids, bound)
  }
}
