/** The guide's tab list (app.js:451-466): the outline's sections are indexed
    by trimmed, lower-cased heading, and the wanted topics are looked up in a
    fixed order. */
module GuideIndex {
  import Wrappers
  import Seqs
  import opened Text

  /** `Number(s.index)`: an integer, or NaN when the index is not numeric. */
  datatype SectionNumber = Finite(value: int) | NaN

  /** One entry of the outline's `sections`; a missing `line` is written "". */
  datatype Section = Section(line: string, index: SectionNumber)

  datatype Tab = Tab(topic: string, index: int)

  /** The topics shown as tabs, in display order. */
  const WantedOrder: seq<string> := ["Get in", "See", "Do", "Eat", "Respect", "Stay safe"]

  function LineKey(line: string): string {
    ToLower(Trim(line))
  }

  /** `if (idx)`: zero and NaN are falsy. */
  predicate TruthyNumber(n: SectionNumber) {
    n.Finite? && n.value != 0
  }

  /** The key a section is entered under: its trimmed, lower-cased line, or
      none when the line is missing or empty (`if (s?.line)`). */
  function KeyOf(s: Section): Wrappers.Option<string> {
    if s.line != "" then Wrappers.Some(LineKey(s.line)) else Wrappers.None
  }

  /** A section reduced to what the index needs: its key and its number. */
  datatype Entry = Entry(key: Wrappers.Option<string>, number: SectionNumber)

  function Entries(sections: seq<Section>): (es: seq<Entry>)
    ensures |es| == |sections|
  {
    seq(|sections|, i requires 0 <= i < |sections| => Entry(KeyOf(sections[i]), sections[i].index))
  }

  /** `i` is the last entry under key `k`. */
  predicate LastWith(es: seq<Entry>, k: string, i: int) {
    && 0 <= i < |es| && es[i].key == Wrappers.Some(k)
    && forall j :: i < j < |es| ==> es[j].key != Wrappers.Some(k)
  }

  /** The position of the last entry under key `k`, or -1 when there is none. */
  function LastKeyed(es: seq<Entry>, k: string): (i: int)
    ensures -1 <= i < |es|
    ensures i >= 0 ==> LastWith(es, k, i)
    ensures i < 0 ==> forall j :: 0 <= j < |es| ==> es[j].key != Wrappers.Some(k)
  {
    Seqs.LastIndex(es, (e: Entry) => e.key == Wrappers.Some(k))
  }

  /** Entering the entries in order into a map, a later entry overwriting an
      earlier one under the same key: each key holds the number of the last
      entry under it. */
  function IndexOf(es: seq<Entry>): (m: map<string, SectionNumber>)
    ensures forall k :: k in m <==> LastKeyed(es, k) >= 0
    ensures forall k :: k in m ==> m[k] == es[LastKeyed(es, k)].number
  {
    if |es| == 0 then map[]
    else
      var e := es[|es| - 1];
      var m := IndexOf(es[..|es| - 1]);
      if e.key.Some? then m[e.key.value := e.number] else m
  }

  /** The `lineToIndex` map. */
  function LineIndex(sections: seq<Section>): map<string, SectionNumber> {
    IndexOf(Entries(sections))
  }

  /** Label `w` is found and its index is truthy. */
  predicate Resolves(m: map<string, SectionNumber>, w: string) {
    ToLower(w) in m && TruthyNumber(m[ToLower(w)])
  }

  /** `a` is `b` with some elements left out, order kept. */
  predicate Subsequence<T(==)>(a: seq<T>, b: seq<T>)
    decreases |b|
  {
    && |a| <= |b|
    && (|a| == 0 || (a[0] == b[0] && Subsequence(a[1..], b[1..])) || Subsequence(a, b[1..]))
  }

  function Labels(tabs: seq<Tab>): (ls: seq<string>)
    ensures |ls| == |tabs| && forall i :: 0 <= i < |tabs| ==> ls[i] == tabs[i].topic
  {
    if |tabs| == 0 then [] else [tabs[0].topic] + Labels(tabs[1..])
  }

  predicate HasTab(tabs: seq<Tab>, w: string) {
    exists t :: t in tabs && t.topic == w
  }

  /** The `for (const label of wantedOrder)` loop: exactly the labels that
      resolve, in wanted order, each with the index found for it. */
  function Tabs(m: map<string, SectionNumber>, wanted: seq<string>): (tabs: seq<Tab>)
    ensures forall t :: t in tabs ==>
              t.topic in wanted && Resolves(m, t.topic) && m[ToLower(t.topic)] == Finite(t.index)
    ensures forall w :: w in wanted ==> (HasTab(tabs, w) <==> Resolves(m, w))
    ensures Subsequence(Labels(tabs), wanted)
  {
    if |wanted| == 0 then []
    else
      var rest := Tabs(m, wanted[1..]);
      var w := wanted[0];
      if Resolves(m, w) then
        var t := Tab(w, m[ToLower(w)].value);
        assert Labels([t] + rest)[1..] == Labels(rest);
        [t] + rest
      else rest
  }

  predicate Distinct<T(==)>(s: seq<T>) {
    |s| == 0 || (s[0] !in s[1..] && Distinct(s[1..]))
  }

  lemma {:induction false} SubsequenceElements<T>(a: seq<T>, b: seq<T>)
    requires Subsequence(a, b)
    ensures forall x :: x in a ==> x in b
  {
    if |a| > 0 {
      if a[0] == b[0] && Subsequence(a[1..], b[1..]) {
        SubsequenceElements(a[1..], b[1..]);
        assert forall x :: x in a ==> x == a[0] || x in a[1..];
      } else {
        SubsequenceElements(a, b[1..]);
      }
    }
  }

  /** A subsequence of a list without repeats has no repeats. */
  lemma {:induction false} SubsequenceDistinct<T>(a: seq<T>, b: seq<T>)
    requires Subsequence(a, b) && Distinct(b)
    ensures Distinct(a)
  {
    if |a| > 0 {
      if a[0] == b[0] && Subsequence(a[1..], b[1..]) {
        SubsequenceDistinct(a[1..], b[1..]);
        SubsequenceElements(a[1..], b[1..]);
      } else {
        SubsequenceDistinct(a, b[1..]);
      }
    }
  }

  /** What the page shows: the tab list, or "Guide not available." when the
      outline request failed or no wanted topic resolved. */
  datatype Guide = GuideNotAvailable | Guide(tabs: seq<Tab>)

  function ResolveGuide(outline: Wrappers.Option<seq<Section>>): (g: Guide)
    ensures g.GuideNotAvailable? <==>
              outline.None? || forall w :: w in WantedOrder ==> !Resolves(LineIndex(outline.value), w)
    ensures g.Guide? ==> g.tabs != [] && g.tabs == Tabs(LineIndex(outline.value), WantedOrder)
  {
    match outline
    case None => GuideNotAvailable
    case Some(sections) =>
      var tabs := Tabs(LineIndex(sections), WantedOrder);
      if tabs == [] then GuideNotAvailable
      else
        assert tabs[0] in tabs;
        Guide(tabs)
  }

  /** The tabs follow the wanted order and no topic appears twice. */
  lemma TabsDistinct(sections: seq<Section>)
    ensures Distinct(Labels(Tabs(LineIndex(sections), WantedOrder)))
  {
    WantedOrderDistinct();
    SubsequenceDistinct(Labels(Tabs(LineIndex(sections), WantedOrder)), WantedOrder);
  }

  lemma WantedOrderDistinct()
    ensures Distinct(WantedOrder)
  {
    assert Distinct(WantedOrder[5..]);
    assert Distinct(WantedOrder[4..]);
    assert Distinct(WantedOrder[3..]);
    assert Distinct(WantedOrder[2..]);
    assert Distinct(WantedOrder[1..]);
  }

  /** `i` is the last section whose non-empty heading, trimmed and
      lower-cased, is `k`. */
  predicate LastHeaded(sections: seq<Section>, k: string, i: int) {
    && 0 <= i < |sections| && sections[i].line != "" && LineKey(sections[i].line) == k
    && forall j :: i < j < |sections| ==> sections[j].line == "" || LineKey(sections[j].line) != k
  }

  /** Against the outline itself: a wanted topic gets a tab exactly when the
      last section headed by that topic (after trimming and lower-casing) has a
      truthy index, and the tab carries that index. */
  lemma TabIffLastSectionTruthy(sections: seq<Section>, wanted: seq<string>, w: string)
    requires w in wanted
    ensures HasTab(Tabs(LineIndex(sections), wanted), w) <==>
              exists i :: LastHeaded(sections, ToLower(w), i) && TruthyNumber(sections[i].index)
    ensures forall t :: t in Tabs(LineIndex(sections), wanted) && t.topic == w ==>
              exists i :: LastHeaded(sections, ToLower(w), i) && sections[i].index == Finite(t.index)
  {
    var es := Entries(sections);
    LastHeadedIsLastWith(sections, ToLower(w));
    TabIffLastEntryTruthy(es, wanted, w);
  }

  /** The last heading among the sections is the last key among the entries. */
  lemma LastHeadedIsLastWith(sections: seq<Section>, k: string)
    ensures forall i :: LastHeaded(sections, k, i) <==> LastWith(Entries(sections), k, i)
  {
    var es := Entries(sections);
    assert forall j :: 0 <= j < |sections| ==>
             (es[j].key == Wrappers.Some(k) <==> sections[j].line != "" && LineKey(sections[j].line) == k);
  }

  /** The same, stated over the entries. */
  lemma TabIffLastEntryTruthy(es: seq<Entry>, wanted: seq<string>, w: string)
    requires w in wanted
    ensures HasTab(Tabs(IndexOf(es), wanted), w) <==> exists i :: LastWith(es, ToLower(w), i) && TruthyNumber(es[i].number)
    ensures forall t :: t in Tabs(IndexOf(es), wanted) && t.topic == w ==>
              exists i :: LastWith(es, ToLower(w), i) && es[i].number == Finite(t.index)
  {
    var m, k := IndexOf(es), ToLower(w);
    LastIsUnique(es, k);
    var last := LastKeyed(es, k);
    if Resolves(m, w) {
      assert LastWith(es, k, last) && TruthyNumber(es[last].number);
    } else {
      assert !exists i :: LastWith(es, k, i) && TruthyNumber(es[i].number);
    }
  }

  lemma LastIsUnique(es: seq<Entry>, k: string)
    ensures forall i :: LastWith(es, k, i) ==> i == LastKeyed(es, k)
  {
  }
}
