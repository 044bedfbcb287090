/** The document side of the in-page search (extension/src/hooks/useSearch.js).

    The page is modelled as the sequence of its text leaves in document order (the
    order a TreeWalker over `document.body` visits them). Every leaf carries its node
    identity, the chain of its ancestor elements (nearest first, so `ancestors[0]` is
    `parentElement` and `parentNode`) and its `nodeValue`. Element classes live in a
    separate map from element identity to class set.

    This module holds the pure specification of one scan (`ScanDoc`), the node
    operations the hook performs (`ReplaceChild`, the `contains` guard and
    `replaceWith` of `clearHighlights`), the class bookkeeping of `scrollToResult`, and
    the lemmas about them. */
module SearchDom {
  import opened Strings
  import opened SearchText

  datatype Element = Element(id: nat, tag: string)
  datatype TextNode = TextNode(id: nat, ancestors: seq<Element>, value: string)

  /** `{ element: mark, index }` of useSearch.js:76. */
  datatype MatchRecord = MatchRecord(element: Element, index: nat)

  /** `{ parent, node: node.cloneNode() }` of useSearch.js:84. */
  datatype UndoEntry = UndoEntry(parent: Element, node: TextNode)

  /** The undo information the comment at useSearch.js:9 has in mind but the code does
      not keep: the original leaf and the pieces that took its place. */
  datatype Splice = Splice(original: TextNode, pieces: seq<TextNode>)

  /** Tags whose text the walker rejects (useSearch.js:39). */
  const Exempt: seq<string> := ["SCRIPT", "STYLE", "NOSCRIPT", "MARK"]
  const MarkTag: string := "MARK"
  const Highlight: string := "search-highlight"
  const Current: string := "search-highlight-current"

  type Classes = map<nat, set<string>>

  // ---------------------------------------------------------------------------
  // Identities

  predicate PathBelow(path: seq<Element>, n: nat)
  {
    forall a :: 0 <= a < |path| ==> path[a].id < n
  }

  predicate NodeBelow(x: TextNode, n: nat)
  {
    x.id < n && PathBelow(x.ancestors, n)
  }

  /** Every node and element identity in `s` is below `n` (so `n` and above are fresh). */
  predicate IdsBelow(s: seq<TextNode>, n: nat)
  {
    forall i :: 0 <= i < |s| ==> NodeBelow(s[i], n)
  }

  /** No text node occurs twice in the document. */
  predicate DistinctIds(s: seq<TextNode>)
  {
    forall i, j :: 0 <= i < j < |s| ==> s[i].id != s[j].id
  }

  /** `DistinctIds` stated leaf by leaf, from the back: each leaf differs from all
      before it. */
  ghost predicate Unique(s: seq<TextNode>)
    decreases |s|
  {
    s == [] || (Unique(s[..|s| - 1]) && forall r :: 0 <= r < |s| - 1 ==> s[r].id != s[|s| - 1].id)
  }

  lemma {:induction false} UniqueIffDistinct(s: seq<TextNode>)
    ensures Unique(s) <==> DistinctIds(s)
    decreases |s|
  {
    if s != [] {
      var t := s[..|s| - 1];
      UniqueIffDistinct(t);
      if DistinctIds(s) {
        assert DistinctIds(t) by {
          forall i, j | 0 <= i < j < |t| ensures t[i].id != t[j].id {
            assert t[i] == s[i] && t[j] == s[j];
          }
        }
      }
      if Unique(s) {
        forall i, j | 0 <= i < j < |s| ensures s[i].id != s[j].id {
          if j < |s| - 1 {
            assert t[i] == s[i] && t[j] == s[j];
          }
        }
      }
    }
  }

  /** The first leaf with identity `id`. */
  function IndexOfId(s: seq<TextNode>, id: nat): (r: Option<nat>)
    ensures r.Some? ==> r.value < |s| && s[r.value].id == id
    ensures r.Some? ==> forall i :: 0 <= i < r.value ==> s[i].id != id
    ensures r.None? ==> forall i :: 0 <= i < |s| ==> s[i].id != id
    decreases |s|
  {
    if s == [] then None
    else if s[0].id == id then Some(0)
    else
      match IndexOfId(s[1..], id)
      case None => None
      case Some(k) => Some(k + 1)
  }

  // ---------------------------------------------------------------------------
  // Text content

  /** `document.body.textContent`, restricted to the leaves. */
  function TextOf(s: seq<TextNode>): string
    decreases |s|
  {
    if s == [] then "" else s[0].value + TextOf(s[1..])
  }

  lemma {:induction false} TextOfAppend(a: seq<TextNode>, b: seq<TextNode>)
    ensures TextOf(a + b) == TextOf(a) + TextOf(b)
    decreases |a|
  {
    if a == [] {
      assert a + b == b;
    } else {
      assert (a + b)[1..] == a[1..] + b;
      TextOfAppend(a[1..], b);
    }
  }

  // ---------------------------------------------------------------------------
  // The walker (useSearch.js:31-54)

  /** The `acceptNode` filter: a parent element whose tag is not exempt, and a value
      that contains the term once both are lower-cased. */
  predicate Accept(x: TextNode, term: string)
  {
    |x.ancestors| > 0 && x.ancestors[0].tag !in Exempt && Includes(Lower(x.value), Lower(term))
  }

  /** The text nodes the walker yields, in document order. */
  function Filter(s: seq<TextNode>, term: string): seq<TextNode>
    decreases |s|
  {
    if s == [] then [] else (if Accept(s[0], term) then [s[0]] else []) + Filter(s[1..], term)
  }

  lemma {:induction false} FilterAppend(a: seq<TextNode>, b: seq<TextNode>, term: string)
    ensures Filter(a + b, term) == Filter(a, term) + Filter(b, term)
    decreases |a|
  {
    if a == [] {
      assert a + b == b;
    } else {
      assert (a + b)[1..] == a[1..] + b;
      FilterAppend(a[1..], b, term);
    }
  }

  /** The walker keeps exactly the accepted leaves, in order. */
  lemma {:induction false} FilterSpec(s: seq<TextNode>, term: string)
    ensures forall x :: x in Filter(s, term) <==> x in s && Accept(x, term)
    decreases |s|
  {
    if s != [] {
      FilterSpec(s[1..], term);
      assert s == [s[0]] + s[1..];
    }
  }

  /** The first node the walker yields and the leaves it passes over to get there. */
  lemma {:induction false} FirstAccepted(s: seq<TextNode>, term: string) returns (q: nat)
    requires Filter(s, term) != []
    ensures q < |s| && s[q] == Filter(s, term)[0] && Accept(s[q], term)
    ensures forall r :: 0 <= r < q ==> !Accept(s[r], term)
    ensures Filter(s[q + 1..], term) == Filter(s, term)[1..]
    decreases |s|
  {
    if Accept(s[0], term) {
      q := 0;
    } else {
      var q' := FirstAccepted(s[1..], term);
      assert s[1..][q' + 1..] == s[q' + 2..];
      q := q' + 1;
    }
  }

  // ---------------------------------------------------------------------------
  // Building the fragment (useSearch.js:65-80)

  datatype FragOut = FragOut(nodes: seq<TextNode>, marks: seq<MatchRecord>, next: nat)

  /** Handles part `k` of the split: an odd part becomes a `mark` element (identity
      `next`) holding a new text node (identity `next + 1`) and one result record; a
      non-empty even part becomes a plain text node; an empty even part is dropped. */
  function PieceStep(f: FragOut, k: nat, part: string, path: seq<Element>, base: nat): (r: FragOut)
    ensures f.next <= r.next
  {
    if k % 2 == 1 then
      var mark := Element(f.next, MarkTag);
      FragOut(f.nodes + [TextNode(f.next + 1, [mark] + path, part)],
              f.marks + [MatchRecord(mark, base + |f.marks|)], f.next + 2)
    else if part != "" then
      FragOut(f.nodes + [TextNode(f.next, path, part)], f.marks, f.next + 1)
    else f
  }

  /** `parts.forEach(...)` from fresh identity `id0`; `base` is `results.length` before. */
  function FragmentOf(parts: seq<string>, path: seq<Element>, id0: nat, base: nat): (f: FragOut)
    ensures id0 <= f.next
    decreases |parts|
  {
    if parts == [] then FragOut([], [], id0)
    else PieceStep(FragmentOf(parts[..|parts| - 1], path, id0, base), |parts| - 1, parts[|parts| - 1], path, base)
  }

  lemma FragmentOfSnoc(parts: seq<string>, i: nat, path: seq<Element>, id0: nat, base: nat)
    requires i < |parts|
    ensures FragmentOf(parts[..i + 1], path, id0, base) == PieceStep(FragmentOf(parts[..i], path, id0, base), i, parts[i], path, base)
  {
    assert parts[..i + 1][..i] == parts[..i];
  }

  /** The mark element `x` sits in, when that mark was created at or after `lo`. */
  predicate IsNewMark(x: TextNode, lo: nat)
  {
    |x.ancestors| > 0 && x.ancestors[0].tag == MarkTag && x.ancestors[0].id >= lo
  }

  /** The marks created at or after `lo`, in document order. */
  function MarksOf(s: seq<TextNode>, lo: nat): seq<Element>
    decreases |s|
  {
    if s == [] then []
    else MarksOf(s[..|s| - 1], lo) + (if IsNewMark(s[|s| - 1], lo) then [s[|s| - 1].ancestors[0]] else [])
  }

  lemma {:induction false} MarksOfAppend(a: seq<TextNode>, b: seq<TextNode>, lo: nat)
    ensures MarksOf(a + b, lo) == MarksOf(a, lo) + MarksOf(b, lo)
    decreases |b|
  {
    if b == [] {
      assert a + b == a;
    } else {
      assert (a + b)[..|a + b| - 1] == a + b[..|b| - 1];
      MarksOfAppend(a, b[..|b| - 1], lo);
    }
  }

  lemma MarksOfSingle(x: TextNode, lo: nat)
    ensures MarksOf([x], lo) == if IsNewMark(x, lo) then [x.ancestors[0]] else []
  {
    assert [x][..0] == [];
  }

  /** A document with no element at or above `lo` has no new marks. */
  lemma {:induction false} MarksOfOld(s: seq<TextNode>, lo: nat)
    requires IdsBelow(s, lo)
    ensures MarksOf(s, lo) == []
    decreases |s|
  {
    if s != [] {
      assert IdsBelow(s[..|s| - 1], lo);
      MarksOfOld(s[..|s| - 1], lo);
      assert NodeBelow(s[|s| - 1], lo);
    }
  }

  function Elements(rs: seq<MatchRecord>): seq<Element>
  {
    seq(|rs|, i requires 0 <= i < |rs| => rs[i].element)
  }

  /** The fragment spells the split parts in order. */
  lemma {:induction false} FragmentText(parts: seq<string>, path: seq<Element>, id0: nat, base: nat)
    ensures TextOf(FragmentOf(parts, path, id0, base).nodes) == Concat(parts)
    decreases |parts|
  {
    if parts != [] {
      var init := parts[..|parts| - 1];
      var part := parts[|parts| - 1];
      FragmentText(init, path, id0, base);
      var g := FragmentOf(init, path, id0, base);
      assert parts == init + [part];
      ConcatAppend(init, [part]);
      assert Concat([part]) == part;
      if (|parts| - 1) % 2 == 1 {
        var x := TextNode(g.next + 1, [Element(g.next, MarkTag)] + path, part);
        TextOfAppend(g.nodes, [x]);
        assert TextOf([x]) == part;
      } else if part != "" {
        var x := TextNode(g.next, path, part);
        TextOfAppend(g.nodes, [x]);
        assert TextOf([x]) == part;
      }
    }
  }

  /** The fragment uses only fresh identities, each once. */
  lemma {:induction false} FragmentIds(parts: seq<string>, path: seq<Element>, id0: nat, base: nat)
    requires PathBelow(path, id0)
    ensures var f := FragmentOf(parts, path, id0, base);
      && (forall i :: 0 <= i < |f.nodes| ==> id0 <= f.nodes[i].id && NodeBelow(f.nodes[i], f.next))
      && DistinctIds(f.nodes)
    decreases |parts|
  {
    if parts != [] {
      var init := parts[..|parts| - 1];
      var k := |parts| - 1;
      FragmentIds(init, path, id0, base);
      var g := FragmentOf(init, path, id0, base);
      var f := FragmentOf(parts, path, id0, base);
      assert f == PieceStep(g, k, parts[k], path, base);
      forall i | 0 <= i < |g.nodes| ensures NodeBelow(g.nodes[i], f.next) {
        assert NodeBelow(g.nodes[i], g.next);
      }
    }
  }

  predicate MarksInv(f: FragOut, path: seq<Element>, id0: nat, base: nat, lo: nat)
  {
    && id0 <= f.next
    && (forall m :: 0 <= m < |f.marks| ==> f.marks[m].index == base + m)
    && MarksOf(f.nodes, lo) == Elements(f.marks)
  }

  lemma PieceMarks(g: FragOut, k: nat, part: string, path: seq<Element>, id0: nat, base: nat, lo: nat)
    requires lo <= id0 && PathBelow(path, lo) && MarksInv(g, path, id0, base, lo)
    ensures MarksInv(PieceStep(g, k, part, path, base), path, id0, base, lo)
  {
    var f := PieceStep(g, k, part, path, base);
    if k % 2 == 1 {
      var x := TextNode(g.next + 1, [Element(g.next, MarkTag)] + path, part);
      MarksOfAppend(g.nodes, [x], lo);
      MarksOfSingle(x, lo);
      assert Elements(f.marks) == Elements(g.marks) + [Element(g.next, MarkTag)];
    } else if part != "" {
      var x := TextNode(g.next, path, part);
      MarksOfAppend(g.nodes, [x], lo);
      MarksOfSingle(x, lo);
      assert !IsNewMark(x, lo);
    }
  }

  /** The fragment numbers its results consecutively from `base`, its new marks are
      exactly those results, and a split with a match yields at least one of each. */
  lemma {:induction false} FragmentMarks(parts: seq<string>, path: seq<Element>, id0: nat, base: nat, lo: nat)
    requires lo <= id0 && PathBelow(path, lo)
    ensures var f := FragmentOf(parts, path, id0, base);
      && (forall m :: 0 <= m < |f.marks| ==> f.marks[m].index == base + m)
      && MarksOf(f.nodes, lo) == Elements(f.marks)
      && (|parts| > 1 ==> |f.marks| > 0 && |f.nodes| > 0)
    decreases |parts|
  {
    var f := FragmentOf(parts, path, id0, base);
    if parts == [] {
      assert Elements(f.marks) == [];
    } else {
      var init := parts[..|parts| - 1];
      var k := |parts| - 1;
      FragmentMarks(init, path, id0, base, lo);
      var g := FragmentOf(init, path, id0, base);
      assert f == PieceStep(g, k, parts[k], path, base);
      PieceMarks(g, k, parts[k], path, id0, base, lo);
      if |parts| > 1 && k % 2 == 0 {
        assert |init| > 1;
      }
    }
  }

  // ---------------------------------------------------------------------------
  // One scan (useSearch.js:56-92), specified in one pass over the leaves

  datatype ScanState = ScanState(
    out: seq<TextNode>,           // the document after the leaves seen so far
    results: seq<MatchRecord>,    // `results`
    undo: seq<UndoEntry>,         // `originalNodes`
    splices: seq<Splice>,         // what an exact undo would need
    classes: Classes,             // element classes
    next: nat)                    // the next fresh identity

  function Init(classes: Classes, id0: nat): ScanState
  {
    ScanState([], [], [], [], classes, id0)
  }

  /** `mark.className = "search-highlight"` for each new mark. */
  function AddHighlight(cl: Classes, ms: seq<MatchRecord>): Classes
    decreases |ms|
  {
    if ms == [] then cl
    else AddHighlight(cl, ms[..|ms| - 1])[ms[|ms| - 1].element.id := {Highlight}]
  }

  lemma AddHighlightSnoc(cl: Classes, ms: seq<MatchRecord>, m: MatchRecord)
    ensures AddHighlight(cl, ms + [m]) == AddHighlight(cl, ms)[m.element.id := {Highlight}]
  {
    assert (ms + [m])[..|ms|] == ms;
  }

  /** The leaf is accepted by the walker and its split finds a match, so it is replaced. */
  predicate Replaces(x: TextNode, term: string)
    requires |term| > 0
  {
    Accept(x, term) && |Split(x.value, term)| > 1
  }

  /** The fragment built for `x` when the scan has reached state `st`. */
  function FragAt(st: ScanState, x: TextNode, term: string): FragOut
    requires |term| > 0
  {
    FragmentOf(Split(x.value, term), x.ancestors, st.next, |st.results|)
  }

  /** What happens to one leaf: replaced by its fragment (and recorded for undo, the
      clone taking the next free identity) when the walker accepts it and the split
      finds a match; kept otherwise.  Acceptance requires a parent element, so the
      `if (parent)` test of useSearch.js:83 always holds here. */
  function Step(st: ScanState, x: TextNode, term: string): ScanState
    requires |term| > 0
  {
    if Replaces(x, term) then Replaced(st, x, FragAt(st, x, term)) else Kept(st, x)
  }

  /** `x` replaced by the fragment `f` (useSearch.js:76-86). */
  function Replaced(st: ScanState, x: TextNode, f: FragOut): ScanState
    requires |x.ancestors| > 0
  {
    ScanState(st.out + f.nodes, st.results + f.marks,
              st.undo + [UndoEntry(x.ancestors[0], TextNode(f.next, [], x.value))],
              st.splices + [Splice(x, f.nodes)], AddHighlight(st.classes, f.marks), f.next + 1)
  }

  function Kept(st: ScanState, x: TextNode): ScanState
  {
    st.(out := st.out + [x])
  }

  /** A fragment built from identity `lo` on: fresh, distinct identities below `next`. */
  predicate FreshFrag(f: FragOut, lo: nat)
  {
    && lo <= f.next
    && (forall i :: 0 <= i < |f.nodes| ==> lo <= f.nodes[i].id && NodeBelow(f.nodes[i], f.next))
    && DistinctIds(f.nodes)
  }

  lemma FragAtFresh(p: ScanState, x: TextNode, term: string)
    requires |term| > 0 && PathBelow(x.ancestors, p.next)
    ensures FreshFrag(FragAt(p, x, term), p.next)
  {
    FragmentIds(Split(x.value, term), x.ancestors, p.next, |p.results|);
  }

  function ScanDoc(s: seq<TextNode>, term: string, st0: ScanState): ScanState
    requires |term| > 0
    decreases |s|
  {
    if s == [] then st0 else Step(ScanDoc(s[..|s| - 1], term, st0), s[|s| - 1], term)
  }

  lemma ScanDocSnoc(s: seq<TextNode>, x: TextNode, term: string, st0: ScanState)
    requires |term| > 0
    ensures ScanDoc(s + [x], term, st0) == Step(ScanDoc(s, term, st0), x, term)
  {
    assert (s + [x])[..|s + [x]| - 1] == s;
  }

  /** Leaves the walker rejects are copied through one by one. */
  lemma {:induction false} ScanSkip(s: seq<TextNode>, stretch: seq<TextNode>, term: string, st0: ScanState)
    requires |term| > 0
    requires forall r :: 0 <= r < |stretch| ==> !Accept(stretch[r], term)
    ensures ScanDoc(s + stretch, term, st0) == ScanDoc(s, term, st0).(out := ScanDoc(s, term, st0).out + stretch)
    decreases |stretch|
  {
    if stretch == [] {
      assert s + stretch == s;
    } else {
      var init, x := stretch[..|stretch| - 1], stretch[|stretch| - 1];
      ScanSkip(s, init, term, st0);
      assert s + stretch == (s + init) + [x];
      ScanDocSnoc(s + init, x, term, st0);
      var a, b := ScanDoc(s, term, st0), ScanDoc(s + init, term, st0);
      assert !Accept(x, term);
      assert Step(b, x, term) == Kept(b, x);
      assert a.out + init + [x] == a.out + stretch;
    }
  }

  /** The identity invariant of a scan that has seen the leaves `seen` of a document
      whose identities are all below `id0`: everything it holds is below `next`, every
      old leaf in the new document was seen, every clone and every piece is fresh, and
      no clone is in the document. */
  predicate IdInv(st: ScanState, seen: seq<TextNode>, id0: nat)
  {
    && id0 <= st.next
    && IdsBelow(st.out, st.next)
    && (forall i :: 0 <= i < |st.out| && st.out[i].id < id0 ==> st.out[i] in seen)
    && (forall j :: 0 <= j < |st.undo| ==> id0 <= st.undo[j].node.id < st.next)
    && (forall j, i :: 0 <= j < |st.undo| && 0 <= i < |st.out| ==> st.undo[j].node.id != st.out[i].id)
    && (forall j, k :: 0 <= j < |st.splices| && 0 <= k < |st.splices[j].pieces| ==>
          id0 <= st.splices[j].pieces[k].id < st.next)
  }

  lemma ReplacedIds(p: ScanState, seen: seq<TextNode>, x: TextNode, f: FragOut, id0: nat)
    requires IdInv(p, seen, id0) && NodeBelow(x, id0) && |x.ancestors| > 0 && FreshFrag(f, p.next)
    ensures IdInv(Replaced(p, x, f), seen + [x], id0)
  {
    var st := Replaced(p, x, f);
    forall i | 0 <= i < |st.out| ensures NodeBelow(st.out[i], st.next) && (st.out[i].id < id0 ==> st.out[i] in seen + [x]) {
      if i < |p.out| {
        assert NodeBelow(p.out[i], p.next);
      } else {
        assert st.out[i] == f.nodes[i - |p.out|];
      }
    }
    forall j, i | 0 <= j < |st.undo| && 0 <= i < |st.out| ensures st.undo[j].node.id != st.out[i].id {
      if i < |p.out| {
        assert NodeBelow(p.out[i], p.next);
      } else {
        assert st.out[i] == f.nodes[i - |p.out|];
      }
    }
  }

  lemma KeptIds(p: ScanState, seen: seq<TextNode>, x: TextNode, id0: nat)
    requires IdInv(p, seen, id0) && NodeBelow(x, id0)
    ensures IdInv(Kept(p, x), seen + [x], id0)
  {
    var st := Kept(p, x);
    forall i | 0 <= i < |st.out| ensures NodeBelow(st.out[i], st.next) {
      if i < |p.out| {
        assert NodeBelow(p.out[i], p.next);
      }
    }
  }

  lemma StepIds(p: ScanState, seen: seq<TextNode>, x: TextNode, term: string, id0: nat)
    requires |term| > 0 && IdInv(p, seen, id0) && NodeBelow(x, id0)
    ensures IdInv(Step(p, x, term), seen + [x], id0)
  {
    if Replaces(x, term) {
      FragAtFresh(p, x, term);
      ReplacedIds(p, seen, x, FragAt(p, x, term), id0);
    } else {
      KeptIds(p, seen, x, id0);
    }
  }

  /** The new document has no duplicate leaves when the old one had none. */
  lemma StepDistinct(p: ScanState, seen: seq<TextNode>, x: TextNode, term: string, id0: nat)
    requires |term| > 0 && IdInv(p, seen, id0) && NodeBelow(x, id0)
    requires DistinctIds(p.out) && DistinctIds(seen + [x])
    ensures DistinctIds(Step(p, x, term).out)
  {
    if Replaces(x, term) {
      FragAtFresh(p, x, term);
      var f := FragAt(p, x, term);
      var o := p.out + f.nodes;
      forall i, j | 0 <= i < j < |o| ensures o[i].id != o[j].id {
        if j >= |p.out| {
          assert o[j] == f.nodes[j - |p.out|];
          if i >= |p.out| {
            assert o[i] == f.nodes[i - |p.out|];
          } else {
            assert NodeBelow(p.out[i], p.next);
          }
        }
      }
    } else {
      forall i | 0 <= i < |p.out| ensures p.out[i].id != x.id {
        if p.out[i].id < id0 {
          assert p.out[i] in seen;
          var r :| 0 <= r < |seen| && seen[r] == p.out[i];
          assert (seen + [x])[r] == seen[r] && (seen + [x])[|seen|] == x;
        }
      }
    }
  }

  lemma {:induction false} ScanIdInv(s: seq<TextNode>, term: string, cl: Classes, id0: nat)
    requires |term| > 0 && IdsBelow(s, id0)
    ensures IdInv(ScanDoc(s, term, Init(cl, id0)), s, id0)
    ensures DistinctIds(s) ==> DistinctIds(ScanDoc(s, term, Init(cl, id0)).out)
    decreases |s|
  {
    if s != [] {
      var s' := s[..|s| - 1];
      var x := s[|s| - 1];
      assert s == s' + [x];
      assert IdsBelow(s', id0) && NodeBelow(x, id0);
      ScanIdInv(s', term, cl, id0);
      var p := ScanDoc(s', term, Init(cl, id0));
      StepIds(p, s', x, term, id0);
      if DistinctIds(s) {
        assert DistinctIds(s');
        StepDistinct(p, s', x, term, id0);
      }
    }
  }

  /** Identity facts of a finished scan over a document whose identities are below
      `id0`: every identity in the new document is below `next`, and the new document
      has no duplicate leaves when the old one had none. */
  lemma ScanIds(s: seq<TextNode>, term: string, cl: Classes, id0: nat)
    requires |term| > 0 && IdsBelow(s, id0)
    ensures var st := ScanDoc(s, term, Init(cl, id0));
      && id0 <= st.next
      && IdsBelow(st.out, st.next)
      && (forall i :: 0 <= i < |st.out| && st.out[i].id < id0 ==> st.out[i] in s)
      && (DistinctIds(s) ==> DistinctIds(st.out))
  {
    ScanIdInv(s, term, cl, id0);
  }

  /** A page the hook may work on: leaves distinct, every identity below `next`, and
      the clones of the undo log fresh and outside the page. */
  predicate PageOk(body: seq<TextNode>, undo: seq<UndoEntry>, next: nat)
  {
    && DistinctIds(body)
    && IdsBelow(body, next)
    && (forall j :: 0 <= j < |undo| ==> undo[j].node.id < next)
    && (forall j, i :: 0 <= j < |undo| && 0 <= i < |body| ==> undo[j].node.id != body[i].id)
  }

  /** A scan of a well-formed page leaves a well-formed page and log behind. */
  lemma ScanPageOk(s: seq<TextNode>, term: string, cl: Classes, id0: nat)
    requires |term| > 0 && DistinctIds(s) && IdsBelow(s, id0)
    ensures var st := ScanDoc(s, term, Init(cl, id0)); PageOk(st.out, st.undo, st.next)
  {
    ScanIdInv(s, term, cl, id0);
  }

  /** The clones recorded in the undo log are fresh nodes that never enter the
      document: no leaf of the new document shares an identity with one. */
  lemma ScanClonesDetached(s: seq<TextNode>, term: string, cl: Classes, id0: nat)
    requires |term| > 0 && IdsBelow(s, id0)
    ensures var st := ScanDoc(s, term, Init(cl, id0));
      && (forall j :: 0 <= j < |st.undo| ==> id0 <= st.undo[j].node.id < st.next)
      && (forall j, i :: 0 <= j < |st.undo| && 0 <= i < |st.out| ==> st.undo[j].node.id != st.out[i].id)
  {
    ScanIdInv(s, term, cl, id0);
  }

  /** Highlighting never changes the text of the page: concatenating the pieces of every
      split node in order gives back its value. */
  lemma {:induction false} ScanPreservesText(s: seq<TextNode>, term: string, cl: Classes, id0: nat)
    requires |term| > 0
    ensures TextOf(ScanDoc(s, term, Init(cl, id0)).out) == TextOf(s)
    decreases |s|
  {
    if s != [] {
      var s' := s[..|s| - 1];
      var x := s[|s| - 1];
      assert s == s' + [x];
      ScanPreservesText(s', term, cl, id0);
      var p := ScanDoc(s', term, Init(cl, id0));
      TextOfAppend(s', [x]);
      assert TextOf([x]) == x.value;
      if Replaces(x, term) {
        var f := FragAt(p, x, term);
        SplitSpec(x.value, term);
        FragmentText(Split(x.value, term), x.ancestors, p.next, |p.results|);
        TextOfAppend(p.out, f.nodes);
      } else {
        TextOfAppend(p.out, [x]);
      }
    }
  }

  predicate ResInv(st: ScanState, id0: nat)
  {
    && (forall k :: 0 <= k < |st.results| ==> st.results[k].index == k)
    && MarksOf(st.out, id0) == Elements(st.results)
  }

  lemma StepResults(p: ScanState, x: TextNode, term: string, id0: nat)
    requires |term| > 0 && ResInv(p, id0) && id0 <= p.next && NodeBelow(x, id0)
    ensures ResInv(Step(p, x, term), id0)
  {
    if Replaces(x, term) {
      StepResultsReplaced(p, x, term, id0);
    } else {
      MarksOfAppend(p.out, [x], id0);
      MarksOfSingle(x, id0);
    }
  }

  lemma StepResultsReplaced(p: ScanState, x: TextNode, term: string, id0: nat)
    requires |term| > 0 && ResInv(p, id0) && id0 <= p.next && NodeBelow(x, id0)
    requires Replaces(x, term)
    ensures ResInv(Step(p, x, term), id0)
  {
    var f := FragAt(p, x, term);
    assert PathBelow(x.ancestors, p.next);
    FragmentMarks(Split(x.value, term), x.ancestors, p.next, |p.results|, id0);
    ReplacedResults(p, x, f, id0);
  }

  /** Appending a fragment whose marks are numbered on from the results keeps them
      dense and in document order. */
  lemma ReplacedResults(p: ScanState, x: TextNode, f: FragOut, id0: nat)
    requires ResInv(p, id0) && |x.ancestors| > 0
    requires forall m :: 0 <= m < |f.marks| ==> f.marks[m].index == |p.results| + m
    requires MarksOf(f.nodes, id0) == Elements(f.marks)
    ensures ResInv(Replaced(p, x, f), id0)
  {
    var st := Replaced(p, x, f);
    MarksOfAppend(p.out, f.nodes, id0);
    assert Elements(st.results) == Elements(p.results) + Elements(f.marks);
  }

  /** The result list is dense (`index` is the position) and lists exactly the marks the
      scan created, in document order. */
  lemma {:induction false} ScanResultsInOrder(s: seq<TextNode>, term: string, cl: Classes, id0: nat)
    requires |term| > 0 && IdsBelow(s, id0)
    ensures var st := ScanDoc(s, term, Init(cl, id0));
      && (forall k :: 0 <= k < |st.results| ==> st.results[k].index == k)
      && MarksOf(st.out, id0) == Elements(st.results)
    decreases |s|
  {
    if s == [] {
      assert Elements([]) == [];
    } else {
      var s' := s[..|s| - 1];
      var x := s[|s| - 1];
      assert s == s' + [x];
      assert IdsBelow(s', id0) && NodeBelow(x, id0);
      ScanResultsInOrder(s', term, cl, id0);
      ScanIdInv(s', term, cl, id0);
      StepResults(ScanDoc(s', term, Init(cl, id0)), x, term, id0);
    }
  }

  /** One undo entry per node the walker accepted, in walker order: the entry names the
      node's parent and holds a detached copy of its value. */
  lemma {:induction false} ScanUndoPerNode(s: seq<TextNode>, term: string, cl: Classes, id0: nat)
    requires |term| > 0
    ensures var st := ScanDoc(s, term, Init(cl, id0)); var w := Filter(s, term);
      && |st.undo| == |w|
      && forall j :: 0 <= j < |w| ==>
           |w[j].ancestors| > 0 && st.undo[j].parent == w[j].ancestors[0]
           && st.undo[j].node.value == w[j].value && st.undo[j].node.ancestors == []
    decreases |s|
  {
    if s != [] {
      var s' := s[..|s| - 1];
      var x := s[|s| - 1];
      assert s == s' + [x];
      ScanUndoPerNode(s', term, cl, id0);
      FilterSpec(s', term);
      FilterAppend(s', [x], term);
      assert Filter([x], term) == if Accept(x, term) then [x] else [] by {
        assert [x][1..] == [];
      }
      if Accept(x, term) {
        SplitFindsMatch(x.value, term);
      }
    }
  }

  /** Text the walker rejects (script, style, noscript, earlier marks, text without the
      term) stays in the document untouched. */
  lemma {:induction false} ScanKeepsRejected(s: seq<TextNode>, term: string, cl: Classes, id0: nat, x: TextNode)
    requires |term| > 0
    requires x in s && !Accept(x, term)
    ensures x in ScanDoc(s, term, Init(cl, id0)).out
    decreases |s|
  {
    var s' := s[..|s| - 1];
    var y := s[|s| - 1];
    assert s == s' + [y];
    var p := ScanDoc(s', term, Init(cl, id0));
    var st := ScanDoc(s, term, Init(cl, id0));
    if x == y {
      assert st.out == p.out + [x];
    } else {
      ScanKeepsRejected(s', term, cl, id0, x);
      assert st.out[..|p.out|] == p.out;
    }
  }
  /** When the walker has nothing left to yield, the scan copies the rest through. */
  lemma ScanRestRejected(s: seq<TextNode>, done: nat, term: string, st0: ScanState)
    requires |term| > 0 && done <= |s| && Filter(s[done..], term) == []
    ensures ScanDoc(s, term, st0) == ScanDoc(s[..done], term, st0).(out := ScanDoc(s[..done], term, st0).out + s[done..])
  {
    var rest := s[done..];
    FilterSpec(rest, term);
    forall r | done <= r < |s| ensures !Accept(s[r], term) {
      assert s[r] == rest[r - done];
      assert rest[r - done] in rest;
    }
    ScanPassOver(s, done, |s|, term, st0);
    assert s[..|s|] == s;
  }

  /** The next leaf the walker yields after position `done` is at position `k`; the
      leaves between are rejected, and the rest of the walker's list starts after `k`. */
  lemma NextAccepted(s: seq<TextNode>, done: nat, term: string) returns (k: nat, d: nat)
    requires done <= |s| && Filter(s[done..], term) != []
    ensures done <= k < |s| && d == k + 1 && s[k] == Filter(s[done..], term)[0]
    ensures Filter(s[d..], term) == Filter(s[done..], term)[1..]
    ensures forall r :: done <= r < k ==> !Accept(s[r], term)
    ensures s[done..] == s[done..k] + [s[k]] + s[d..]
  {
    var q := FirstAccepted(s[done..], term);
    k, d := done + q, done + q + 1;
    assert s[done..][q + 1..] == s[d..];
    forall r | done <= r < k ensures !Accept(s[r], term) {
      assert s[r] == s[done..][r - done];
    }
  }

  /** The scan passes rejected leaves over by copying them. */
  lemma ScanPassOver(s: seq<TextNode>, done: nat, k: nat, term: string, st0: ScanState)
    requires |term| > 0 && done <= k <= |s|
    requires forall r :: done <= r < k ==> !Accept(s[r], term)
    ensures var p := ScanDoc(s[..done], term, st0);
      ScanDoc(s[..k], term, st0) == p.(out := p.out + s[done..k])
  {
    assert s[..k] == s[..done] + s[done..k];
    var mid := s[done..k];
    forall r | 0 <= r < |mid| ensures !Accept(mid[r], term) {
      assert mid[r] == s[done + r];
    }
    ScanSkip(s[..done], mid, term, st0);
  }

  /** One more leaf of the scan. */
  lemma ScanDocAt(s: seq<TextNode>, k: nat, d: nat, term: string, st0: ScanState)
    requires |term| > 0 && k < |s| && d == k + 1
    ensures ScanDoc(s[..d], term, st0) == Step(ScanDoc(s[..k], term, st0), s[k], term)
  {
    ScanDocSnoc(s[..k], s[k], term, st0);
    assert s[..d] == s[..k] + [s[k]];
  }

  /** Re-bracketing the page in the walker loop: what the scan produced, then the
      leaves it passed over, the next leaf and the rest. */
  lemma Rebracket<T>(out: seq<T>, mid: seq<T>, x: T, rest: seq<T>)
    ensures out + (mid + [x] + rest) == (out + mid) + [x] + rest
  {
  }

  /** No leaf the scan of the first `k` leaves produces has the identity of leaf `k`. */
  lemma ScanOutAvoids(s: seq<TextNode>, k: nat, term: string, cl: Classes, id0: nat)
    requires |term| > 0 && k < |s| && IdsBelow(s, id0) && Unique(s)
    ensures var p := ScanDoc(s[..k], term, Init(cl, id0));
      forall r :: 0 <= r < |p.out| ==> p.out[r].id != s[k].id
  {
    var seen := s[..k];
    assert IdsBelow(seen, id0);
    ScanIdInv(seen, term, cl, id0);
    UniqueIffDistinct(s);
    DistinctBefore(s, k);
    FrontIdFresh(ScanDoc(seen, term, Init(cl, id0)), seen, s[k], id0);
  }

  lemma DistinctBefore(s: seq<TextNode>, k: nat)
    requires DistinctIds(s) && k < |s|
    ensures var seen := s[..k]; forall r :: 0 <= r < |seen| ==> seen[r].id != s[k].id
  {
    var seen := s[..k];
    forall r | 0 <= r < |seen| ensures seen[r].id != s[k].id {
      assert seen[r] == s[r];
    }
  }

  /** The leaves the scan has produced never share the identity of an old leaf it has
      not reached yet: old leaves it kept are among those it passed, new ones are fresh. */
  lemma FrontIdFresh(p: ScanState, seen: seq<TextNode>, x: TextNode, id0: nat)
    requires IdInv(p, seen, id0) && x.id < id0
    requires forall r :: 0 <= r < |seen| ==> seen[r].id != x.id
    ensures forall r :: 0 <= r < |p.out| ==> p.out[r].id != x.id
  {
    forall r | 0 <= r < |p.out| ensures p.out[r].id != x.id {
      if p.out[r].id < id0 {
        assert p.out[r] in seen;
      }
    }
  }

  /** The walker loop moves from position `done` of `s` to the next leaf it yields:
      the page so far is the scan's output `p.out` (after the rejected leaves passed
      over), that leaf `x`, and the untouched `rest`; no leaf of `p.out` shares the
      identity of `x`; and one more step of the scan handles `x`. */
  lemma ScanAdvance(s: seq<TextNode>, done: nat, term: string, cl: Classes, id0: nat)
    returns (d: nat, p: ScanState, rest: seq<TextNode>)
    requires |term| > 0 && IdsBelow(s, id0) && Unique(s)
    requires done <= |s| && Filter(s[done..], term) != []
    ensures var x := Filter(s[done..], term)[0];
      var p0 := ScanDoc(s[..done], term, Init(cl, id0));
      && done < d <= |s| && Accept(x, term) && rest == s[d..]
      && Filter(s[d..], term) == Filter(s[done..], term)[1..]
      && p0.out + s[done..] == p.out + [x] + rest
      && p.results == p0.results && p.undo == p0.undo && p.classes == p0.classes && p.next == p0.next
      && (forall r :: 0 <= r < |p.out| ==> p.out[r].id != x.id)
      && ScanDoc(s[..d], term, Init(cl, id0)) == Step(p, x, term)
  {
    var st0 := Init(cl, id0);
    var p0 := ScanDoc(s[..done], term, st0);
    var k;
    k, d := NextAccepted(s, done, term);
    ScanPassOver(s, done, k, term, st0);
    ScanDocAt(s, k, d, term, st0);
    p := ScanDoc(s[..k], term, st0);
    rest := s[d..];
    ScanOutAvoids(s, k, term, cl, id0);
    Rebracket(p0.out, s[done..k], s[k], rest);
    FilterSpec(s[done..], term);
    assert s[k] in Filter(s[done..], term);
  }

  /** `replaceChild` on the leaf the scan has reached: no leaf before it shares its
      identity, so the fragment goes exactly there. */
  lemma ReplaceAtFront(out: seq<TextNode>, x: TextNode, rest: seq<TextNode>, nodes: seq<TextNode>)
    requires forall r :: 0 <= r < |out| ==> out[r].id != x.id
    ensures ReplaceChild(out + [x] + rest, x.id, nodes) == out + nodes + rest
  {
    var b := out + [x] + rest;
    forall r | 0 <= r < |out| ensures b[r].id != x.id {
      assert b[r] == out[r];
    }
    ReplaceChildAt(b, x.id, nodes, |out|);
    assert b[..|out|] == out;
    assert b[|out| + 1..] == rest;
  }

  // ---------------------------------------------------------------------------
  // Node operations

  /** `parent.replaceChild(fragment, node)`: the leaf with that identity is replaced by
      the fragment's nodes in place. */
  function ReplaceChild(s: seq<TextNode>, id: nat, frag: seq<TextNode>): seq<TextNode>
  {
    match IndexOfId(s, id)
    case None => s
    case Some(k) => s[..k] + frag + s[k + 1..]
  }

  lemma ReplaceChildAt(s: seq<TextNode>, id: nat, frag: seq<TextNode>, k: nat)
    requires k < |s| && s[k].id == id
    requires forall r :: 0 <= r < k ==> s[r].id != id
    ensures ReplaceChild(s, id, frag) == s[..k] + frag + s[k + 1..]
  {
  }

  /** `parent.contains(node)` for a text node: the node is in the document below
      `parent`. */
  predicate Contains(s: seq<TextNode>, parent: Element, id: nat)
  {
    exists i :: 0 <= i < |s| && s[i].id == id && parent in s[i].ancestors
  }

  function AncestorsAbove(path: seq<Element>, e: Element): seq<Element>
    decreases |path|
  {
    if path == [] then [] else if path[0] == e then path[1..] else AncestorsAbove(path[1..], e)
  }

  function RemoveUnder(s: seq<TextNode>, e: Element): seq<TextNode>
    decreases |s|
  {
    if s == [] then []
    else (if e in s[0].ancestors then [] else [s[0]]) + RemoveUnder(s[1..], e)
  }

  /** `parent.replaceWith(node)`: the whole subtree of `parent` leaves the document and
      `node` takes its place under `parent`'s own parent. */
  function ReplaceElement(s: seq<TextNode>, parent: Element, node: TextNode): seq<TextNode>
    decreases |s|
  {
    if s == [] then []
    else if parent in s[0].ancestors then
      [node.(ancestors := AncestorsAbove(s[0].ancestors, parent))] + RemoveUnder(s[1..], parent)
    else [s[0]] + ReplaceElement(s[1..], parent, node)
  }

  /** One iteration of the first loop of `clearHighlights` (useSearch.js:11-15). */
  function RestoreOne(s: seq<TextNode>, e: UndoEntry): seq<TextNode>
  {
    if Contains(s, e.parent, e.node.id) then ReplaceElement(s, e.parent, e.node) else s
  }

  /** The first loop of `clearHighlights`, as written. */
  function RestoreAsWritten(s: seq<TextNode>, log: seq<UndoEntry>): seq<TextNode>
    decreases |log|
  {
    if log == [] then s else RestoreOne(RestoreAsWritten(s, log[..|log| - 1]), log[|log| - 1])
  }

  /** As written, restoring is a no-op: a clone made by `cloneNode()` is never inside
      the document, so the `parent.contains(node)` guard never holds and every entry is
      skipped. */
  lemma {:induction false} RestoreAsWrittenSkipsClones(s: seq<TextNode>, log: seq<UndoEntry>)
    requires forall j, i :: 0 <= j < |log| && 0 <= i < |s| ==> log[j].node.id != s[i].id
    ensures RestoreAsWritten(s, log) == s
    decreases |log|
  {
    if log != [] {
      RestoreAsWrittenSkipsClones(s, log[..|log| - 1]);
      var e := log[|log| - 1];
      assert forall i :: 0 <= i < |s| ==> s[i].id != e.node.id;
    }
  }

  /** The defect, stated on the result of a scan: clearing with the recorded log leaves
      every highlight in place, and the page differs from the one before the scan as
      soon as the scan found a match. */
  lemma ClearAfterScanKeepsMarks(s: seq<TextNode>, term: string, cl: Classes, id0: nat)
    requires |term| > 0 && IdsBelow(s, id0)
    ensures var st := ScanDoc(s, term, Init(cl, id0));
      && RestoreAsWritten(st.out, st.undo) == st.out
      && (|st.results| > 0 ==> RestoreAsWritten(st.out, st.undo) != s)
  {
    var st := ScanDoc(s, term, Init(cl, id0));
    ScanIdInv(s, term, cl, id0);
    assert IdInv(st, s, id0);
    RestoreAsWrittenSkipsClones(st.out, st.undo);
    ScanResultsInOrder(s, term, cl, id0);
    MarksOfOld(s, id0);
    if |st.results| > 0 {
      assert |Elements(st.results)| > 0;
      assert MarksOf(st.out, id0) != MarksOf(s, id0);
    }
  }

  // ---------------------------------------------------------------------------
  // The intended undo: splice each original leaf back, skipping stale entries

  /** Put `sp.original` back where its pieces still stand together; leave the document
      alone when they do not (the page changed meanwhile). */
  function Unsplice(s: seq<TextNode>, sp: Splice): seq<TextNode>
  {
    if sp.pieces == [] then s
    else
      match IndexOfId(s, sp.pieces[0].id)
      case None => s
      case Some(k) =>
        if k + |sp.pieces| <= |s| && s[k..k + |sp.pieces|] == sp.pieces
        then s[..k] + [sp.original] + s[k + |sp.pieces|..]
        else s
  }

  /** Undo the splices, last one first. */
  function RestoreSplices(s: seq<TextNode>, log: seq<Splice>): seq<TextNode>
    decreases |log|
  {
    if log == [] then s else RestoreSplices(Unsplice(s, log[|log| - 1]), log[..|log| - 1])
  }

  predicate NotAPiece(x: TextNode, sp: Splice)
  {
    forall k :: 0 <= k < |sp.pieces| ==> sp.pieces[k].id != x.id
  }

  /** Appending leaves of other identities does not move the first leaf with `id`. */
  lemma IndexOfIdAppend(a: seq<TextNode>, c: seq<TextNode>, id: nat)
    requires forall i :: 0 <= i < |c| ==> c[i].id != id
    ensures IndexOfId(a + c, id) == IndexOfId(a, id)
  {
    match IndexOfId(a, id)
    case None =>
      forall i | 0 <= i < |a + c| ensures (a + c)[i].id != id {
        if i < |a| {
          assert (a + c)[i] == a[i];
        } else {
          assert (a + c)[i] == c[i - |a|];
        }
      }
    case Some(k) =>
      assert (a + c)[k] == a[k];
      forall i | 0 <= i < k ensures (a + c)[i].id != id {
        assert (a + c)[i] == a[i];
      }
  }

  /** Leaves that are no piece of the splice are not disturbed by undoing it. */
  lemma UnspliceFrame(a: seq<TextNode>, c: seq<TextNode>, sp: Splice)
    requires forall i :: 0 <= i < |c| ==> NotAPiece(c[i], sp)
    ensures Unsplice(a + c, sp) == Unsplice(a, sp) + c
  {
    if sp.pieces != [] {
      var id := sp.pieces[0].id;
      forall i | 0 <= i < |c| ensures c[i].id != id {
        assert NotAPiece(c[i], sp);
      }
      IndexOfIdAppend(a, c, id);
      match IndexOfId(a, id)
      case None =>
      case Some(k) =>
        UnspliceFrameAt(a, c, sp, k);
    }
  }

  /** `UnspliceFrame` once the first piece is found at `k` in `a`. */
  lemma UnspliceFrameAt(a: seq<TextNode>, c: seq<TextNode>, sp: Splice, k: nat)
    requires forall i :: 0 <= i < |c| ==> NotAPiece(c[i], sp)
    requires sp.pieces != [] && k < |a|
    requires IndexOfId(a, sp.pieces[0].id) == Some(k) && IndexOfId(a + c, sp.pieces[0].id) == Some(k)
    ensures Unsplice(a + c, sp) == Unsplice(a, sp) + c
  {
    var n := |sp.pieces|;
    if k + n <= |a| {
      assert (a + c)[k..k + n] == a[k..k + n];
      assert (a + c)[k + n..] == a[k + n..] + c;
      assert (a + c)[..k] == a[..k];
    } else if k + n <= |a + c| {
      assert (a + c)[k..k + n] != sp.pieces by {
        assert (a + c)[k..k + n][|a| - k] == c[0];
        assert NotAPiece(c[0], sp);
      }
    }
  }

  lemma {:induction false} RestoreSplicesFrame(a: seq<TextNode>, c: seq<TextNode>, log: seq<Splice>)
    requires forall j, i :: 0 <= j < |log| && 0 <= i < |c| ==> NotAPiece(c[i], log[j])
    ensures RestoreSplices(a + c, log) == RestoreSplices(a, log) + c
    decreases |log|
  {
    if log != [] {
      var sp := log[|log| - 1];
      UnspliceFrame(a, c, sp);
      RestoreSplicesFrame(Unsplice(a, sp), c, log[..|log| - 1]);
    }
  }

  lemma ReplacedRestore(p: ScanState, seen: seq<TextNode>, x: TextNode, f: FragOut, id0: nat)
    requires IdInv(p, seen, id0) && NodeBelow(x, id0) && |x.ancestors| > 0
    requires FreshFrag(f, p.next) && |f.nodes| > 0
    requires RestoreSplices(p.out, p.splices) == seen
    ensures var st := Replaced(p, x, f); RestoreSplices(st.out, st.splices) == seen + [x]
  {
    var st := Replaced(p, x, f);
    var sp := Splice(x, f.nodes);
    assert st.splices[..|st.splices| - 1] == p.splices;
    forall r | 0 <= r < |p.out| ensures p.out[r].id < p.next {
      assert NodeBelow(p.out[r], p.next);
    }
    UnspliceFresh(p.out, x, f.nodes, p.next);
    assert RestoreSplices(st.out, st.splices) == RestoreSplices(p.out + [x], p.splices);
    SpliceLogAvoids(p, x, id0);
    RestoreSplicesFrame(p.out, [x], p.splices);
  }

  /** Undoing the splice of `x` right after it was made puts `x` back. */
  lemma UnspliceFresh(a: seq<TextNode>, x: TextNode, pieces: seq<TextNode>, lo: nat)
    requires |pieces| > 0 && lo <= pieces[0].id
    requires forall r :: 0 <= r < |a| ==> a[r].id < lo
    ensures Unsplice(a + pieces, Splice(x, pieces)) == a + [x]
  {
    var b := a + pieces;
    var id := pieces[0].id;
    assert b[|a|] == pieces[0];
    assert IndexOfId(b, id) == Some(|a|) by {
      forall r | 0 <= r < |a| ensures b[r].id != id {
        assert b[r] == a[r];
      }
    }
    assert b[|a|..|a| + |pieces|] == pieces;
    assert b[..|a|] == a;
    assert b[|a| + |pieces|..] == [];
  }

  /** An old leaf is no piece of any recorded splice. */
  lemma SpliceLogAvoids(p: ScanState, x: TextNode, id0: nat)
    requires forall j, k :: 0 <= j < |p.splices| && 0 <= k < |p.splices[j].pieces| ==> id0 <= p.splices[j].pieces[k].id
    requires x.id < id0
    ensures forall j, i :: 0 <= j < |p.splices| && 0 <= i < |[x]| ==> NotAPiece([x][i], p.splices[j])
  {
  }

  lemma StepRestore(p: ScanState, seen: seq<TextNode>, x: TextNode, term: string, id0: nat)
    requires |term| > 0 && IdInv(p, seen, id0) && NodeBelow(x, id0)
    requires RestoreSplices(p.out, p.splices) == seen
    ensures var st := Step(p, x, term); RestoreSplices(st.out, st.splices) == seen + [x]
  {
    if Replaces(x, term) {
      FragAtFresh(p, x, term);
      FragmentMarks(Split(x.value, term), x.ancestors, p.next, |p.results|, p.next);
      ReplacedRestore(p, seen, x, FragAt(p, x, term), id0);
    } else {
      SpliceLogAvoids(p, x, id0);
      RestoreSplicesFrame(p.out, [x], p.splices);
    }
  }

  /** With the splice log, clearing is an exact inverse of the scan: the document comes
      back leaf for leaf, identities included. */
  lemma {:induction false} RestoreUndoesScan(s: seq<TextNode>, term: string, cl: Classes, id0: nat)
    requires |term| > 0 && IdsBelow(s, id0)
    ensures var st := ScanDoc(s, term, Init(cl, id0)); RestoreSplices(st.out, st.splices) == s
    decreases |s|
  {
    if s != [] {
      var s' := s[..|s| - 1];
      var x := s[|s| - 1];
      assert s == s' + [x];
      assert IdsBelow(s', id0) && NodeBelow(x, id0);
      RestoreUndoesScan(s', term, cl, id0);
      ScanIdInv(s', term, cl, id0);
      StepRestore(ScanDoc(s', term, Init(cl, id0)), s', x, term, id0);
    }
  }

  // ---------------------------------------------------------------------------
  // Classes (useSearch.js:105-113)

  function ClassesOf(cl: Classes, id: nat): set<string>
  {
    if id in cl then cl[id] else {}
  }

  /** The elements carrying the "current" class. */
  function CurrentIds(cl: Classes): set<nat>
  {
    set k | k in cl && Current in cl[k]
  }

  /** Every element with class "current" loses it and gets the base class instead. */
  function Demote(cl: Classes): Classes
  {
    map k | k in cl :: if Current in cl[k] then cl[k] - {Current} + {Highlight} else cl[k]
  }

  /** `classList.remove("search-highlight"); classList.add("search-highlight-current")`. */
  function Promote(cl: Classes, id: nat): Classes
  {
    cl[id := ClassesOf(cl, id) - {Highlight} + {Current}]
  }

  /** After demoting everything and promoting one marker, that marker is the only element
      with the "current" class, and it no longer has the base class. */
  lemma ExactlyOneCurrent(cl: Classes, id: nat)
    ensures CurrentIds(Promote(Demote(cl), id)) == {id}
    ensures Highlight !in Promote(Demote(cl), id)[id]
  {
    var d := Demote(cl);
    var r := Promote(d, id);
    forall k | k in r && k != id ensures Current !in r[k] {
      assert r[k] == d[k];
    }
  }

  /** Giving new marks the base class adds no "current" element. */
  lemma AddHighlightNoCurrent(cl: Classes, ms: seq<MatchRecord>)
    ensures CurrentIds(AddHighlight(cl, ms)) <= CurrentIds(cl)
    decreases |ms|
  {
    if ms != [] {
      AddHighlightNoCurrent(cl, ms[..|ms| - 1]);
    }
  }
}
