/** The `useSearch` hook (extension/src/hooks/useSearch.js): the search state kept by
    React, the undo log kept in a ref, and the page it rewrites.

    The page is the sequence of text leaves of `SearchDom`; `body`, `classes` and
    `nextId` (the identity the next created node receives) are part of the object
    because the hook changes them in place.  A pending debounce timer is `pending`:
    `Some(t)` means `highlightText(t)` is scheduled. */
module UseSearch {
  import opened Strings
  import opened SearchText
  import opened SearchDom

  /** `(currentIndex + 1) % searchResults.length` (useSearch.js:120). */
  function NextIndex(i: nat, n: nat): (r: nat)
    requires i < n
    ensures r < n
    ensures r == i + 1 || (i == n - 1 && r == 0)
  {
    (i + 1) % n
  }

  /** `currentIndex === 0 ? searchResults.length - 1 : currentIndex - 1` (useSearch.js:127-128). */
  function PrevIndex(i: nat, n: nat): (r: nat)
    requires i < n
    ensures r < n
    ensures r + 1 == i || (i == 0 && r == n - 1)
  {
    if i == 0 then n - 1 else i - 1
  }

  /** Previous undoes next and next undoes previous. */
  lemma NextPrevInverse(i: nat, n: nat)
    requires i < n
    ensures PrevIndex(NextIndex(i, n), n) == i
    ensures NextIndex(PrevIndex(i, n), n) == i
  {
  }

  /** `k` presses of "next" from `i`. */
  function NextTimes(i: nat, n: nat, k: nat): (r: nat)
    requires i < n
    ensures r < n
    decreases k
  {
    if k == 0 then i else NextIndex(NextTimes(i, n, k - 1), n)
  }

  /** Pressing "next" `k` times (at most once round) moves `k` places round the ring. */
  lemma {:induction false} NextTimesWraps(i: nat, n: nat, k: nat)
    requires i < n && k <= n
    ensures NextTimes(i, n, k) == if i + k < n then i + k else i + k - n
    decreases k
  {
    if k > 0 {
      NextTimesWraps(i, n, k - 1);
    }
  }

  /** `n` presses of "next" come back to the start, and every result is reached from
      every other one on the way. */
  lemma FullCycleReturns(i: nat, n: nat)
    requires i < n
    ensures NextTimes(i, n, n) == i
    ensures forall j :: 0 <= j < n ==> NextTimes(i, n, Distance(i, j, n)) == j
  {
    NextTimesWraps(i, n, n);
    forall j | 0 <= j < n ensures NextTimes(i, n, Distance(i, j, n)) == j {
      NextTimesWraps(i, n, Distance(i, j, n));
    }
  }

  /** How many presses of "next" lead from result `i` to result `j`. */
  function Distance(i: nat, j: nat, n: nat): (d: nat)
    requires i < n && j < n
    ensures d < n
  {
    if j >= i then j - i else j + n - i
  }

  class SearchHook {
    var body: seq<TextNode>
    var classes: Classes
    var nextId: nat
    var searchTerm: string
    var searchResults: seq<MatchRecord>
    var currentIndex: nat
    var originalNodes: seq<UndoEntry>
    var pending: Option<string>

    /** The page is a well-formed document, the undo log holds only detached clones,
        and the current index points into the results whenever there are any. */
    predicate Valid()
      reads this
    {
      && PageOk(body, originalNodes, nextId)
      && (if |searchResults| == 0 then currentIndex == 0 else currentIndex < |searchResults|)
    }

    /** Mounting the hook: empty state, and the debounce effect schedules a first
        `highlightText("")`. */
    constructor (page: seq<TextNode>, cl: Classes, fresh0: nat)
      requires DistinctIds(page) && IdsBelow(page, fresh0)
      ensures Valid()
      ensures body == page && classes == cl && nextId == fresh0
      ensures searchTerm == "" && searchResults == [] && currentIndex == 0 && originalNodes == []
      ensures pending == Some("")
    {
      body, classes, nextId := page, cl, fresh0;
      searchTerm, searchResults, currentIndex, originalNodes := "", [], 0, [];
      pending := Some("");
    }

    /** `clearHighlights` (useSearch.js:10-23).  Every entry of the log is restored only
        if its parent still contains the logged node; the log holds clones, which are
        never in the page, so the page is left exactly as it was. */
    method ClearHighlights()
      requires Valid()
      modifies this
      ensures Valid()
      ensures body == RestoreAsWritten(old(body), old(originalNodes))
      ensures body == old(body)
      ensures originalNodes == [] && searchResults == [] && currentIndex == 0
      ensures classes == old(classes) && nextId == old(nextId)
      ensures searchTerm == old(searchTerm) && pending == old(pending)
    {
      var log := originalNodes;
      var j := 0;
      while j < |log|
        invariant 0 <= j <= |log|
        invariant body == RestoreAsWritten(old(body), log[..j])
        invariant unchanged(this`classes, this`nextId, this`searchTerm, this`pending)
        invariant unchanged(this`searchResults, this`currentIndex, this`originalNodes)
      {
        var e := log[j];
        if Contains(body, e.parent, e.node.id) {
          body := ReplaceElement(body, e.parent, e.node);
        }
        assert log[..j + 1][..j] == log[..j];
        j := j + 1;
      }
      assert log[..j] == log;
      RestoreAsWrittenSkipsClones(old(body), log);
      originalNodes := [];
      searchResults := [];
      currentIndex := 0;
    }

    /** The `parts.forEach` of useSearch.js:69-80: marks and plain text nodes for one
        split value, with fresh identities; each mark gets the base class and a result
        record numbered after those already found. */
    method BuildFragment(parts: seq<string>, path: seq<Element>, results: seq<MatchRecord>)
      returns (nodes: seq<TextNode>, found: seq<MatchRecord>)
      modifies this`nextId, this`classes
      ensures var f := FragmentOf(parts, path, old(nextId), |results|);
        nodes == f.nodes && found == results + f.marks && nextId == f.next
        && classes == AddHighlight(old(classes), f.marks)
    {
      nodes, found := [], results;
      ghost var f := FragOut([], [], nextId);
      var i := 0;
      while i < |parts|
        invariant 0 <= i <= |parts|
        invariant f == FragmentOf(parts[..i], path, old(nextId), |results|)
        invariant nodes == f.nodes && found == results + f.marks && nextId == f.next
        invariant classes == AddHighlight(old(classes), f.marks)
      {
        FragmentOfSnoc(parts, i, path, old(nextId), |results|);
        nodes, found := AddPart(i, parts[i], path, nodes, found, results, f, old(classes));
        f := PieceStep(f, i, parts[i], path, |results|);
        i := i + 1;
      }
      assert parts[..|parts|] == parts;
    }

    /** The callback of that `forEach` for part `index` (useSearch.js:70-79): an odd
        part becomes a mark with the base class holding a new text node, and a result
        record; a non-empty even part becomes a text node; an empty one is dropped.
        `f` is the fragment so far, built on the classes `cl0`. */
    method AddPart(index: nat, part: string, path: seq<Element>, nodes: seq<TextNode>,
                   found: seq<MatchRecord>, ghost results: seq<MatchRecord>, ghost f: FragOut,
                   ghost cl0: Classes)
      returns (nodes': seq<TextNode>, found': seq<MatchRecord>)
      requires nodes == f.nodes && found == results + f.marks && nextId == f.next
      requires classes == AddHighlight(cl0, f.marks)
      modifies this`nextId, this`classes
      ensures var g := PieceStep(f, index, part, path, |results|);
        nodes' == g.nodes && found' == results + g.marks && nextId == g.next
        && classes == AddHighlight(cl0, g.marks)
    {
      nodes', found' := nodes, found;
      if index % 2 == 1 {
        var mark := Element(nextId, MarkTag);
        AddHighlightSnoc(cl0, f.marks, MatchRecord(mark, |found|));
        classes := classes[mark.id := {Highlight}];
        nodes' := nodes + [TextNode(nextId + 1, [mark] + path, part)];
        found' := found + [MatchRecord(mark, |found|)];
        nextId := nextId + 2;
      } else if part != "" {
        nodes' := nodes + [TextNode(nextId, path, part)];
        nextId := nextId + 1;
      }
    }

    /** The tree walker of useSearch.js:31-54: the text nodes of the page the filter
        accepts, in document order. */
    method CollectTextNodes(term: string) returns (textNodes: seq<TextNode>)
      ensures textNodes == Filter(body, term)
      ensures forall x :: x in textNodes <==> x in body && Accept(x, term)
    {
      textNodes := [];
      var w := 0;
      while w < |body|
        invariant 0 <= w <= |body|
        invariant textNodes == Filter(body[..w], term)
      {
        FilterAppend(body[..w], [body[w]], term);
        assert [body[w]][1..] == [];
        assert body[..w + 1] == body[..w] + [body[w]];
        if Accept(body[w], term) {
          textNodes := textNodes + [body[w]];
        }
        w := w + 1;
      }
      assert body[..w] == body;
      FilterSpec(body, term);
    }

    /** The `textNodes.forEach` callback of useSearch.js:59-88 for one accepted node:
        split its value; when the split finds a match, build the fragment, log the
        parent with a clone of the node, and put the fragment in the node's place.
        The ghost parameters place the node in the one-pass specification: `p` is the
        state after the leaves before it, `rest` the leaves after it. */
    method ProcessNode(node: TextNode, lit: string, term: string, results: seq<MatchRecord>,
                       log: seq<UndoEntry>, ghost p: ScanState, ghost rest: seq<TextNode>)
      returns (results': seq<MatchRecord>, log': seq<UndoEntry>)
      requires |term| > 0 && lit == term && Accept(node, term)
      requires forall r :: 0 <= r < |p.out| ==> p.out[r].id != node.id
      requires body == p.out + [node] + rest && results == p.results && log == p.undo
      requires classes == p.classes && nextId == p.next
      modifies this`body, this`nextId, this`classes
      ensures var st := Step(p, node, term);
        && body == st.out + rest && results' == st.results && log' == st.undo
        && classes == st.classes && nextId == st.next
    {
      results', log' := results, log;
      var text := node.value;
      var parts := Split(text, lit);
      if |parts| > 1 {
        var nodes;
        nodes, results' := BuildFragment(parts, node.ancestors, results);
        if |node.ancestors| > 0 {
          var parent := node.ancestors[0];
          log' := log + [UndoEntry(parent, TextNode(nextId, [], node.value))];
          nextId := nextId + 1;
          ReplaceAtFront(p.out, node, rest, nodes);
          body := ReplaceChild(body, node.id, nodes);
        }
      }
    }

    /** One turn of the `forEach`: the next leaf the walker yields is processed and
        the one-pass specification advances past it, from position `done` of `body0`
        to `done'`. */
    method ProcessNext(node: TextNode, lit: string, term: string, results: seq<MatchRecord>,
                       log: seq<UndoEntry>, ghost body0: seq<TextNode>, ghost cl0: Classes,
                       ghost id0: nat, ghost done: nat)
      returns (results': seq<MatchRecord>, log': seq<UndoEntry>, ghost done': nat)
      requires |term| > 0 && lit == term && IdsBelow(body0, id0) && Unique(body0)
      requires done <= |body0| && Filter(body0[done..], term) != []
      requires node == Filter(body0[done..], term)[0]
      requires var st := ScanDoc(body0[..done], term, Init(cl0, id0));
        && body == st.out + body0[done..] && results == st.results && log == st.undo
        && classes == st.classes && nextId == st.next
      modifies this`body, this`nextId, this`classes
      ensures done < done' <= |body0|
      ensures Filter(body0[done'..], term) == Filter(body0[done..], term)[1..]
      ensures var st := ScanDoc(body0[..done'], term, Init(cl0, id0));
        && body == st.out + body0[done'..] && results' == st.results && log' == st.undo
        && classes == st.classes && nextId == st.next
    {
      ghost var p, rest;
      done', p, rest := ScanAdvance(body0, done, term, cl0, id0);
      results', log' := ProcessNode(node, lit, term, results, log, p, rest);
    }

    /** The `textNodes.forEach` of useSearch.js:59-88 over the walker's list, and the
        publication of its results and undo log (useSearch.js:90-91): the page, classes,
        identities, results and undo log end as the one-pass specification says. */
    method ReplaceAll(textNodes: seq<TextNode>, lit: string, term: string,
                      ghost body0: seq<TextNode>, ghost cl0: Classes, ghost id0: nat)
      requires |term| > 0 && lit == term && textNodes == Filter(body0, term)
      requires IdsBelow(body0, id0) && Unique(body0)
      requires body == body0 && classes == cl0 && nextId == id0
      modifies this`body, this`nextId, this`classes, this`searchResults, this`originalNodes
      ensures var st := ScanDoc(body0, term, Init(cl0, id0));
        && body == st.out && searchResults == st.results && originalNodes == st.undo
        && classes == st.classes && nextId == st.next
    {
      var results, log := [], [];
      var k := 0;
      ghost var done: nat := 0;
      assert body0[done..] == body0;
      while k < |textNodes|
        invariant 0 <= k <= |textNodes| && done <= |body0|
        invariant textNodes[k..] == Filter(body0[done..], term)
        invariant var st := ScanDoc(body0[..done], term, Init(cl0, id0));
          && body == st.out + body0[done..] && results == st.results && log == st.undo
          && classes == st.classes && nextId == st.next
        decreases |textNodes| - k
      {
        results, log, done := ProcessNext(textNodes[k], lit, term, results, log, body0, cl0, id0, done);
        assert textNodes[k + 1..] == textNodes[k..][1..];
        k := k + 1;
      }
      ScanRestRejected(body0, done, term, Init(cl0, id0));
      originalNodes := log;
      searchResults := results;
    }

    /** `highlightText(term)` (useSearch.js:26-99): clear, stop on a blank term, collect
        the accepted text nodes, replace each one whose split finds a match by its
        fragment, publish the results and make the first one current.  The new state is
        the one the one-pass specification `ScanDoc` computes. */
    method HighlightText(term: string)
      requires Valid()
      modifies this
      ensures Valid()
      ensures searchTerm == old(searchTerm) && pending == old(pending) && currentIndex == 0
      ensures IsBlank(term) ==>
        body == old(body) && classes == old(classes) && nextId == old(nextId)
        && searchResults == [] && originalNodes == []
      ensures !IsBlank(term) ==>
        var st := ScanDoc(old(body), term, Init(old(classes), old(nextId)));
        && body == st.out && searchResults == st.results && originalNodes == st.undo && nextId == st.next
        && classes == (if st.results == [] then st.classes else Promote(Demote(st.classes), st.results[0].element.id))
    {
      ClearHighlights();
      if Trim(term) == [] {
        return;
      }
      HighlightMatches(term);
      if |searchResults| > 0 {
        ScrollToResult(0, Some(searchResults));
      }
    }

    /** The part of `highlightText` between the blank-term test and the scroll to the
        first result (useSearch.js:31-92), on a page whose highlights have just been
        cleared. */
    method HighlightMatches(term: string)
      requires Valid() && !IsBlank(term)
      requires originalNodes == [] && searchResults == [] && currentIndex == 0
      modifies this
      ensures Valid()
      ensures searchTerm == old(searchTerm) && pending == old(pending) && currentIndex == 0
      ensures var st := ScanDoc(old(body), term, Init(old(classes), old(nextId)));
        && body == st.out && searchResults == st.results && originalNodes == st.undo && nextId == st.next
        && classes == st.classes
    {
      assert |term| > 0;
      ghost var body0, cl0, id0 := body, classes, nextId;
      var textNodes := CollectTextNodes(term);

      // The pattern `(escaped term)` with flags "gi" matches the term itself.
      var pattern := "(" + Escape(term) + ")";
      PatternIsLiteralGroup(term);
      var lit := CompileGroup(pattern).value;

      UniqueIffDistinct(body0);
      ReplaceAll(textNodes, lit, term, body0, cl0, id0);
      ScanPageOk(body0, term, cl0, id0);
    }

    /** `scrollToResult(index, results)` (useSearch.js:101-116): with an explicit result
        list or, when none is given, the current one; every element with the "current"
        class is demoted to the base class and the chosen result, when it exists, is
        promoted. */
    method ScrollToResult(index: int, results: Option<seq<MatchRecord>>)
      modifies this`classes
      ensures var use := if results.Some? then results.value else searchResults;
        classes == if |use| == 0 then old(classes)
                   else if 0 <= index < |use| then Promote(Demote(old(classes)), use[index].element.id)
                   else Demote(old(classes))
    {
      var use := if results.Some? then results.value else searchResults;
      if |use| == 0 {
        return;
      }
      var current := CurrentIds(classes);
      var todo := current;
      while todo != {}
        invariant todo <= current
        invariant classes.Keys == old(classes).Keys
        invariant forall id :: id in classes ==>
          classes[id] == if id in current - todo then old(classes)[id] - {Current} + {Highlight} else old(classes)[id]
        decreases todo
      {
        var id :| id in todo;
        classes := classes[id := classes[id] - {Current} + {Highlight}];
        todo := todo - {id};
      }
      assert classes == Demote(old(classes));
      if 0 <= index < |use| {
        var result := use[index];
        classes := Promote(classes, result.element.id);
      }
    }

    /** `nextResult` (useSearch.js:118-123). */
    method NextResult()
      requires Valid()
      modifies this`currentIndex, this`classes
      ensures Valid()
      ensures |searchResults| == 0 ==> currentIndex == old(currentIndex) && classes == old(classes)
      ensures |searchResults| > 0 ==>
        && currentIndex == NextIndex(old(currentIndex), |searchResults|)
        && classes == Promote(Demote(old(classes)), searchResults[currentIndex].element.id)
        && CurrentIds(classes) == {searchResults[currentIndex].element.id}
    {
      if |searchResults| == 0 {
        return;
      }
      var newIndex := (currentIndex + 1) % |searchResults|;
      currentIndex := newIndex;
      ScrollToResult(newIndex, None);
      ExactlyOneCurrent(old(classes), searchResults[currentIndex].element.id);
    }

    /** `prevResult` (useSearch.js:125-131). */
    method PrevResult()
      requires Valid()
      modifies this`currentIndex, this`classes
      ensures Valid()
      ensures |searchResults| == 0 ==> currentIndex == old(currentIndex) && classes == old(classes)
      ensures |searchResults| > 0 ==>
        && currentIndex == PrevIndex(old(currentIndex), |searchResults|)
        && classes == Promote(Demote(old(classes)), searchResults[currentIndex].element.id)
        && CurrentIds(classes) == {searchResults[currentIndex].element.id}
    {
      if |searchResults| == 0 {
        return;
      }
      var newIndex := if currentIndex == 0 then |searchResults| - 1 else currentIndex - 1;
      currentIndex := newIndex;
      ScrollToResult(newIndex, None);
      ExactlyOneCurrent(old(classes), searchResults[currentIndex].element.id);
    }

    /** `setSearchTerm(t)` together with the debounce effect (useSearch.js:138-144): a
        changed term cancels the pending timer and schedules `highlightText(t)`; setting
        the same term again changes nothing. */
    method SetSearchTerm(t: string)
      modifies this`searchTerm, this`pending
      ensures searchTerm == t
      ensures pending == if t == old(searchTerm) then old(pending) else Some(t)
    {
      if t != searchTerm {
        searchTerm := t;
        pending := Some(t);
      }
    }

    /** The 300 ms timer of the debounce effect fires. */
    method TimerFires()
      requires Valid()
      modifies this
      ensures Valid()
      ensures pending == None && searchTerm == old(searchTerm)
      ensures old(pending).Some? ==> currentIndex == 0
      ensures old(pending).Some? && IsBlank(old(pending).value) ==>
        body == old(body) && classes == old(classes) && nextId == old(nextId)
        && searchResults == [] && originalNodes == []
      ensures old(pending).Some? && !IsBlank(old(pending).value) ==>
        var st := ScanDoc(old(body), old(pending).value, Init(old(classes), old(nextId)));
        && body == st.out && searchResults == st.results && originalNodes == st.undo && nextId == st.next
        && classes == (if st.results == [] then st.classes else Promote(Demote(st.classes), st.results[0].element.id))
      ensures old(pending).None? ==>
        body == old(body) && classes == old(classes) && nextId == old(nextId)
        && searchResults == old(searchResults) && originalNodes == old(originalNodes)
        && currentIndex == old(currentIndex)
    {
      if pending.Some? {
        var t := pending.value;
        pending := None;
        HighlightText(t);
      }
    }

    /** `clearSearch` (useSearch.js:133-136). */
    method ClearSearch()
      requires Valid()
      modifies this
      ensures Valid()
      ensures body == old(body) && searchResults == [] && originalNodes == [] && currentIndex == 0
      ensures searchTerm == ""
      ensures pending == if old(searchTerm) == "" then old(pending) else Some("")
      ensures classes == old(classes) && nextId == old(nextId)
    {
      ClearHighlights();
      SetSearchTerm("");
    }

    /** The unmount cleanups (useSearch.js:143 and 146-150): the pending timer is
        cancelled and the highlights are cleared. */
    method Unmount()
      requires Valid()
      modifies this
      ensures Valid()
      ensures pending == None && body == old(body) && searchResults == [] && originalNodes == []
      ensures classes == old(classes) && nextId == old(nextId) && currentIndex == 0
      ensures searchTerm == old(searchTerm)
    {
      pending := None;
      ClearHighlights();
    }
  }
}
