/**
 * The page as the page script (content.js) sees it: the text nodes of the document in
 * document order, each with what the node filters ask of its parent element. The
 * element the extension inserts are text-bearing `div`s, so an insertion is one more
 * record in this sequence.
 */
module Dom {
  import opened Common
  import opened Strings

  /** One text node: its text, its parent element's tag name, class list and id, and
      whether it lies inside the content region (`main`, `article`, or else `body`). */
  datatype TextNode = TextNode(text: string, parentTag: string, parentClasses: set<string>, parentId: string,
                               inRegion: bool)

  /** The class of every element the extension inserts. */
  const ResultClass: string := "translation-result"

  /** The extra class of a full-page loading placeholder. */
  const LoadingParagraphClass: string := "loading-paragraph"

  /** The id of the selection-mode loading element. */
  const LoadingId: string := "translator-loading"

  /** The text of a full-page loading placeholder. */
  const PlaceholderText: string := "正在翻译..."

  /** The text of the selection-mode loading element (its dots are an empty `span`). */
  const LoadingText: string := "正在翻译"

  /** The number of nodes `showTranslation` handles per batch. */
  const BatchSize: nat := 10

  /** The two `acceptNode` filters: the one of `getPageContent` and full-page
      `showTranslation`, and the weaker one of full-page `showLoading`, which does not
      reject text inside a `translation-result` element. */
  datatype Filter = ContentFilter | LoadingFilter

  predicate Accepts(f: Filter, n: TextNode) {
    && n.parentTag != "SCRIPT"
    && n.parentTag != "STYLE"
    && (f.ContentFilter? ==> ResultClass !in n.parentClasses)
    && !AllSpace(n.text)
  }

  /** The last test of both filters is `node.textContent.trim() === ''`. */
  lemma AcceptsBlank(f: Filter, n: TextNode)
    ensures Trim(n.text) == "" ==> !Accepts(f, n)
    ensures Accepts(f, n) <==>
      n.parentTag != "SCRIPT" && n.parentTag != "STYLE" && (f.ContentFilter? ==> ResultClass !in n.parentClasses)
      && Trim(n.text) != ""
  {
  }

  /** The walker rooted at the content region returns this node. */
  predicate Visits(f: Filter, n: TextNode) {
    n.inRegion && Accepts(f, n)
  }

  /** The walker returns none of the nodes `ns[lo..hi]`. */
  predicate Quiet(ns: seq<TextNode>, f: Filter, lo: nat, hi: nat)
    requires lo <= hi <= |ns|
  {
    forall e :: lo <= e < hi ==> !Visits(f, ns[e])
  }

  /** The text of a `div.translation-result` inserted next to `anchor`. */
  function ResultNode(text: string, anchor: TextNode): TextNode {
    TextNode(text, "DIV", {ResultClass}, "", anchor.inRegion)
  }

  /** The text of a full-page loading placeholder inserted next to `anchor`. */
  function Placeholder(anchor: TextNode): TextNode {
    TextNode(PlaceholderText, "DIV", {ResultClass, LoadingParagraphClass}, "", anchor.inRegion)
  }

  /** The loading element of selection mode, inserted where `inRegion` says. */
  function LoadingNode(inRegion: bool): TextNode {
    TextNode(LoadingText, "DIV", {ResultClass}, LoadingId, inRegion)
  }

  /** `querySelectorAll('.translation-result').forEach(el => el.remove())` on the region,
      or on the whole document when `regionOnly` is false, removes this node. */
  predicate Removed(n: TextNode, regionOnly: bool) {
    ResultClass in n.parentClasses && (n.inRegion || !regionOnly)
  }

  /** The document after the extension's earlier elements have been removed. */
  function Purge(ns: seq<TextNode>, regionOnly: bool): (r: seq<TextNode>)
    ensures |r| <= |ns|
    ensures forall i :: 0 <= i < |r| ==> !Removed(r[i], regionOnly)
  {
    if ns == [] then []
    else (if Removed(ns[0], regionOnly) then [] else [ns[0]]) + Purge(ns[1..], regionOnly)
  }

  /** The removal keeps exactly the nodes that are not removed. */
  lemma {:induction false} PurgeMembers(ns: seq<TextNode>, regionOnly: bool, n: TextNode)
    ensures n in Purge(ns, regionOnly) <==> n in ns && !Removed(n, regionOnly)
  {
    if ns != [] {
      PurgeMembers(ns[1..], regionOnly, n);
      assert n in ns <==> n == ns[0] || n in ns[1..] by {
        assert ns == [ns[0]] + ns[1..];
      }
    }
  }

  lemma {:induction false} PurgeAppend(a: seq<TextNode>, b: seq<TextNode>, regionOnly: bool)
    ensures Purge(a + b, regionOnly) == Purge(a, regionOnly) + Purge(b, regionOnly)
  {
    if a == [] {
      assert a + b == b;
    } else {
      assert (a + b)[1..] == a[1..] + b;
      PurgeAppend(a[1..], b, regionOnly);
    }
  }

  /** Removing twice removes nothing more: what survives a removal is kept by the next. */
  lemma {:induction false} PurgeIdempotent(ns: seq<TextNode>, regionOnly: bool)
    ensures Purge(Purge(ns, regionOnly), regionOnly) == Purge(ns, regionOnly)
  {
    if ns != [] {
      PurgeIdempotent(ns[1..], regionOnly);
      var head := if Removed(ns[0], regionOnly) then [] else [ns[0]];
      PurgeAppend(head, Purge(ns[1..], regionOnly), regionOnly);
    }
  }

  /** On a purged region the two filters agree: the only nodes they differ on are inside
      `translation-result` elements, and those were removed. */
  lemma FiltersAgreeAfterPurge(ns: seq<TextNode>, i: nat)
    requires i < |Purge(ns, true)|
    ensures Visits(ContentFilter, Purge(ns, true)[i]) <==> Visits(LoadingFilter, Purge(ns, true)[i])
  {
  }

  /** `walk.nextNode()` from the node at index `from` (-1 for the region root): the first
      later node the walker returns, `None` (`null`) if there is none. */
  function NextVisit(ns: seq<TextNode>, f: Filter, from: int): (r: Option<nat>)
    requires -1 <= from < |ns|
    ensures r.Some? ==> from < r.value < |ns| && Visits(f, ns[r.value])
    ensures r.Some? ==> forall j :: from < j < r.value ==> !Visits(f, ns[j])
    ensures r.None? ==> forall j :: from < j < |ns| ==> !Visits(f, ns[j])
    decreases |ns| - from
  {
    if from + 1 == |ns| then None
    else if Visits(f, ns[from + 1]) then Some(from + 1)
    else NextVisit(ns, f, from + 1)
  }

  /** The number of nodes among the first `n` that the walker returns: the walker ordinal
      of node `n` when it is returned. */
  function CountVisits(ns: seq<TextNode>, f: Filter, n: nat): (c: nat)
    requires n <= |ns|
    ensures c <= n
  {
    if n == 0 then 0 else CountVisits(ns, f, n - 1) + (if Visits(f, ns[n - 1]) then 1 else 0)
  }

  lemma {:induction false} CountVisitsMonotone(ns: seq<TextNode>, f: Filter, i: nat, j: nat)
    requires i <= j <= |ns|
    ensures CountVisits(ns, f, i) <= CountVisits(ns, f, j)
    decreases j - i
  {
    if i < j {
      CountVisitsMonotone(ns, f, i, j - 1);
    }
  }

  /** Nodes the walker skips do not change the count. */
  lemma {:induction false} CountVisitsSkip(ns: seq<TextNode>, f: Filter, i: nat, j: nat)
    requires i <= j <= |ns|
    requires Quiet(ns, f, i, j)
    ensures CountVisits(ns, f, j) == CountVisits(ns, f, i)
    decreases j - i
  {
    if i < j {
      CountVisitsSkip(ns, f, i, j - 1);
    }
  }

  /** What `showTranslation` inserts after the node with walker ordinal `i`, with batches
      of `BatchSize` (ten) nodes, one round of `processNextBatch` after another. A round
      takes the first ten nodes and gives them the next ten lines, provided a line is
      left; the eleventh node returned in a round is fetched while the batch is full and
      dropped. A missing or empty line leaves the `div` without a text node. */
  function ResultFor(i: nat, lines: seq<string>): (r: Option<string>)
    ensures r.Some? ==> r.value != "" && r.value in lines
  {
    if lines == [] then None
    else if i < BatchSize then (if i < |lines| && lines[i] != "" then Some(lines[i]) else None)
    else if i == BatchSize || |lines| <= BatchSize then None
    else ResultFor(i - (BatchSize + 1), lines[BatchSize..])
  }

  /** Node `k` of batch `b` (walker ordinal `11b + k`), when the batch starts with lines
      left, is given line `10b + k`, whether or not that line exists. */
  lemma {:induction false} BatchLine(b: nat, k: nat, lines: seq<string>)
    requires k < BatchSize && 10 * b < |lines|
    ensures ResultFor(11 * b + k, lines)
            == if 10 * b + k < |lines| && lines[10 * b + k] != "" then Some(lines[10 * b + k]) else None
  {
    if b > 0 {
      BatchLine(b - 1, k, lines[BatchSize..]);
      assert 11 * b + k - 11 == 11 * (b - 1) + k;
    }
  }

  /** The node fetched while batch `b` is full (ordinal `11b + 10`) gets nothing. */
  lemma {:induction false} DroppedOrdinal(b: nat, lines: seq<string>)
    ensures ResultFor(11 * b + 10, lines).None?
  {
    if b > 0 && |lines| > BatchSize {
      DroppedOrdinal(b - 1, lines[BatchSize..]);
      assert 11 * b + 10 - 11 == 11 * (b - 1) + 10;
    }
  }

  /** A batch that starts with no line left writes nothing, and neither does any later one. */
  lemma {:induction false} OrdinalExhausted(i: nat, b: nat, lines: seq<string>)
    requires i >= 11 * b && 10 * b >= |lines|
    ensures ResultFor(i, lines).None?
  {
    if b > 0 && lines != [] && i > BatchSize && |lines| > BatchSize {
      OrdinalExhausted(i - 11, b - 1, lines[BatchSize..]);
    }
  }

  /** The same assignment in closed form: ordinal `i` is node `i % 11` of batch `i / 11`,
      which is written only if line `10 * (i / 11)` exists; its line is `i - i / 11`. */
  lemma ResultForClosed(i: nat, lines: seq<string>)
    ensures var b, m := i / 11, i - i / 11;
      ResultFor(i, lines)
      == if i % 11 == 10 || 10 * b >= |lines| then None
         else if m < |lines| && lines[m] != "" then Some(lines[m])
         else None
  {
    var b, k := i / 11, i % 11;
    assert i == 11 * b + k;
    if k == 10 {
      DroppedOrdinal(b, lines);
    } else if 10 * b >= |lines| {
      OrdinalExhausted(i, b, lines);
    } else {
      BatchLine(b, k, lines);
    }
  }

  /** Lines are consumed strictly in order: two written nodes never share a line, and a
      later node always takes a later line. */
  lemma LinesInOrder(i: nat, j: nat)
    requires i < j
    requires i % 11 != 10 && j % 11 != 10
    ensures i - i / 11 < j - j / 11
  {
    var bi := i / 11;
    var bj := j / 11;
    assert i == 11 * bi + i % 11 && j == 11 * bj + j % 11;
    if bi == bj {
    } else {
      assert bi < bj by {
        assert 11 * bi <= i < j < 11 * bj + 11;
      }
      assert i - bi == 10 * bi + i % 11;
      assert j - bj == 10 * bj + j % 11;
      assert 10 * bi + 10 <= 10 * bj;
    }
  }

  /** No line is skipped: line `m` goes to the node with ordinal `m + m / 10`. */
  lemma EveryLineHasANode(m: nat)
    ensures var i := m + m / 10;
      i % 11 != 10 && i - i / 11 == m
  {
    var b := m / 10;
    var k := m % 10;
    var i := m + b;
    assert m == 10 * b + k;
    assert i == 11 * b + k;
    assert i / 11 == b && i % 11 == k;
  }

  /** What full-page `showTranslation` inserts after node `d` of the purged region. */
  function PlanAt(ns: seq<TextNode>, lines: seq<string>, d: nat): (r: Option<string>)
    requires d < |ns|
    ensures r.Some? ==> Visits(ContentFilter, ns[d])
  {
    if Visits(ContentFilter, ns[d]) then ResultFor(CountVisits(ns, ContentFilter, d), lines) else None
  }

  /** The result element after node `d`, if any. */
  function Inserted(ns: seq<TextNode>, lines: seq<string>, d: nat): seq<TextNode>
    requires d < |ns|
  {
    match PlanAt(ns, lines, d)
    case None => []
    case Some(t) => [ResultNode(t, ns[d])]
  }

  /** The first `n` nodes of the purged region, each followed by its result. */
  function Woven(ns: seq<TextNode>, lines: seq<string>, n: nat): (r: seq<TextNode>)
    requires n <= |ns|
    ensures |r| >= n
  {
    if n == 0 then [] else Woven(ns, lines, n - 1) + [ns[n - 1]] + Inserted(ns, lines, n - 1)
  }

  /** The document full-page `showTranslation` leaves behind, given the purged one. */
  function Render(ns: seq<TextNode>, lines: seq<string>): seq<TextNode>
  {
    Woven(ns, lines, |ns|)
  }

  /** A stretch of nodes the walker skips is copied into the rendered page as it is. */
  lemma WovenQuiet(ns: seq<TextNode>, lines: seq<string>, lo: nat, hi: nat)
    requires lo <= hi <= |ns|
    requires Quiet(ns, ContentFilter, lo, hi)
    ensures Woven(ns, lines, hi) == Woven(ns, lines, lo) + ns[lo..hi]
  {
    forall e | lo <= e < hi ensures PlanAt(ns, lines, e).None? {
      assert !Visits(ContentFilter, ns[e]);
    }
    WovenNothing(ns, lines, lo, hi);
  }

  /** The rendering resumed after a stretch the walker skips: the document is the same
      whether that stretch is counted as rendered or as still to come. */
  lemma WovenResume(ns: seq<TextNode>, lines: seq<string>, lo: nat, hi: nat)
    requires lo <= hi <= |ns|
    requires Quiet(ns, ContentFilter, lo, hi)
    ensures Woven(ns, lines, hi) + ns[hi..] == Woven(ns, lines, lo) + ns[lo..]
    ensures |Woven(ns, lines, hi)| == |Woven(ns, lines, lo)| + (hi - lo)
  {
    WovenQuiet(ns, lines, lo, hi);
    Regroup(Woven(ns, lines, lo), ns[lo..hi], ns[hi..]);
    SuffixSplit(ns, lo, hi);
  }

  /** A node that gets no result: rendering it changes nothing in the document. */
  lemma WovenNone(ns: seq<TextNode>, lines: seq<string>, e: nat)
    requires e < |ns| && PlanAt(ns, lines, e).None?
    ensures Woven(ns, lines, e + 1) + ns[e + 1..] == Woven(ns, lines, e) + ns[e..]
    ensures |Woven(ns, lines, e + 1)| == |Woven(ns, lines, e)| + 1
  {
    assert Woven(ns, lines, e + 1) == Woven(ns, lines, e) + [ns[e]];
    Regroup(Woven(ns, lines, e), [ns[e]], ns[e + 1..]);
    SuffixCons(ns, e);
  }

  /** Removing the results of a rendering gives back the region it was made from. */
  lemma {:induction false} PurgeWoven(ns: seq<TextNode>, lines: seq<string>, n: nat)
    requires n <= |ns|
    requires forall d :: 0 <= d < |ns| ==> !Removed(ns[d], true)
    ensures Purge(Woven(ns, lines, n), true) == ns[..n]
  {
    if n > 0 {
      var before := Woven(ns, lines, n - 1);
      var ins := Inserted(ns, lines, n - 1);
      PurgeWoven(ns, lines, n - 1);
      PurgeAppend(before + [ns[n - 1]], ins, true);
      PurgeAppend(before, [ns[n - 1]], true);
      assert Purge([ns[n - 1]], true) == [ns[n - 1]];
      assert Purge(ins, true) == [];
      SliceSnoc(ns, 0, n);
    }
  }

  /** Running full-page `showTranslation` again with the same text changes nothing: the
      first run's results are removed and exactly the same ones are inserted again. */
  lemma RenderTwice(doc: seq<TextNode>, lines: seq<string>)
    ensures Render(Purge(Render(Purge(doc, true), lines), true), lines) == Render(Purge(doc, true), lines)
  {
    var p := Purge(doc, true);
    PurgeWoven(p, lines, |p|);
    assert p[..|p|] == p;
  }

  /** `text.split('\n')` for three one-unit lines. */
  lemma ThreeLines(text: string)
    requires text == "一\n二\n三"
    ensures Split(text, '\n') == ["一", "二", "三"]
  {
    assert "一\n二\n三" == "一" + ['\n'] + ("二" + ['\n'] + "三");
    SplitAfterPiece("一", '\n', "二\n三");
    assert "二\n三" == "二" + ['\n'] + "三";
    SplitAfterPiece("二", '\n', "三");
    SplitNoSeparator("三", '\n');
  }

  /** A paragraph of one letter, as in the three-paragraph example below. */
  function Paragraph(letter: char): TextNode {
    TextNode([letter], "P", {}, "", true)
  }

  lemma ParagraphVisited(letter: char)
    requires !IsSpace(letter)
    ensures Visits(ContentFilter, Paragraph(letter))
  {
    assert !AllSpace([letter]) by { assert !IsSpace([letter][0]); }
  }

  /** A node that gets a result is followed by it in the rendering. */
  lemma WovenStep(ns: seq<TextNode>, lines: seq<string>, n: nat, t: string)
    requires n < |ns| && PlanAt(ns, lines, n) == Some(t)
    ensures Woven(ns, lines, n + 1) == Woven(ns, lines, n) + [ns[n], ResultNode(t, ns[n])]
  {
    assert Inserted(ns, lines, n) == [ResultNode(t, ns[n])];
  }

  /** In the three-paragraph example each paragraph is visited and given its own line. */
  lemma ThreePlans(ns: seq<TextNode>, lines: seq<string>)
    requires ns == [Paragraph('A'), Paragraph('B'), Paragraph('C')] && lines == ["一", "二", "三"]
    ensures PlanAt(ns, lines, 0) == Some("一")
    ensures PlanAt(ns, lines, 1) == Some("二")
    ensures PlanAt(ns, lines, 2) == Some("三")
  {
    ParagraphVisited('A');
    ParagraphVisited('B');
    ParagraphVisited('C');
    assert CountVisits(ns, ContentFilter, 1) == 1;
    assert CountVisits(ns, ContentFilter, 2) == 2;
  }

  /** Three paragraphs `A`, `B`, `C` and the translation "一\n二\n三": each line lands
      right after its paragraph. */
  lemma ThreeParagraphs(ns: seq<TextNode>, text: string)
    requires ns == [Paragraph('A'), Paragraph('B'), Paragraph('C')] && text == "一\n二\n三"
    ensures Render(ns, Split(text, '\n'))
      == [ns[0], ResultNode("一", ns[0]), ns[1], ResultNode("二", ns[1]), ns[2], ResultNode("三", ns[2])]
  {
    var lines := ["一", "二", "三"];
    ThreeLines(text);
    ThreePlans(ns, lines);
    WovenStep(ns, lines, 0, "一");
    WovenStep(ns, lines, 1, "二");
    WovenStep(ns, lines, 2, "三");
  }

  /** The texts `getPageContent` collects from the first `n` nodes: the trimmed text of every
      node the walker returns, in document order. */
  function Collected(ns: seq<TextNode>, n: nat): (r: seq<string>)
    requires n <= |ns|
    ensures |r| == CountVisits(ns, ContentFilter, n)
    ensures forall k :: 0 <= k < |r| ==> r[k] != ""
  {
    if n == 0 then []
    else Collected(ns, n - 1) + (if Visits(ContentFilter, ns[n - 1]) then [Trim(ns[n - 1].text)] else [])
  }

  function PageTexts(ns: seq<TextNode>): seq<string>
  {
    Collected(ns, |ns|)
  }

  lemma {:induction false} CollectedSkip(ns: seq<TextNode>, i: nat, j: nat)
    requires i <= j <= |ns|
    requires Quiet(ns, ContentFilter, i, j)
    ensures Collected(ns, j) == Collected(ns, i)
    decreases j - i
  {
    if i < j {
      CollectedSkip(ns, i, j - 1);
    }
  }

  /** The text collected for the node with walker ordinal `k` is that node's trimmed text. */
  lemma {:induction false} CollectedAt(ns: seq<TextNode>, n: nat, e: nat)
    requires e < n <= |ns| && Visits(ContentFilter, ns[e])
    ensures CountVisits(ns, ContentFilter, e) < |Collected(ns, n)|
    ensures Collected(ns, n)[CountVisits(ns, ContentFilter, e)] == Trim(ns[e].text)
  {
    if e < n - 1 {
      CollectedAt(ns, n - 1, e);
    }
  }

  /** Every collected text is the trimmed text of a returned node. */
  lemma {:induction false} CollectedFrom(ns: seq<TextNode>, n: nat, k: nat)
    requires n <= |ns| && k < |Collected(ns, n)|
    ensures exists e :: 0 <= e < n && Visits(ContentFilter, ns[e]) && Collected(ns, n)[k] == Trim(ns[e].text)
  {
    if k < |Collected(ns, n - 1)| {
      CollectedFrom(ns, n - 1, k);
      var e :| 0 <= e < n - 1 && Visits(ContentFilter, ns[e]) && Collected(ns, n - 1)[k] == Trim(ns[e].text);
      assert Collected(ns, n)[k] == Collected(ns, n - 1)[k];
    } else {
      assert Visits(ContentFilter, ns[n - 1]) && Collected(ns, n)[k] == Trim(ns[n - 1].text);
    }
  }

  /** When no collected text spans several lines, splitting the page content at newlines
      gives back one line per collected node. */
  lemma PageContentLines(ns: seq<TextNode>)
    requires CountVisits(ns, ContentFilter, |ns|) > 0
    requires forall i :: 0 <= i < |ns| && Visits(ContentFilter, ns[i]) ==> '\n' !in Trim(ns[i].text)
    ensures Split(Join(PageTexts(ns), '\n'), '\n') == PageTexts(ns)
  {
    forall k | 0 <= k < |PageTexts(ns)| ensures '\n' !in PageTexts(ns)[k] {
      CollectedFrom(ns, |ns|, k);
    }
    SplitJoin(PageTexts(ns), '\n');
  }

  /** What node `e` of a region gets, when it is node `k` of batch `b`. */
  lemma PlanInBatch(p: seq<TextNode>, lines: seq<string>, e: nat, b: nat, k: nat)
    requires e < |p| && Visits(ContentFilter, p[e])
    requires CountVisits(p, ContentFilter, e) == 11 * b + k
    requires k < BatchSize && 10 * b < |lines|
    ensures PlanAt(p, lines, e)
            == if 10 * b + k < |lines| && lines[10 * b + k] != "" then Some(lines[10 * b + k]) else None
  {
    BatchLine(b, k, lines);
  }

  /** The node fetched while batch `b` is full gets nothing. */
  lemma DroppedNode(p: seq<TextNode>, lines: seq<string>, e: nat, b: nat)
    requires e < |p| && CountVisits(p, ContentFilter, e) == 11 * b + 10
    ensures PlanAt(p, lines, e).None?
  {
    DroppedOrdinal(b, lines);
  }

  /** Once a batch starts with no line left, no later node gets anything. */
  lemma PlanExhausted(p: seq<TextNode>, lines: seq<string>, q: nat, b: nat)
    requires q <= |p|
    requires CountVisits(p, ContentFilter, q) == 11 * b
    requires 10 * b >= |lines|
    ensures Woven(p, lines, |p|) == Woven(p, lines, q) + p[q..]
  {
    forall e | q <= e < |p| ensures PlanAt(p, lines, e).None? {
      NoPlanAfter(p, lines, q, b, e);
    }
    WovenNothing(p, lines, q, |p|);
    assert p[q..|p|] == p[q..];
  }

  lemma NoPlanAfter(p: seq<TextNode>, lines: seq<string>, q: nat, b: nat, e: nat)
    requires q <= e < |p|
    requires CountVisits(p, ContentFilter, q) == 11 * b
    requires 10 * b >= |lines|
    ensures PlanAt(p, lines, e).None?
  {
    CountVisitsMonotone(p, ContentFilter, q, e);
    OrdinalExhausted(CountVisits(p, ContentFilter, e), b, lines);
  }

  lemma {:induction false} WovenNothing(ns: seq<TextNode>, lines: seq<string>, lo: nat, hi: nat)
    requires lo <= hi <= |ns|
    requires forall e :: lo <= e < hi ==> PlanAt(ns, lines, e).None?
    ensures Woven(ns, lines, hi) == Woven(ns, lines, lo) + ns[lo..hi]
    decreases hi - lo
  {
    if lo < hi {
      WovenNothing(ns, lines, lo, hi - 1);
      assert Woven(ns, lines, hi) == Woven(ns, lines, hi - 1) + [ns[hi - 1]];
      Regroup(Woven(ns, lines, lo), ns[lo..hi - 1], [ns[hi - 1]]);
      SliceSnoc(ns, lo, hi);
    }
  }

  /** The full-page placeholder is returned by the `showLoading` walker but not by the
      `showTranslation` one: this is why `showLoading` never runs out of nodes. */
  lemma PlaceholderAccepted(anchor: TextNode)
    ensures Accepts(LoadingFilter, Placeholder(anchor))
    ensures !Accepts(ContentFilter, Placeholder(anchor))
    ensures Visits(LoadingFilter, Placeholder(anchor)) <==> anchor.inRegion
  {
    assert !AllSpace(PlaceholderText) by {
      assert !IsSpace(PlaceholderText[0]);
    }
  }

  /** `k` copies of `n`. */
  function Repeat(n: TextNode, k: nat): (r: seq<TextNode>)
    ensures |r| == k && forall i :: 0 <= i < k ==> r[i] == n
  {
    seq(k, _ => n)
  }

  /** `document.getElementById('translator-loading')`: the first node whose parent has that id. */
  function FindLoading(ns: seq<TextNode>): (r: Option<nat>)
    ensures r.Some? ==> r.value < |ns| && ns[r.value].parentId == LoadingId
    ensures r.Some? ==> forall j :: 0 <= j < r.value ==> ns[j].parentId != LoadingId
    ensures r.None? ==> forall j :: 0 <= j < |ns| ==> ns[j].parentId != LoadingId
  {
    if ns == [] then None
    else if ns[0].parentId == LoadingId then Some(0)
    else match FindLoading(ns[1..])
      case None => None
      case Some(j) => Some(j + 1)
  }
}
