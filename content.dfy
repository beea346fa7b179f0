/**
 * The page script (content.js): it reads the page's text for the background script, shows
 * loading placeholders, and writes the translation into the page, either after every text
 * node of the content region (full-page mode) or in place of the loading element at the
 * end of the selection (selection mode).
 */
module Content {
  import opened Common
  import opened Strings
  import opened Dom
  import opened Messages

  /** The collapsed end of the selection, in the document after the removal of earlier
      results: inside text node `node` before unit `offset`, or between text nodes, in
      front of node `position`. */
  datatype Boundary = InText(node: nat, offset: nat) | Between(position: nat, inRegion: bool)

  predicate FitsIn(ns: seq<TextNode>, b: Boundary) {
    match b
    case InText(i, k) => i < |ns| && k <= |ns[i].text|
    case Between(p, _) => p <= |ns|
  }

  /** Where a node inserted at `b` lands. */
  function InsertIndex(b: Boundary): nat {
    match b
    case InText(i, _) => i + 1
    case Between(p, _) => p
  }

  /** Whether a node inserted at `b` lies in the content region. */
  function BoundaryInRegion(ns: seq<TextNode>, b: Boundary): bool
    requires FitsIn(ns, b)
  {
    match b
    case InText(i, _) => ns[i].inRegion
    case Between(_, inRegion) => inRegion
  }

  /** `range.insertNode`: the nodes `ins` placed at `b`; a boundary inside a text node first
      splits that node in two. */
  function InsertAt(ns: seq<TextNode>, b: Boundary, ins: seq<TextNode>): (r: seq<TextNode>)
    requires FitsIn(ns, b)
    ensures |r| == |ns| + |ins| + (if b.InText? then 1 else 0)
    ensures r[InsertIndex(b)..InsertIndex(b) + |ins|] == ins
  {
    match b
    case Between(p, _) => ns[..p] + ins + ns[p..]
    case InText(i, k) =>
      var n := ns[i];
      ns[..i] + [n.(text := n.text[..k])] + ins + [n.(text := n.text[k..])] + ns[i + 1..]
  }

  /** Nothing else changes: the nodes before and after the boundary stay in order, and a
      text node the boundary falls in is cut into two halves that keep everything but
      their text. */
  lemma InsertAtKeeps(ns: seq<TextNode>, b: Boundary, ins: seq<TextNode>)
    requires FitsIn(ns, b)
    ensures var r := InsertAt(ns, b, ins);
      b.Between? ==> r[..b.position] == ns[..b.position] && r[b.position + |ins|..] == ns[b.position..]
    ensures var r := InsertAt(ns, b, ins);
      b.InText? ==>
      var i := b.node;
      && r[..i] == ns[..i]
      && r[i + 2 + |ins|..] == ns[i + 1..]
      && r[i].text + r[i + 1 + |ins|].text == ns[i].text
      && r[i].(text := ns[i].text) == ns[i] && r[i + 1 + |ins|].(text := ns[i].text) == ns[i]
  {
    if b.InText? {
      var i, k := b.node, b.offset;
      assert ns[i].text[..k] + ns[i].text[k..] == ns[i].text;
    }
  }

  /** What selection-mode `showTranslation` makes of the document: the first element with id
      `translator-loading` replaced by a result holding `text`; nothing changes when there
      is none. An empty `text` leaves the result element without a text node. */
  function Replaced(ns: seq<TextNode>, text: string): seq<TextNode>
  {
    match FindLoading(ns)
    case None => ns
    case Some(j) => ns[..j] + (if text == "" then [] else [ResultNode(text, ns[j])]) + ns[j + 1..]
  }

  /** The document `showTranslation(text, isFullPage)` leaves behind. */
  function Shown(ns: seq<TextNode>, text: string, isFullPage: bool): seq<TextNode>
  {
    if isFullPage then Render(Purge(ns, true), Split(text, '\n')) else Replaced(ns, text)
  }

  /** The region after `fuel` rounds of the full-page loading loop over the purged region
      `p`: the placeholders pile up right after the first eligible node, each one inside
      the previous one. */
  function Placeholders(p: seq<TextNode>, fuel: nat): seq<TextNode>
  {
    match NextVisit(p, LoadingFilter, -1)
    case None => p
    case Some(e) => Pile(p, e, fuel)
  }

  /** `k` placeholders right after node `e`. */
  function Pile(p: seq<TextNode>, e: nat, k: nat): seq<TextNode>
    requires e < |p|
  {
    p[..e + 1] + Repeat(Placeholder(p[e]), k) + p[e + 1..]
  }

  /** In selection mode the translation ends up exactly where the loading element was put,
      and a second translation finds no loading element and changes nothing. */
  lemma SelectionRoundTrip(doc: seq<TextNode>, b: Boundary, text: string, later: string)
    requires FitsIn(doc, b)
    requires forall j :: 0 <= j < |doc| ==> doc[j].parentId != LoadingId
    ensures var loading := LoadingNode(BoundaryInRegion(doc, b));
      var shown := Replaced(InsertAt(doc, b, [loading]), text);
      && FindLoading(InsertAt(doc, b, [loading])) == Some(InsertIndex(b))
      && shown == InsertAt(doc, b, if text == "" then [] else [ResultNode(text, loading)])
      && Replaced(shown, later) == shown
  {
    var loading := LoadingNode(BoundaryInRegion(doc, b));
    match b
    case Between(p, _) =>
      assert doc == doc[..p] + doc[p..];
      ReplaceLoading(doc[..p], doc[p..], loading, text, later);
    case InText(i, k) =>
      SplitForLoading(doc, i, k, loading, text, later);
  }

  /** The selection ends inside text node `i`: the loading element goes between its halves. */
  lemma SplitForLoading(doc: seq<TextNode>, i: nat, k: nat, loading: TextNode, text: string, later: string)
    requires i < |doc| && k <= |doc[i].text| && loading.parentId == LoadingId
    requires forall j :: 0 <= j < |doc| ==> doc[j].parentId != LoadingId
    ensures var ins := if text == "" then [] else [ResultNode(text, loading)];
      var b := InText(i, k);
      && FindLoading(InsertAt(doc, b, [loading])) == Some(i + 1)
      && Replaced(InsertAt(doc, b, [loading]), text) == InsertAt(doc, b, ins)
      && Replaced(InsertAt(doc, b, ins), later) == InsertAt(doc, b, ins)
  {
    var ins := if text == "" then [] else [ResultNode(text, loading)];
    var n := doc[i];
    var front := doc[..i] + [n.(text := n.text[..k])];
    var back := [n.(text := n.text[k..])] + doc[i + 1..];
    HalvesKeepId(doc, i, k, front, back);
    InsertAtText(doc, i, k, [loading]);
    InsertAtText(doc, i, k, ins);
    ReplaceLoading(front, back, loading, text, later);
  }

  /** The two halves of a split text node keep their parent, hence its id. */
  lemma HalvesKeepId(doc: seq<TextNode>, i: nat, k: nat, front: seq<TextNode>, back: seq<TextNode>)
    requires i < |doc| && k <= |doc[i].text|
    requires front == doc[..i] + [doc[i].(text := doc[i].text[..k])]
    requires back == [doc[i].(text := doc[i].text[k..])] + doc[i + 1..]
    requires forall j :: 0 <= j < |doc| ==> doc[j].parentId != LoadingId
    ensures forall x :: 0 <= x < |front| ==> front[x].parentId != LoadingId
    ensures forall x :: 0 <= x < |back| ==> back[x].parentId != LoadingId
  {
    forall x | 0 <= x < |front| ensures front[x].parentId != LoadingId {
      if x < i {
        assert front[x] == doc[x];
      }
    }
    forall x | 0 <= x < |back| ensures back[x].parentId != LoadingId {
      if x > 0 {
        assert back[x] == doc[i + x];
      }
    }
  }

  /** Inserting inside text node `i` puts `ins` between its two halves. */
  lemma InsertAtText(doc: seq<TextNode>, i: nat, k: nat, ins: seq<TextNode>)
    requires i < |doc| && k <= |doc[i].text|
    ensures var n := doc[i];
      InsertAt(doc, InText(i, k), ins)
      == (doc[..i] + [n.(text := n.text[..k])]) + ins + ([n.(text := n.text[k..])] + doc[i + 1..])
  {
  }

  /** Replacing the one loading element between `front` and `back`. */
  lemma ReplaceLoading(front: seq<TextNode>, back: seq<TextNode>, loading: TextNode, text: string, later: string)
    requires loading.parentId == LoadingId
    requires forall x :: 0 <= x < |front| ==> front[x].parentId != LoadingId
    requires forall x :: 0 <= x < |back| ==> back[x].parentId != LoadingId
    ensures var ins := if text == "" then [] else [ResultNode(text, loading)];
      && FindLoading(front + [loading] + back) == Some(|front|)
      && Replaced(front + [loading] + back, text) == front + ins + back
      && Replaced(front + ins + back, later) == front + ins + back
  {
    var r := front + [loading] + back;
    var j := |front|;
    NextLoading(r, j);
    assert r[..j] == front && r[j + 1..] == back;
    var ins := if text == "" then [] else [ResultNode(text, loading)];
    NoLoading(front, back, ins, later);
  }

  /** `FindLoading` reports index `j` when the first loading node is there. */
  lemma NextLoading(r: seq<TextNode>, j: nat)
    requires j < |r| && r[j].parentId == LoadingId
    requires forall x :: 0 <= x < j ==> r[x].parentId != LoadingId
    ensures FindLoading(r) == Some(j)
  {
  }

  /** A document without loading element is left as it is by selection-mode
      `showTranslation`. */
  lemma NoLoading(front: seq<TextNode>, back: seq<TextNode>, ins: seq<TextNode>, text: string)
    requires forall x :: 0 <= x < |front| ==> front[x].parentId != LoadingId
    requires forall x :: 0 <= x < |back| ==> back[x].parentId != LoadingId
    requires forall x :: 0 <= x < |ins| ==> ins[x].parentId != LoadingId
    ensures Replaced(front + ins + back, text) == front + ins + back
  {
    var shown := front + ins + back;
    forall x | 0 <= x < |shown| ensures shown[x].parentId != LoadingId {
      if x < |front| {
        assert shown[x] == front[x];
      } else if x < |front| + |ins| {
        assert shown[x] == ins[x - |front|];
      } else {
        assert shown[x] == back[x - |front| - |ins|];
      }
    }
  }

  /** The placeholders of an unfinished loading loop are results like any other: the next
      removal takes all of them away and gives back the region. */
  lemma PlaceholdersRemovable(p: seq<TextNode>, fuel: nat)
    requires Purge(p, true) == p
    ensures Purge(Placeholders(p, fuel), true) == p
  {
    match NextVisit(p, LoadingFilter, -1)
    case None =>
    case Some(e) =>
      var ph := Placeholder(p[e]);
      assert Pile(p, e, fuel) == p[..e + 1] + Repeat(ph, fuel) + p[e + 1..];
      PurgeRepeat(ph, fuel);
      assert p == p[..e + 1] + p[e + 1..];
      PurgeAppend(p[..e + 1], p[e + 1..], true);
      PurgeAppend(p[..e + 1] + Repeat(ph, fuel), p[e + 1..], true);
      PurgeAppend(p[..e + 1], Repeat(ph, fuel), true);
  }

  lemma {:induction false} PurgeRepeat(ph: TextNode, k: nat)
    requires Removed(ph, true)
    ensures Purge(Repeat(ph, k), true) == []
  {
    if k > 0 {
      assert Repeat(ph, k) == [ph] + Repeat(ph, k - 1);
      PurgeAppend([ph], Repeat(ph, k - 1), true);
      PurgeRepeat(ph, k - 1);
    }
  }

  /** Where the walker stands once it has returned the first `j` nodes of `bd`, having
      started at `q`. */
  function After(q: nat, bd: seq<nat>, j: nat): nat
    requires j <= |bd|
  {
    if j == 0 then q else bd[j - 1] + 1
  }

  /** `BatchOf(p, q, bd)`: `bd` lists in order the region nodes the walker returns when it
      resumes at index `q` of the purged region, with nothing returned in between. */
  predicate BatchOf(p: seq<TextNode>, q: nat, bd: seq<nat>)
  {
    if bd == [] then true
    else
      var n := |bd| - 1;
      && BatchOf(p, q, bd[..n])
      && After(q, bd, n) <= bd[n] < |p|
      && Visits(ContentFilter, p[bd[n]])
      && Quiet(p, ContentFilter, After(q, bd, n), bd[n])
  }

  lemma BatchOfExtend(p: seq<TextNode>, q: nat, bd: seq<nat>, e: nat)
    requires BatchOf(p, q, bd)
    requires After(q, bd, |bd|) <= e < |p| && Visits(ContentFilter, p[e]) && Quiet(p, ContentFilter, After(q, bd, |bd|), e)
    ensures BatchOf(p, q, bd + [e]) && After(q, bd + [e], |bd| + 1) == e + 1
  {
    assert (bd + [e])[..|bd|] == bd;
  }

  /** Node `k` of a batch: returned by the walker, and the walker skips everything between
      it and the node before it. */
  lemma {:induction false} BatchOfAt(p: seq<TextNode>, q: nat, bd: seq<nat>, k: nat)
    requires BatchOf(p, q, bd) && k < |bd|
    ensures After(q, bd, k) <= bd[k] < |p| && Visits(ContentFilter, p[bd[k]])
    ensures Quiet(p, ContentFilter, After(q, bd, k), bd[k]) && After(q, bd, k + 1) == bd[k] + 1
  {
    var n := |bd| - 1;
    if k < n {
      BatchOfAt(p, q, bd[..n], k);
      assert After(q, bd[..n], k) == After(q, bd, k);
    }
  }

  /** Resuming the live walker over `w + p[q..]` at the node before `p[pos]`. */
  lemma WalkSuffix(w: seq<TextNode>, p: seq<TextNode>, q: nat, pos: nat, f: Filter)
    requires q <= pos <= |p|
    ensures var n := NextVisit(w + p[q..], f, |w| + pos - q - 1);
      match n
      case None => Quiet(p, f, pos, |p|)
      case Some(j) =>
        && |w| + pos - q <= j
        && j - |w| + q < |p|
        && Visits(f, p[j - |w| + q])
        && Quiet(p, f, pos, j - |w| + q)
  {
    var ns := w + p[q..];
    var n := NextVisit(ns, f, |w| + pos - q - 1);
    var hi := match n case None => |p| case Some(j) => j - |w| + q;
    forall e | pos <= e < hi ensures !Visits(f, p[e]) {
      assert ns[e + |w| - q] == p[e];
    }
    if n.Some? {
      assert ns[n.value] == p[n.value - |w| + q];
    }
  }

  /** One round of the full-page loading loop: the walker sits on the last placeholder
      (or on the first eligible node), a new placeholder goes right after it, and the walker
      returns that new placeholder next. */
  lemma PileStep(p: seq<TextNode>, e: nat, k: nat)
    requires e < |p| && Visits(LoadingFilter, p[e])
    ensures var ns := Pile(p, e, k);
      var at := e + k;
      && at < |ns|
      && ns[..at + 1] + [Placeholder(ns[at])] + ns[at + 1..] == Pile(p, e, k + 1)
      && NextVisit(Pile(p, e, k + 1), LoadingFilter, at) == Some(at + 1)
  {
    var ph := Placeholder(p[e]);
    var front, back := p[..e + 1], p[e + 1..];
    var ns := front + Repeat(ph, k) + back;
    var at := e + k;
    assert ns[at] == (if k == 0 then p[e] else ph);
    CutAfterMiddle(front, Repeat(ph, k), back);
    assert Repeat(ph, k) + [ph] == Repeat(ph, k + 1);
    Regroup(front, Repeat(ph, k), [ph]);
    var ns' := front + Repeat(ph, k + 1) + back;
    assert ns'[at + 1] == ph;
    PlaceholderAccepted(p[e]);
  }

  /** One node of a processed batch that gets a result: the `div` goes right after it,
      which is one more step of the rendering. */
  lemma InsertResult(p: seq<TextNode>, lines: seq<string>, e: nat, t: string)
    requires e < |p| && PlanAt(p, lines, e) == Some(t)
    ensures var before := Woven(p, lines, e);
      var ns := before + p[e..];
      var at := |before|;
      && at < |ns|
      && ns[..at + 1] + [ResultNode(t, ns[at])] + ns[at + 1..] == Woven(p, lines, e + 1) + p[e + 1..]
      && |Woven(p, lines, e + 1)| == at + 2
  {
    var before := Woven(p, lines, e);
    var ns := before + p[e..];
    var at := |before|;
    assert p[e..] == [p[e]] + p[e + 1..];
    assert ns[..at + 1] == before + [p[e]];
    assert ns[at + 1..] == p[e + 1..];
  }

  /** Node `k` of batch `b` in the loop of `processBatch`: the region before it has been
      rendered up to `qk`, the nodes up to it are skipped, and the line it is given is
      exactly what the rendering puts after it. */
  lemma BatchStep(p: seq<TextNode>, lines: seq<string>, w: seq<TextNode>, q: nat, b: nat, k: nat,
                  qk: nat, e: nat, inserted: nat, t: string)
    requires q <= qk <= e < |p| && Visits(ContentFilter, p[e]) && Quiet(p, ContentFilter, qk, e)
    requires CountVisits(p, ContentFilter, qk) == 11 * b + k && k < BatchSize && 10 * b < |lines|
    requires |Woven(p, lines, qk)| == |w| + (qk - q) + inserted
    requires t == if 10 * b + k < |lines| then lines[10 * b + k] else ""
    ensures Woven(p, lines, qk) + p[qk..] == Woven(p, lines, e) + p[e..]
    ensures |Woven(p, lines, e)| == |w| + (e - q) + inserted
    ensures PlanAt(p, lines, e) == (if t != "" then Some(t) else None)
    ensures CountVisits(p, ContentFilter, e + 1) == 11 * b + k + 1
  {
    CountVisitsSkip(p, ContentFilter, qk, e);
    WovenResume(p, lines, qk, e);
    PlanInBatch(p, lines, e, b, k);
  }

  /** The end of a full batch: the nodes up to the eleventh are skipped, and the eleventh
      is consumed without a result. */
  lemma DropStep(p: seq<TextNode>, lines: seq<string>, q: nat, end: nat, b: nat)
    requires q <= end < |p| && Quiet(p, ContentFilter, q, end) && Visits(ContentFilter, p[end])
    requires CountVisits(p, ContentFilter, q) == 11 * b + 10
    ensures Woven(p, lines, q) + p[q..] == Woven(p, lines, end + 1) + p[end + 1..]
    ensures |Woven(p, lines, end + 1)| == |Woven(p, lines, q)| + (end + 1 - q)
    ensures CountVisits(p, ContentFilter, end + 1) == 11 * (b + 1)
  {
    WovenResume(p, lines, q, end);
    CountVisitsSkip(p, ContentFilter, q, end);
    DroppedNode(p, lines, end, b);
    WovenNone(p, lines, end);
  }

  /** No node left for the walker, or no line left: the rest of the region stays as it is. */
  lemma FinalStep(p: seq<TextNode>, lines: seq<string>, q: nat, b: nat)
    requires q <= |p|
    requires Quiet(p, ContentFilter, q, |p|) || (CountVisits(p, ContentFilter, q) == 11 * b && 10 * b >= |lines|)
    ensures Woven(p, lines, q) + p[q..] == Render(p, lines)
  {
    if Quiet(p, ContentFilter, q, |p|) {
      WovenQuiet(p, lines, q, |p|);
    } else {
      PlanExhausted(p, lines, q, b);
    }
    assert p[q..] == p[q..|p|];
  }

  /** The page: its text nodes in document order, and whether the page script is stuck in
      a loop, after which it handles no further message. */
  class Page {
    var nodes: seq<TextNode>
    var blocked: bool

    constructor (doc: seq<TextNode>)
      ensures nodes == doc && !blocked
    {
      nodes := doc;
      blocked := false;
    }

    /** `getPageContent`: walk the region and join the trimmed texts with newlines. */
    method GetPageContent() returns (content: string)
      ensures content == Join(PageTexts(nodes), '\n')
    {
      var texts: seq<string> := [];
      var c := -1;
      while true
        invariant -1 <= c < |nodes|
        invariant texts == Collected(nodes, c + 1)
        decreases |nodes| - c
      {
        var n := NextVisit(nodes, ContentFilter, c);
        if n.None? {
          CollectedSkip(nodes, c + 1, |nodes|);
          break;
        }
        CollectedSkip(nodes, c + 1, n.value);
        texts := texts + [Trim(nodes[n.value].text)];
        c := n.value;
      }
      content := Join(texts, '\n');
    }

    /** The counting walk of full-page `showLoading` (`totalParagraphs`). Every returned
        node trims to a non-empty text, so each one is counted. */
    method CountParagraphs() returns (total: nat)
      ensures total == CountVisits(nodes, LoadingFilter, |nodes|)
    {
      total := 0;
      var c := -1;
      var t := NextVisit(nodes, LoadingFilter, c);
      while t.Some?
        invariant -1 <= c < |nodes|
        invariant t == NextVisit(nodes, LoadingFilter, c)
        invariant total == CountVisits(nodes, LoadingFilter, c + 1)
        decreases |nodes| - c
      {
        CountVisitsSkip(nodes, LoadingFilter, c + 1, t.value);
        total := total + 1;
        c := t.value;
        t := NextVisit(nodes, LoadingFilter, c);
      }
      CountVisitsSkip(nodes, LoadingFilter, c + 1, |nodes|);
    }

    /** Full-page `showLoading`: remove earlier results from the region, count the
        paragraphs, then insert a placeholder after every node the live walker returns.
        The walker returns each new placeholder's own text next, so once there is an
        eligible node the loop never ends; `fuel` bounds the rounds the model runs, after
        which the page script is stuck. */
    method ShowLoadingFullPage(fuel: nat) returns (total: nat, finished: bool)
      modifies this
      ensures var p := Purge(old(nodes), true);
        && total == CountVisits(p, LoadingFilter, |p|)
        && nodes == Placeholders(p, fuel)
        && finished == (total == 0)
        && blocked == (old(blocked) || !finished)
    {
      nodes := Purge(nodes, true);
      ghost var p := nodes;
      total := CountParagraphs();
      finished := PlaceholderLoop(fuel, p);
      assert finished <==> total == 0 by {
        match NextVisit(p, LoadingFilter, -1)
        case Some(e) =>
          CountVisitsSkip(p, LoadingFilter, 0, e);
          CountVisitsMonotone(p, LoadingFilter, e + 1, |p|);
        case None =>
          CountVisitsSkip(p, LoadingFilter, 0, |p|);
      }
      if !finished {
        blocked := true;
      }
    }

    /** The insertion loop of full-page `showLoading`: a placeholder after each node the
        live walker returns, for at most `fuel` rounds. */
    method PlaceholderLoop(fuel: nat, ghost p: seq<TextNode>) returns (finished: bool)
      modifies this
      requires nodes == p
      ensures nodes == Placeholders(p, fuel)
      ensures finished == NextVisit(p, LoadingFilter, -1).None?
      ensures blocked == old(blocked)
    {
      var n := NextVisit(nodes, LoadingFilter, -1);
      if n.None? {
        return true;
      }
      ghost var e := n.value;
      assert Placeholders(p, fuel) == Pile(p, e, fuel);
      var k := 0;
      while n.Some? && k < fuel
        invariant 0 <= k <= fuel
        invariant nodes == Pile(p, e, k) && n == Some(e + k)
        invariant blocked == old(blocked)
        decreases fuel - k
      {
        var at := n.value;
        PileStep(p, e, k);
        InsertAfter(at, Placeholder(nodes[at]));
        k := k + 1;
        n := NextVisit(nodes, LoadingFilter, at);
      }
      finished := false;
    }

    /** Selection-mode `showLoading`: `getRangeAt(0)` throws when there is no selection;
        otherwise every result in the document is removed and the loading element is put
        at the end of the selection. */
    method ShowLoadingSelection(selection: Option<Boundary>)
      modifies this
      requires selection.Some? ==> FitsIn(Purge(nodes, false), selection.value)
      ensures selection.None? ==> nodes == old(nodes)
      ensures selection.Some? ==>
        var doc := Purge(old(nodes), false);
        nodes == InsertAt(doc, selection.value, [LoadingNode(BoundaryInRegion(doc, selection.value))])
      ensures blocked == old(blocked)
    {
      if selection.None? {
        return;
      }
      var b := selection.value;
      nodes := Purge(nodes, false);
      nodes := InsertAt(nodes, b, [LoadingNode(BoundaryInRegion(nodes, b))]);
    }

    /** `showLoading(isFullPage)`. */
    method ShowLoading(isFullPage: bool, selection: Option<Boundary>, fuel: nat)
      modifies this
      requires !isFullPage && selection.Some? ==> FitsIn(Purge(nodes, false), selection.value)
      ensures isFullPage ==>
        var p := Purge(old(nodes), true);
        nodes == Placeholders(p, fuel) && blocked == (old(blocked) || CountVisits(p, LoadingFilter, |p|) > 0)
      ensures !isFullPage && selection.None? ==> nodes == old(nodes) && blocked == old(blocked)
      ensures !isFullPage && selection.Some? ==>
        var doc := Purge(old(nodes), false);
        && nodes == InsertAt(doc, selection.value, [LoadingNode(BoundaryInRegion(doc, selection.value))])
        && blocked == old(blocked)
    {
      if isFullPage {
        var total, finished := ShowLoadingFullPage(fuel);
      } else {
        ShowLoadingSelection(selection);
      }
    }

    /** `node.parentNode.insertBefore(n, node.nextSibling)` for the node at `at`: `n` becomes
        the node right after it. */
    method InsertAfter(at: nat, n: TextNode)
      modifies this
      requires at < |nodes|
      ensures nodes == old(nodes)[..at + 1] + [n] + old(nodes)[at + 1..]
      ensures blocked == old(blocked)
    {
      nodes := nodes[..at + 1] + [n] + nodes[at + 1..];
    }

    /** The `while` loop of `processNextBatch`: take nodes from the live walker, which sits
        at `cursor`, until it returns `null` or until it returns one while the batch already
        holds ten; that last node is consumed and dropped. The region is `w + p[q..]`:
        `w` is what earlier batches produced, and the walker sits at its last node. */
    method CollectBatch(cursor: int, ghost w: seq<TextNode>, ghost p: seq<TextNode>, ghost q: nat)
      returns (batch: seq<nat>, next: int, exhausted: bool, ghost bd: seq<nat>, ghost end: nat)
      requires q <= |p| && nodes == w + p[q..] && cursor == |w| - 1
      ensures |batch| == |bd| <= BatchSize && BatchOf(p, q, bd)
      ensures q <= After(q, bd, |bd|) <= end <= |p|
      ensures forall j :: 0 <= j < |bd| ==> batch[j] == |w| + bd[j] - q
      ensures exhausted ==> end == |p| && Quiet(p, ContentFilter, After(q, bd, |bd|), |p|)
      ensures !exhausted ==>
        && |bd| == BatchSize
        && end < |p| && Visits(ContentFilter, p[end]) && Quiet(p, ContentFilter, After(q, bd, |bd|), end)
        && next == |w| + end - q
    {
      batch := [];
      bd := [];
      var c := cursor;
      ghost var pos := q;
      while true
        invariant q <= pos <= |p| && pos == After(q, bd, |bd|)
        invariant c == |w| + pos - q - 1
        invariant |batch| == |bd| <= BatchSize && BatchOf(p, q, bd)
        invariant forall j :: 0 <= j < |bd| ==> batch[j] == |w| + bd[j] - q
        decreases |p| - pos
      {
        var n := NextVisit(nodes, ContentFilter, c);
        WalkSuffix(w, p, q, pos, ContentFilter);
        if n.None? {
          exhausted, next, end := true, c, |p|;
          return;
        }
        ghost var e: nat := n.value - |w| + q;
        c := n.value;
        if |batch| == BatchSize {
          exhausted, next, end := false, c, e;
          return;
        }
        BatchOfExtend(p, q, bd, e);
        batch := batch + [n.value];
        bd := bd + [e];
        pos := e + 1;
      }
    }

    /** `processBatch`: when the batch is not empty and lines remain, give each node of the
        batch, in order, the next line, inserted right after it. The test for remaining
        lines is made once per batch, so later nodes of the batch may read past the last
        line and get an empty result. */
    method ProcessBatch(batch: seq<nat>, lines: seq<string>, index: nat,
                        ghost w: seq<TextNode>, ghost p: seq<TextNode>, ghost q: nat, ghost bd: seq<nat>, ghost b: nat)
      returns (processed: bool, newIndex: nat, inserted: nat)
      modifies this
      requires q <= |p| && w == Woven(p, lines, q) && nodes == w + p[q..]
      requires |batch| == |bd| <= BatchSize && BatchOf(p, q, bd)
      requires forall j :: 0 <= j < |bd| ==> batch[j] == |w| + bd[j] - q
      requires CountVisits(p, ContentFilter, q) == 11 * b && index == 10 * b
      ensures processed == (|batch| > 0 && index < |lines|)
      ensures !processed ==> nodes == old(nodes) && newIndex == index && inserted == 0
      ensures processed ==>
        var q' := After(q, bd, |bd|);
        && q' <= |p|
        && nodes == Woven(p, lines, q') + p[q'..]
        && |Woven(p, lines, q')| == |w| + (q' - q) + inserted
        && CountVisits(p, ContentFilter, q') == 11 * b + |bd|
        && newIndex == index + |batch|
      ensures blocked == old(blocked)
    {
      processed := |batch| > 0 && index < |lines|;
      newIndex, inserted := index, 0;
      if !processed {
        return;
      }
      var k := 0;
      ghost var qk := q;
      while k < |batch|
        invariant 0 <= k <= |batch| && qk == After(q, bd, k) && q <= qk <= |p|
        invariant newIndex == index + k
        invariant nodes == Woven(p, lines, qk) + p[qk..]
        invariant |Woven(p, lines, qk)| == |w| + (qk - q) + inserted
        invariant CountVisits(p, ContentFilter, qk) == 11 * b + k
        invariant blocked == old(blocked)
      {
        inserted, qk := ProcessNode(batch[k], lines, newIndex, inserted, w, p, q, bd, b, k, qk);
        newIndex := newIndex + 1;
        k := k + 1;
      }
    }

    /** Node `k` of a batch being processed, at index `at` of the document as it was when the
        batch was collected: `inserted` results have been put before it since. */
    method ProcessNode(at: nat, lines: seq<string>, index: nat, inserted: nat,
                       ghost w: seq<TextNode>, ghost p: seq<TextNode>, ghost q: nat, ghost bd: seq<nat>, ghost b: nat,
                       ghost k: nat, ghost qk: nat)
      returns (inserted': nat, ghost qk': nat)
      modifies this
      requires BatchOf(p, q, bd) && k < |bd| <= BatchSize && qk == After(q, bd, k) && q <= qk <= |p|
      requires at == |w| + bd[k] - q && index == 10 * b + k && 10 * b < |lines|
      requires nodes == Woven(p, lines, qk) + p[qk..]
      requires |Woven(p, lines, qk)| == |w| + (qk - q) + inserted
      requires CountVisits(p, ContentFilter, qk) == 11 * b + k
      ensures qk' == After(q, bd, k + 1) && q <= qk' <= |p|
      ensures nodes == Woven(p, lines, qk') + p[qk'..]
      ensures |Woven(p, lines, qk')| == |w| + (qk' - q) + inserted'
      ensures CountVisits(p, ContentFilter, qk') == 11 * b + k + 1
      ensures blocked == old(blocked)
    {
      BatchOfAt(p, q, bd, k);
      inserted' := ProcessNodeAt(at, lines, index, inserted, w, p, q, b, k, qk, bd[k]);
      qk' := bd[k] + 1;
    }

    /** The same node, found at index `e` of the purged region, the walker having skipped
        everything from `qk` on before it. */
    method ProcessNodeAt(at: nat, lines: seq<string>, index: nat, inserted: nat,
                       ghost w: seq<TextNode>, ghost p: seq<TextNode>, ghost q: nat, ghost b: nat,
                       ghost k: nat, ghost qk: nat, ghost e: nat)
      returns (inserted': nat)
      modifies this
      requires q <= qk <= e < |p| && Visits(ContentFilter, p[e]) && Quiet(p, ContentFilter, qk, e)
      requires at == |w| + e - q && index == 10 * b + k && k < BatchSize && 10 * b < |lines|
      requires nodes == Woven(p, lines, qk) + p[qk..]
      requires |Woven(p, lines, qk)| == |w| + (qk - q) + inserted
      requires CountVisits(p, ContentFilter, qk) == 11 * b + k
      ensures nodes == Woven(p, lines, e + 1) + p[e + 1..]
      ensures |Woven(p, lines, e + 1)| == |w| + (e + 1 - q) + inserted'
      ensures CountVisits(p, ContentFilter, e + 1) == 11 * b + k + 1
      ensures blocked == old(blocked)
    {
      var t := if index < |lines| then lines[index] else "";
      BatchStep(p, lines, w, q, b, k, qk, e, inserted, t);
      var added := PlaceResult(at + inserted, t, p, lines, e);
      inserted' := inserted + added;
    }

    /** One node of `processBatch`: a `div` after it, holding `t` unless `t` is empty (an
        empty `div` holds no text node). That is the next step of the rendering. */
    method PlaceResult(at: nat, t: string, ghost p: seq<TextNode>, ghost lines: seq<string>, ghost e: nat)
      returns (added: nat)
      modifies this
      requires e < |p| && PlanAt(p, lines, e) == (if t != "" then Some(t) else None)
      requires nodes == Woven(p, lines, e) + p[e..] && at == |Woven(p, lines, e)|
      ensures nodes == Woven(p, lines, e + 1) + p[e + 1..]
      ensures added == (if t != "" then 1 else 0)
      ensures |Woven(p, lines, e + 1)| == at + 1 + added
      ensures blocked == old(blocked)
    {
      added := 0;
      if t != "" {
        InsertResult(p, lines, e, t);
        InsertAfter(at, ResultNode(t, nodes[at]));
        added := 1;
      } else {
        WovenNone(p, lines, e);
      }
    }

    /** Full-page `showTranslation`: remove earlier results from the region, split `text`
        into lines, then run `processNextBatch` round after round until the walker runs
        out of nodes. When a batch finds no line left, the real page keeps rescheduling a
        round that changes nothing; the model stops there and reports `stalled`. */
    method ShowTranslationFullPage(text: string) returns (stalled: bool)
      modifies this
      ensures nodes == Render(Purge(old(nodes), true), Split(text, '\n'))
      ensures blocked == old(blocked)
    {
      nodes := Purge(nodes, true);
      var lines := Split(text, '\n');
      ghost var p := nodes;
      var index := 0;
      var cursor := -1;
      ghost var q := 0;
      ghost var b := 0;
      stalled := false;
      var done := false;
      assert p[0..] == p;
      while !done
        invariant q <= |p|
        invariant !done ==> nodes == Woven(p, lines, q) + p[q..]
        invariant done ==> nodes == Render(p, lines)
        invariant !done ==> cursor == |Woven(p, lines, q)| - 1
        invariant !done ==> CountVisits(p, ContentFilter, q) == 11 * b && index == 10 * b
        invariant blocked == old(blocked)
        decreases |p| - q, !done
      {
        done, stalled, cursor, index, q, b := ProcessNextBatch(cursor, index, lines, p, q, b);
      }
    }

    /** One round of `processNextBatch`: collect a batch with the live walker, then process
        it. The round ends the work (`done`) when the walker ran out of nodes or when the
        batch found no line left (`stalled`); the real page then keeps rescheduling rounds
        that change nothing. Otherwise the eleventh node has been dropped and the next
        round starts right after it. */
    method ProcessNextBatch(cursor: int, index: nat, lines: seq<string>, ghost p: seq<TextNode>, ghost q: nat, ghost b: nat)
      returns (done: bool, stalled: bool, cursor': int, index': nat, ghost q': nat, ghost b': nat)
      modifies this
      requires q <= |p| && nodes == Woven(p, lines, q) + p[q..] && cursor == |Woven(p, lines, q)| - 1
      requires CountVisits(p, ContentFilter, q) == 11 * b && index == 10 * b
      ensures q' <= |p|
      ensures done ==> nodes == Render(p, lines) && q' == q
      ensures !done ==> q < q' && nodes == Woven(p, lines, q') + p[q'..] && cursor' == |Woven(p, lines, q')| - 1
      ensures !done ==> CountVisits(p, ContentFilter, q') == 11 * b' && index' == 10 * b'
      ensures stalled ==> done
      ensures blocked == old(blocked)
    {
      var processed, nonEmpty, exhausted, next, newIndex, qa, end := CollectAndProcess(cursor, index, lines, p, q, b);
      done, stalled, cursor', index', q', b' := true, false, cursor, newIndex, q, b;
      if !processed {
        stalled := nonEmpty;
        FinalStep(p, lines, q, b);
      } else if exhausted {
        FinalStep(p, lines, qa, b);
      } else {
        DropStep(p, lines, qa, end, b);
        done, cursor' := false, next;
        q', b' := end + 1, b + 1;
      }
    }

    /** The two halves of a round, `while` loop and `processBatch`, with what the rest of the
        round needs to know: where the batch ended, and whether the walker returned an
        eleventh node at `end` (`!exhausted`). `next` is where the walker then sits in the
        document as the batch left it. */
    method CollectAndProcess(cursor: int, index: nat, lines: seq<string>, ghost p: seq<TextNode>, ghost q: nat, ghost b: nat)
      returns (processed: bool, nonEmpty: bool, exhausted: bool, next: int, newIndex: nat, ghost qa: nat, ghost end: nat)
      modifies this
      requires q <= |p| && nodes == Woven(p, lines, q) + p[q..] && cursor == |Woven(p, lines, q)| - 1
      requires CountVisits(p, ContentFilter, q) == 11 * b && index == 10 * b
      ensures q <= qa <= end <= |p|
      ensures !processed ==> nodes == old(nodes)
      ensures !processed ==> Quiet(p, ContentFilter, q, |p|) || 10 * b >= |lines|
      ensures !processed && nonEmpty ==> 10 * b >= |lines|
      ensures processed ==> nodes == Woven(p, lines, qa) + p[qa..]
      ensures processed && exhausted ==> Quiet(p, ContentFilter, qa, |p|)
      ensures processed && !exhausted ==>
        && end < |p| && Quiet(p, ContentFilter, qa, end) && Visits(ContentFilter, p[end])
        && CountVisits(p, ContentFilter, qa) == 11 * b + 10
        && next == |Woven(p, lines, qa)| + (end - qa)
        && newIndex == 10 * (b + 1)
      ensures blocked == old(blocked)
    {
      ghost var w := Woven(p, lines, q);
      var batch, walkerAt, ex, bd, e := CollectBatch(cursor, w, p, q);
      var inserted;
      processed, newIndex, inserted := ProcessBatch(batch, lines, index, w, p, q, bd, b);
      nonEmpty, exhausted, end := |batch| > 0, ex, e;
      qa := if processed then After(q, bd, |bd|) else q;
      next := walkerAt + inserted;
    }

    /** Selection-mode `showTranslation`: replace the loading element by a result. */
    method ShowTranslationSelection(text: string)
      modifies this
      ensures nodes == Replaced(old(nodes), text)
      ensures blocked == old(blocked)
    {
      var found := FindLoading(nodes);
      if found.Some? {
        var j := found.value;
        var result := if text == "" then [] else [ResultNode(text, nodes[j])];
        nodes := nodes[..j] + result + nodes[j + 1..];
      }
    }

    /** `showTranslation(text, isFullPage)`. */
    method ShowTranslation(text: string, isFullPage: bool)
      modifies this
      ensures nodes == Shown(old(nodes), text, isFullPage)
      ensures blocked == old(blocked)
    {
      if isFullPage {
        var stalled := ShowTranslationFullPage(text);
      } else {
        ShowTranslationSelection(text);
      }
    }

    /** The message listener. A page script stuck in full-page `showLoading` handles
        nothing more. `selection` is the page's selection and `fuel` the bound on the
        loading loop. */
    method Dispatch(message: PageMessage, selection: Option<Boundary>, fuel: nat) returns (reply: Option<PageMessage>)
      modifies this
      requires message.TranslationStart? && !message.isFullPage && selection.Some? ==>
        FitsIn(Purge(nodes, false), selection.value)
      ensures old(blocked) ==> reply.None? && nodes == old(nodes) && blocked
      ensures !old(blocked) && message.GetPageContent? ==>
        reply == Some(PageContent(Join(PageTexts(old(nodes)), '\n'))) && nodes == old(nodes) && !blocked
      ensures !message.GetPageContent? ==> reply.None?
      ensures !old(blocked) && message.TranslationStart? && message.isFullPage ==>
        var p := Purge(old(nodes), true);
        nodes == Placeholders(p, fuel) && blocked == (CountVisits(p, LoadingFilter, |p|) > 0)
      ensures !old(blocked) && message.TranslationStart? && !message.isFullPage ==>
        !blocked && (selection.None? ==> nodes == old(nodes))
      ensures !old(blocked) && message.ShowTranslation? ==>
        nodes == Shown(old(nodes), message.translation, message.isFullPage) && !blocked
      ensures !old(blocked) && message.ShowError? ==>
        nodes == Shown(old(nodes), "错误: " + message.error, message.isFullPage) && !blocked
      ensures !old(blocked) && message.PageContent? ==> nodes == old(nodes) && !blocked
    {
      reply := None;
      if blocked {
        return;
      }
      match message
      case GetPageContent =>
        var content := GetPageContent();
        reply := Some(PageContent(content));
      case TranslationStart(isFullPage) =>
        ShowLoading(isFullPage, selection, fuel);
      case ShowTranslation(translation, isFullPage) =>
        ShowTranslation(translation, isFullPage);
      case ShowError(error, isFullPage) =>
        ShowTranslation("错误: " + error, isFullPage);
      case PageContent(_) =>
    }
  }
}
