/** The page side of the extension (content.js): wrapping every match of a
    saved snippet in a marker element, and taking markers off again. A `Page`
    holds the text nodes of the document in order; the operations rewrite them
    in place, as the DOM calls do. */
module Highlighter {
  import opened Base
  import opened Pattern
  import opened Matcher
  import opened Dom
  import opened Annotations

  /** Whether buffer offset `k` lies inside one of the spans. */
  predicate CoveredBy(spans: seq<Span>, k: int)
  {
    spans != [] && ((spans[0].start <= k < spans[0].end) || CoveredBy(spans[1..], k))
  }

  lemma {:induction false} CoveredByAt(spans: seq<Span>, t: nat, k: int)
    requires t < |spans| && spans[t].start <= k < spans[t].end
    ensures CoveredBy(spans, k)
  {
    if t > 0 {
      CoveredByAt(spans[1..], t - 1, k);
    }
  }

  /** `after` is `before` with every offset some span covers marked. */
  predicate MarkedBy(before: seq<bool>, after: seq<bool>, spans: seq<Span>)
  {
    && |after| == |before|
    && forall k :: 0 <= k < |before| ==> after[k] == (before[k] || CoveredBy(spans, k))
  }

  /** Every offset some span covers is already marked. */
  predicate AllCovered(marks: seq<bool>, spans: seq<Span>)
  {
    forall k :: 0 <= k < |marks| && CoveredBy(spans, k) ==> marks[k]
  }

  lemma AllCoveredAt(marks: seq<bool>, spans: seq<Span>, j: nat)
    requires AllCovered(marks, spans) && j < |spans|
    ensures AllMarkedIn(marks, spans[j].start, spans[j].end)
  {
    forall k | 0 <= k < |marks| && spans[j].start <= k < spans[j].end ensures marks[k] {
      CoveredByAt(spans, j, k);
    }
  }

  lemma MarkedByStep(m0: seq<bool>, mid: seq<bool>, after: seq<bool>, spans: seq<Span>, j: nat)
    requires j < |spans|
    requires MarkedBy(m0, mid, spans[j + 1..])
    requires MarksAdded(mid, after, spans[j].start, spans[j].end)
    ensures MarkedBy(m0, after, spans[j..])
  {
    assert spans[j..][1..] == spans[j + 1..];
  }

  lemma MarksAddedJoin(a: seq<bool>, b: seq<bool>, c: seq<bool>, lo: int, mid: int, hi: int)
    requires lo <= mid <= hi
    requires MarksAdded(a, b, mid, hi)
    requires MarksAdded(b, c, lo, mid)
    ensures MarksAdded(a, c, lo, hi)
  {
  }

  /** The matches the global scan of `buf` reports for a snippet: non-empty,
      in order, not overlapping, and each a match of the snippet. */
  function Found(searchText: string, buf: string): (r: seq<Span>)
    requires HasVisible(searchText)
    ensures Ordered(r, 0, |buf|)
    ensures forall t :: 0 <= t < |r| ==> Matches(Atoms(searchText), buf[r[t].start..r[t].end])
  {
    AtomsHaveLiteral(searchText);
    AllSpansAreLeftmostMatches(Atoms(searchText), buf, 0);
    AllSpans(Atoms(searchText), buf, 0)
  }

  /** Every marker on the page has an identity below `bound`. */
  predicate IdsBelow(nodes: seq<TextNode>, bound: nat)
  {
    forall p :: 0 <= p < |nodes| && nodes[p].parent.Marker? ==> nodes[p].parent.id < bound
  }

  lemma SplitIdsBelow(nodes: seq<TextNode>, pos: nat, a: nat, b: nat, m: nat)
    requires pos < |nodes|
    requires a <= b <= |nodes[pos].text|
    requires IdsBelow(nodes, m)
    ensures IdsBelow(Split(nodes, pos, a, b, m), m + 1)
  {
    var r := Split(nodes, pos, a, b, m);
    forall p | 0 <= p < |r| && r[p].parent.Marker? ensures r[p].parent.id < m + 1 {
      if p < pos {
        assert r[p] == r[..pos][p];
      } else if pos + 3 <= p {
        assert r[p] == nodes[p - 2];
      }
    }
  }

  /** Where the wrap loop has got to, working back to front: before any wrap
      (`w == |recs|`) the page is as it was; after one, every node before the
      node of record `w` is untouched, and that node, a plain one, keeps its
      text up to buffer offset `cut` (the rest went into the marker and the
      node after it). */
  ghost predicate Frontier(nodes: seq<TextNode>, orig: seq<TextNode>, recs: seq<NodeRecord>, w: int, cut: int)
    requires Describes(recs, orig)
  {
    if w == |recs| then nodes == orig
    else
      && 0 <= w < |recs|
      && recs[w].start <= cut < recs[w].end
      && orig[recs[w].pos].parent == Plain
      && recs[w].pos < |nodes|
      && nodes[..recs[w].pos] == orig[..recs[w].pos]
      && nodes[recs[w].pos] == TextNode(orig[recs[w].pos].text[..cut - recs[w].start], Plain)
  }

  /** The node of record `i`, at or before the frontier, still sits at its
      position behind untouched nodes, under its own parent, holding a prefix of
      its text: all of it before the frontier node, up to `cut` at it. */
  lemma NodeNow(nodes: seq<TextNode>, orig: seq<TextNode>, recs: seq<NodeRecord>, w: int, cut: int, i: nat)
    requires Describes(recs, orig)
    requires Frontier(nodes, orig, recs, w, cut)
    requires i < |recs| && i <= w
    ensures recs[i].pos < |nodes|
    ensures nodes[..recs[i].pos] == orig[..recs[i].pos]
    ensures nodes[recs[i].pos].parent == orig[recs[i].pos].parent
    ensures |nodes[recs[i].pos].text| <= |orig[recs[i].pos].text|
    ensures nodes[recs[i].pos].text == orig[recs[i].pos].text[..|nodes[recs[i].pos].text|]
    ensures recs[i].start + |nodes[recs[i].pos].text| == (if i == w then cut else recs[i].end)
  {
    var pos := recs[i].pos;
    if w == |recs| {
      assert orig[pos].text == orig[pos].text[..|orig[pos].text|];
    } else if i < w {
      var pw := recs[w].pos;
      assert pos < pw;
      assert nodes[..pos] == nodes[..pw][..pos];
      assert orig[..pos] == orig[..pw][..pos];
      assert nodes[pos] == nodes[..pw][pos];
      assert orig[pos] == orig[..pw][pos];
      assert orig[pos].text == orig[pos].text[..|orig[pos].text|];
    }
  }

  /** Below the frontier the marks are those of the original page. */
  lemma FrontierMarks(nodes: seq<TextNode>, orig: seq<TextNode>, recs: seq<NodeRecord>, w: int, cut: int)
    requires Describes(recs, orig)
    requires Frontier(nodes, orig, recs, w, cut)
    ensures forall k :: 0 <= k < |Marks(orig)| && (w == |recs| || k < cut) ==>
      k < |Marks(nodes)| && Marks(nodes)[k] == Marks(orig)[k]
  {
    if w < |recs| {
      var pos := recs[w].pos;
      var pre := orig[..pos];
      assert nodes == pre + [nodes[pos]] + nodes[pos + 1..];
      assert orig == pre + [orig[pos]] + orig[pos + 1..];
      MarksAround(pre, nodes[pos], nodes[pos + 1..]);
      MarksAround(pre, orig[pos], orig[pos + 1..]);
      MarksLength(pre);
      var start := recs[w].start;
      forall k | 0 <= k < |Marks(orig)| && k < cut
        ensures k < |Marks(nodes)| && Marks(nodes)[k] == Marks(orig)[k]
      {
        if start <= k {
          assert MarkBits(nodes[pos])[k - start] == MarkBits(orig[pos])[k - start];
        }
      }
    }
  }

  /** Wrapping `[so, eo)` of the node of record `i` moves the frontier there,
      keeps the buffer, and marks exactly the covered offsets. */
  lemma WrapStep(nodes: seq<TextNode>, orig: seq<TextNode>, recs: seq<NodeRecord>, i: nat, so: nat, eo: nat, m: nat)
    requires Describes(recs, orig)
    requires i < |recs|
    requires recs[i].pos < |nodes|
    requires nodes[..recs[i].pos] == orig[..recs[i].pos]
    requires orig[recs[i].pos].parent == Plain && nodes[recs[i].pos].parent == Plain
    requires |nodes[recs[i].pos].text| <= |orig[recs[i].pos].text|
    requires nodes[recs[i].pos].text == orig[recs[i].pos].text[..|nodes[recs[i].pos].text|]
    requires so < eo <= |nodes[recs[i].pos].text|
    ensures Frontier(Split(nodes, recs[i].pos, so, eo, m), orig, recs, i, recs[i].start + so)
    ensures Buffer(Split(nodes, recs[i].pos, so, eo, m)) == Buffer(nodes)
    ensures MarksAdded(Marks(nodes), Marks(Split(nodes, recs[i].pos, so, eo, m)), recs[i].start + so, recs[i].start + eo)
  {
    var pos := recs[i].pos;
    var r := Split(nodes, pos, so, eo, m);
    var t := nodes[pos].text;
    assert t[..so] == orig[pos].text[..so];
    SplitKeepsText(nodes, pos, so, eo, m);
  }

  /** `m0` and `marks` agree below `me`. */
  predicate AgreeBelow(m0: seq<bool>, marks: seq<bool>, me: int)
  {
    forall k :: 0 <= k < |m0| && k < me ==> k < |marks| && m0[k] == marks[k]
  }

  /** Every offset in `[lo, hi)` is marked. */
  predicate AllMarkedIn(marks: seq<bool>, lo: int, hi: int)
  {
    forall k :: 0 <= k < |marks| && lo <= k < hi ==> marks[k]
  }

  /** Inside a marker node every offset of the record is already marked. */
  lemma PartMarked(recs: seq<NodeRecord>, orig: seq<TextNode>, i: nat, m0: seq<bool>, lo: int, hi: int, me: int)
    requires Describes(recs, orig)
    requires i < |recs| && orig[recs[i].pos].parent.Marker?
    requires recs[i].start <= lo && hi <= recs[i].end && hi <= me
    requires AgreeBelow(m0, Marks(orig), me)
    requires me <= |m0|
    ensures forall k :: lo <= k < hi ==> m0[k]
  {
    RecordContents(recs, orig, i);
  }

  /** In a plain node no offset of the record is marked yet. */
  lemma PartUnmarked(recs: seq<NodeRecord>, orig: seq<TextNode>, i: nat, m0: seq<bool>, k: int, me: int)
    requires Describes(recs, orig)
    requires i < |recs| && orig[recs[i].pos].parent == Plain
    requires recs[i].start <= k < recs[i].end && k < me
    requires AgreeBelow(m0, Marks(orig), me)
    requires me <= |m0|
    ensures !m0[k]
  {
    RecordContents(recs, orig, i);
  }

  lemma MarksAddedWiden(a: seq<bool>, b: seq<bool>, lo: int, mid: int, hi: int)
    requires lo <= mid
    requires MarksAdded(a, b, mid, hi)
    requires forall k :: lo <= k < mid ==> 0 <= k < |a| && a[k]
    ensures MarksAdded(a, b, lo, hi)
  {
  }

  /** The state of the wrap loop for one match: the frontier, the page text
      unchanged, and the match's offsets from `lo` on added to the marks `m0`
      the match started from. */
  ghost predicate Progress(nodes: seq<TextNode>, orig: seq<TextNode>, recs: seq<NodeRecord>, me: int,
                           w: int, cut: int, lo: int, m0: seq<bool>)
    requires Describes(recs, orig)
  {
    && Frontier(nodes, orig, recs, w, cut)
    && (w == |recs| || lo <= cut)
    && Buffer(nodes) == Buffer(orig)
    && MarksAdded(m0, Marks(nodes), lo, me)
  }

  lemma ProgressIntro(nodes: seq<TextNode>, orig: seq<TextNode>, recs: seq<NodeRecord>, me: int,
                      w: int, cut: int, lo: int, m0: seq<bool>)
    requires Describes(recs, orig)
    requires Frontier(nodes, orig, recs, w, cut)
    requires w == |recs| || lo <= cut
    requires Buffer(nodes) == Buffer(orig)
    requires MarksAdded(m0, Marks(nodes), lo, me)
    ensures Progress(nodes, orig, recs, me, w, cut, lo, m0)
  {
  }

  /** A node the loop skips, because it is inside a marker or its part of the
      match is empty, needs no wrap: its part is already marked. */
  lemma SkipProgress(nodes: seq<TextNode>, orig: seq<TextNode>, recs: seq<NodeRecord>, ms: nat, me: nat, i: nat,
                     w: int, cut: int, lo: int, m0: seq<bool>)
    requires Tiles(recs, |Buffer(orig)|) && Describes(recs, orig)
    requires ms < me <= |Buffer(orig)|
    requires FirstEnd(recs, ms, false) <= i <= FirstEnd(recs, me, true)
    requires i <= w && lo == Min(me, recs[i].end)
    requires Progress(nodes, orig, recs, me, w, cut, lo, m0)
    requires AgreeBelow(m0, Marks(orig), me)
    requires orig[recs[i].pos].parent.Marker? || Max(ms, recs[i].start) == lo
    ensures Progress(nodes, orig, recs, me, w, cut, Max(ms, recs[i].start), m0)
  {
    SliceIsOverlap(recs, |Buffer(orig)|, ms, me, i, recs[i].end - recs[i].start);
    MarksLength(nodes);
    var next := Max(ms, recs[i].start);
    if orig[recs[i].pos].parent.Marker? {
      PartMarked(recs, orig, i, m0, next, lo, me);
      MarksAddedWiden(m0, Marks(nodes), next, lo, me);
    }
  }

  /** Wrapping the part of a plain node the match covers moves the frontier
      to the start of that part, keeps the text, and adds that part to the
      marks. */
  lemma WrapFacts(nodes: seq<TextNode>, orig: seq<TextNode>, recs: seq<NodeRecord>, ms: nat, me: nat, i: nat,
                  w: int, cut: int, lo: int, m0: seq<bool>, so: nat, eo: nat, m: nat)
    requires Tiles(recs, |Buffer(orig)|) && Describes(recs, orig)
    requires ms < me <= |Buffer(orig)|
    requires FirstEnd(recs, ms, false) <= i <= FirstEnd(recs, me, true)
    requires i <= w && lo == Min(me, recs[i].end)
    requires Progress(nodes, orig, recs, me, w, cut, lo, m0)
    requires AgreeBelow(m0, Marks(orig), me)
    requires orig[recs[i].pos].parent == Plain
    requires recs[i].start + so == Max(ms, recs[i].start) && recs[i].start + eo == lo && so < eo
    ensures recs[i].pos < |nodes| && eo <= |nodes[recs[i].pos].text|
    ensures Frontier(Split(nodes, recs[i].pos, so, eo, m), orig, recs, i, recs[i].start + so)
    ensures Buffer(Split(nodes, recs[i].pos, so, eo, m)) == Buffer(orig)
    ensures MarksAdded(Marks(nodes), Marks(Split(nodes, recs[i].pos, so, eo, m)), recs[i].start + so, lo)
  {
    NodeNow(nodes, orig, recs, w, cut, i);
    var len := |nodes[recs[i].pos].text|;
    SliceIsOverlap(recs, |Buffer(orig)|, ms, me, i, len);
    WrapStep(nodes, orig, recs, i, so, eo, m);
  }

  /** The part about to be wrapped is not marked yet. */
  lemma FreshPart(nodes: seq<TextNode>, orig: seq<TextNode>, recs: seq<NodeRecord>, ms: nat, me: nat, i: nat,
                  w: int, cut: int, lo: int, m0: seq<bool>, so: nat)
    requires Tiles(recs, |Buffer(orig)|) && Describes(recs, orig)
    requires ms < me <= |Buffer(orig)|
    requires FirstEnd(recs, ms, false) <= i <= FirstEnd(recs, me, true)
    requires lo == Min(me, recs[i].end)
    requires Progress(nodes, orig, recs, me, w, cut, lo, m0)
    requires AgreeBelow(m0, Marks(orig), me)
    requires orig[recs[i].pos].parent == Plain
    requires recs[i].start + so == Max(ms, recs[i].start) && recs[i].start + so < lo
    ensures !AllMarkedIn(m0, ms, me)
  {
    MarksLength(nodes);
    var k := recs[i].start + so;
    PartUnmarked(recs, orig, i, m0, k, me);
    assert ms <= k < me && k < |m0| && !m0[k];
  }

  /** The same, as the state of the wrap loop. */
  lemma WrapProgress(nodes: seq<TextNode>, orig: seq<TextNode>, recs: seq<NodeRecord>, ms: nat, me: nat, i: nat,
                     w: int, cut: int, lo: int, m0: seq<bool>, so: nat, eo: nat, m: nat)
    requires Tiles(recs, |Buffer(orig)|) && Describes(recs, orig)
    requires ms < me <= |Buffer(orig)|
    requires FirstEnd(recs, ms, false) <= i <= FirstEnd(recs, me, true)
    requires i <= w && lo == Min(me, recs[i].end)
    requires Progress(nodes, orig, recs, me, w, cut, lo, m0)
    requires AgreeBelow(m0, Marks(orig), me)
    requires orig[recs[i].pos].parent == Plain
    requires recs[i].start + so == Max(ms, recs[i].start) && recs[i].start + eo == lo && so < eo
    ensures recs[i].pos < |nodes| && eo <= |nodes[recs[i].pos].text|
    ensures Progress(Split(nodes, recs[i].pos, so, eo, m), orig, recs, me, i, recs[i].start + so, recs[i].start + so, m0)
    ensures !AllMarkedIn(m0, ms, me)
  {
    FreshPart(nodes, orig, recs, ms, me, i, w, cut, lo, m0, so);
    WrapFacts(nodes, orig, recs, ms, me, i, w, cut, lo, m0, so, eo, m);
    var next := recs[i].start + so;
    var after := Split(nodes, recs[i].pos, so, eo, m);
    assert lo <= me;
    MarksAddedJoin(m0, Marks(nodes), Marks(after), next, lo, me);
    ProgressIntro(after, orig, recs, me, i, next, next, m0);
  }

  /** The node of record `i` still holds the part of the match the record
      covers, and the offsets the loop computes for it delimit exactly that
      part. */
  lemma NodeSlice(nodes: seq<TextNode>, orig: seq<TextNode>, recs: seq<NodeRecord>, ms: nat, me: nat, i: nat,
                  w: int, cut: int, lo: int, m0: seq<bool>)
    requires Tiles(recs, |Buffer(orig)|) && Describes(recs, orig)
    requires ms < me <= |Buffer(orig)|
    requires FirstEnd(recs, ms, false) <= i <= FirstEnd(recs, me, true)
    requires i <= w && lo == Min(me, recs[i].end)
    requires Progress(nodes, orig, recs, me, w, cut, lo, m0)
    ensures recs[i].pos < |nodes|
    ensures nodes[recs[i].pos].parent == orig[recs[i].pos].parent != Script
    ensures var so := StartOffset(recs, FirstEnd(recs, ms, false), ms, i);
      var eo := EndOffset(recs, FirstEnd(recs, me, true), me, i, |nodes[recs[i].pos].text|);
      && 0 <= so <= eo
      && recs[i].start + so == Max(ms, recs[i].start)
      && recs[i].start + eo == lo
    ensures i > FirstEnd(recs, ms, false) ==> Max(ms, recs[i].start) == Min(me, recs[i - 1].end)
    ensures i == FirstEnd(recs, ms, false) ==> Max(ms, recs[i].start) == ms
  {
    NodeNow(nodes, orig, recs, w, cut, i);
    SliceIsOverlap(recs, |Buffer(orig)|, ms, me, i, |nodes[recs[i].pos].text|);
  }

  /** The text under SCRIPT and STYLE and under every marker older than `n`
      is the same in `after` as in `before`. */
  ghost predicate OthersKept(before: seq<TextNode>, after: seq<TextNode>, n: nat)
  {
    forall q: Parent :: q != Plain && (q.Marker? ==> q.id < n) ==> TextUnder(after, q) == TextUnder(before, q)
  }

  lemma {:induction false} KeptTrans(a: seq<TextNode>, b: seq<TextNode>, c: seq<TextNode>, n: nat, n1: nat)
    requires n <= n1
    requires OthersKept(a, b, n) && OthersKept(b, c, n1)
    ensures OthersKept(a, c, n)
  {
    forall q: Parent | q != Plain && (q.Marker? ==> q.id < n)
      ensures TextUnder(c, q) == TextUnder(a, q)
    {
      assert TextUnder(b, q) == TextUnder(a, q);
    }
  }

  /** Wrapping part of a plain node with the fresh marker `m` touches no
      other marker and no SCRIPT or STYLE text. */
  lemma WrapKeepsOthers(nodes: seq<TextNode>, pos: nat, so: nat, eo: nat, m: nat)
    requires pos < |nodes| && so <= eo <= |nodes[pos].text|
    requires nodes[pos].parent == Plain
    ensures OthersKept(nodes, Split(nodes, pos, so, eo, m), m)
  {
    var after := Split(nodes, pos, so, eo, m);
    forall q: Parent | q != Plain && (q.Marker? ==> q.id < m)
      ensures TextUnder(after, q) == TextUnder(nodes, q)
    {
      SplitTextUnder(nodes, pos, so, eo, m, q);
    }
  }

  /** A marker with an identity no marker has yet holds, once wrapped around
      part of a plain node, exactly that part. */
  lemma FreshMarkerText(nodes: seq<TextNode>, pos: nat, a: nat, b: nat, m: nat)
    requires pos < |nodes| && a <= b <= |nodes[pos].text|
    requires nodes[pos].parent == Plain
    requires IdsBelow(nodes, m)
    ensures MarkerText(Split(nodes, pos, a, b, m), m) == nodes[pos].text[a..b]
  {
    assert forall p :: 0 <= p < |nodes| ==> nodes[p].parent != Marker(m);
    SplitNewMarker(nodes, pos, a, b, m);
  }

  /** The node of record `i`, at or before the frontier, is still plain
      when the original one was. */
  lemma NodePlain(nodes: seq<TextNode>, orig: seq<TextNode>, recs: seq<NodeRecord>, w: int, cut: int, i: nat)
    requires Describes(recs, orig)
    requires Frontier(nodes, orig, recs, w, cut)
    requires i < |recs| && i <= w
    requires orig[recs[i].pos].parent == Plain
    ensures recs[i].pos < |nodes| && nodes[recs[i].pos].parent == Plain
  {
    NodeNow(nodes, orig, recs, w, cut, i);
  }

  /** Before the first node of a match is wrapped: the marks agree with the
      original page up to the match's end, nothing of the match is added yet,
      and both record lookups succeed. */
  lemma WrapStart(nodes: seq<TextNode>, orig: seq<TextNode>, recs: seq<NodeRecord>, w: int, cut: int, ms: nat, me: nat)
    requires Tiles(recs, |Buffer(orig)|) && Describes(recs, orig)
    requires ms < me <= |Buffer(orig)|
    requires Buffer(nodes) == Buffer(orig)
    requires Frontier(nodes, orig, recs, w, cut)
    requires w == |recs| || me <= cut
    ensures AgreeBelow(Marks(nodes), Marks(orig), me)
    ensures Progress(nodes, orig, recs, me, w, cut, me, Marks(nodes))
    ensures 0 <= FirstEnd(recs, ms, false) <= FirstEnd(recs, me, true)
  {
    MarksLength(nodes);
    MarksLength(orig);
    FrontierMarks(nodes, orig, recs, w, cut);
    LookupsSucceed(recs, |Buffer(orig)|, ms, me);
  }

  /** A blank snippet, after the search pattern is built, is one `\s*`: the
      `regex.exec` loop reaches a match that ends where the next search starts
      and is empty, so `lastIndex` stops moving and the loop never ends. */
  lemma BlankSnippetNeverEnds(t: string, buf: string, from: nat)
    requires t != [] && !HasVisible(t)
    requires from <= |buf|
    ensures FindFrom(Atoms(t), buf, from).Some?
    ensures var e := FindFrom(Atoms(t), buf, from).value.end;
      e <= |buf| && FindFrom(Atoms(t), buf, e) == Some(Span(e, e))
  {
    BlankAtoms(t);
    var e := SkipSpaces(buf, from);
    assert MatchAt([AnySpaces], buf, from) == Some(e);
    assert SkipSpaces(buf, e) == e;
    assert MatchAt([AnySpaces], buf, e) == Some(e);
  }

  /** Marks that only grow keep every span that was covered covered. */
  lemma StaysCovered(before: seq<bool>, after: seq<bool>, spans: seq<Span>, covered: seq<Span>)
    requires MarkedBy(before, after, spans)
    requires AllCovered(before, covered)
    ensures AllCovered(after, covered)
  {
  }

  /** After the spans are marked, they are covered. */
  lemma MarkedByCovers(before: seq<bool>, after: seq<bool>, spans: seq<Span>)
    requires MarkedBy(before, after, spans)
    ensures AllCovered(after, spans)
  {
  }

  /** Every highlight of `list` that has a visible character has all its
      matches in `buf` marked. */
  ghost predicate AllShown(marks: seq<bool>, buf: string, list: seq<Annotation>)
  {
    forall u :: 0 <= u < |list| && HasVisible(list[u].text) ==> AllCovered(marks, Found(list[u].text, buf))
  }

  /** No highlight is shown vacuously. */
  lemma ShownNone(marks: seq<bool>, buf: string, list: seq<Annotation>)
    ensures AllShown(marks, buf, list[..0])
  {
  }

  /** Once every prefix highlight is shown, the list is. */
  lemma ShownAll(marks: seq<bool>, buf: string, list: seq<Annotation>, t: nat)
    requires t == |list| && AllShown(marks, buf, list[..t])
    ensures AllShown(marks, buf, list)
  {
    assert list[..t] == list;
  }

  /** Highlighting one more stored snippet keeps the earlier ones shown and
      shows it too. */
  lemma ShownStep(before: seq<bool>, after: seq<bool>, buf: string, list: seq<Annotation>, t: nat)
    requires t < |list|
    requires AllShown(before, buf, list[..t])
    requires HasVisible(list[t].text) ==> MarkedBy(before, after, Found(list[t].text, buf))
    requires !HasVisible(list[t].text) ==> after == before
    ensures AllShown(after, buf, list[..t + 1])
  {
    var prefix := list[..t + 1];
    forall u | 0 <= u < t + 1 && HasVisible(prefix[u].text)
      ensures AllCovered(after, Found(prefix[u].text, buf))
    {
      if u < t {
        assert prefix[u] == list[..t][u];
        if HasVisible(list[t].text) {
          StaysCovered(before, after, Found(list[t].text, buf), Found(prefix[u].text, buf));
        }
      } else {
        MarkedByCovers(before, after, Found(list[t].text, buf));
      }
    }
  }

  /** Offset `k` lies in a match of some highlight of `list` with a visible
      character. */
  ghost predicate CoveredByAny(list: seq<Annotation>, buf: string, k: int)
    decreases |list|
  {
    && list != []
    && (|| CoveredByAny(list[..|list| - 1], buf, k)
        || (HasVisible(list[|list| - 1].text) && CoveredBy(Found(list[|list| - 1].text, buf), k)))
  }

  /** `marks` is `m0` with exactly the matches of the highlights of `list`
      added. */
  ghost predicate ShownBy(m0: seq<bool>, marks: seq<bool>, buf: string, list: seq<Annotation>)
  {
    && |marks| == |m0|
    && forall k :: 0 <= k < |m0| ==> marks[k] == (m0[k] || CoveredByAny(list, buf, k))
  }

  lemma ShownByNone(m0: seq<bool>, buf: string, list: seq<Annotation>)
    ensures ShownBy(m0, m0, buf, list[..0])
  {
    assert list[..0] == [];
  }

  lemma ShownByAll(m0: seq<bool>, marks: seq<bool>, buf: string, list: seq<Annotation>, t: nat)
    requires t == |list| && ShownBy(m0, marks, buf, list[..t])
    ensures ShownBy(m0, marks, buf, list)
  {
    assert list[..t] == list;
  }

  /** Highlighting one more stored snippet adds exactly its matches. */
  lemma ShownByStep(m0: seq<bool>, before: seq<bool>, after: seq<bool>, buf: string, list: seq<Annotation>, t: nat)
    requires t < |list|
    requires ShownBy(m0, before, buf, list[..t])
    requires HasVisible(list[t].text) ==> MarkedBy(before, after, Found(list[t].text, buf))
    requires !HasVisible(list[t].text) ==> after == before
    ensures ShownBy(m0, after, buf, list[..t + 1])
  {
    var prefix := list[..t + 1];
    assert prefix[..|prefix| - 1] == list[..t];
    assert prefix[|prefix| - 1] == list[t];
  }

  /** The parent a node has after every marker whose own text is `text` is
      taken off: such a marker's nodes move to an ordinary element. */
  function AfterRemoveByText(nodes: seq<TextNode>, p: nat, text: string): (r: Parent)
    requires p < |nodes|
  {
    var parent := nodes[p].parent;
    if parent.Marker? && MarkerText(nodes, parent.id) == text then Plain else parent
  }

  /** `after` is `nodes` with the nodes of marker `m` moved out of it. */
  predicate Hoisted(nodes: seq<TextNode>, after: seq<TextNode>, m: nat)
  {
    |after| == |nodes| && forall p :: 0 <= p < |after| ==> after[p] == Hoist(nodes[p], m)
  }

  /** `nodes` is `before` with the markers in `gone` unwrapped. */
  predicate Unwrapped(nodes: seq<TextNode>, before: seq<TextNode>, gone: seq<nat>)
  {
    && |nodes| == |before|
    && forall p :: 0 <= p < |nodes| ==>
         && nodes[p].text == before[p].text
         && nodes[p].parent == (if before[p].parent.Marker? && before[p].parent.id in gone then Plain else before[p].parent)
  }

  /** Unwrapping one more marker. */
  lemma UnwrapStep(nodes: seq<TextNode>, before: seq<TextNode>, after: seq<TextNode>, gone: seq<nat>, m: nat)
    requires Unwrapped(nodes, before, gone)
    requires Hoisted(nodes, after, m)
    ensures Unwrapped(after, before, gone + [m])
  {
  }

  /** Unwrapping the next marker of the list. */
  lemma UnwrapNext(nodes: seq<TextNode>, before: seq<TextNode>, after: seq<TextNode>, marks: seq<nat>, t: nat)
    requires t < |marks|
    requires Unwrapped(nodes, before, marks[..t])
    requires Hoisted(nodes, after, marks[t])
    ensures Unwrapped(after, before, marks[..t + 1])
  {
    assert marks[..t + 1] == marks[..t] + [marks[t]];
    UnwrapStep(nodes, before, after, marks[..t], marks[t]);
  }

  /** `gone` holds exactly the markers among `seen` whose text is `text`. */
  ghost predicate GoneByText(gone: seq<nat>, seen: seq<nat>, before: seq<TextNode>, text: string)
  {
    forall m :: m in gone <==> m in seen && MarkerText(before, m) == text
  }

  /** A marker not unwrapped yet still holds the text it held at the start. */
  lemma UnwrapTextFrame(nodes: seq<TextNode>, before: seq<TextNode>, gone: seq<nat>, marks: seq<nat>, t: nat, text: string)
    requires t < |marks|
    requires forall a, b :: 0 <= a < b < |marks| ==> marks[a] != marks[b]
    requires Unwrapped(nodes, before, gone)
    requires GoneByText(gone, marks[..t], before, text)
    ensures marks[t] !in gone
    ensures MarkerText(nodes, marks[t]) == MarkerText(before, marks[t])
  {
    var m := marks[t];
    assert m !in marks[..t];
    MarkerTextFrame(nodes, before, m);
  }

  lemma GoneStep(gone: seq<nat>, marks: seq<nat>, t: nat, before: seq<TextNode>, text: string)
    requires t < |marks|
    requires GoneByText(gone, marks[..t], before, text)
    ensures GoneByText(if MarkerText(before, marks[t]) == text then gone + [marks[t]] else gone, marks[..t + 1], before, text)
  {
    assert marks[..t + 1] == marks[..t] + [marks[t]];
  }

  lemma RemoveByTextDone(nodes: seq<TextNode>, before: seq<TextNode>, gone: seq<nat>, marks: seq<nat>, text: string)
    requires marks == MarkerIds(before)
    requires Unwrapped(nodes, before, gone)
    requires GoneByText(gone, marks[..|marks|], before, text)
    ensures |nodes| == |before|
    ensures forall p :: 0 <= p < |nodes| ==>
      nodes[p].text == before[p].text && nodes[p].parent == AfterRemoveByText(before, p, text)
  {
    assert marks[..|marks|] == marks;
    forall p | 0 <= p < |nodes|
      ensures nodes[p].parent == AfterRemoveByText(before, p, text)
    {
      if before[p].parent.Marker? {
        assert before[p].parent.id in marks;
      }
    }
  }

  lemma RemoveAllDone(nodes: seq<TextNode>, before: seq<TextNode>, marks: seq<nat>)
    requires marks == MarkerIds(before)
    requires Unwrapped(nodes, before, marks[..|marks|])
    ensures |nodes| == |before|
    ensures forall p :: 0 <= p < |nodes| ==>
      nodes[p].text == before[p].text &&
      nodes[p].parent == (if before[p].parent.Marker? then Plain else before[p].parent)
    ensures forall p :: 0 <= p < |nodes| ==> !nodes[p].parent.Marker?
  {
    assert marks[..|marks|] == marks;
    forall p | 0 <= p < |nodes| && before[p].parent.Marker?
      ensures before[p].parent.id in marks
    {
    }
  }

  /** A browser page: its text nodes in document order. */
  class Page {
    var nodes: seq<TextNode>
    /** The identity the next marker element gets. */
    var nextMarker: nat

    ghost predicate Valid()
      reads this
    {
      IdsBelow(nodes, nextMarker)
    }

    /** A freshly loaded page carries no marker. */
    constructor (content: seq<TextNode>)
      requires forall p :: 0 <= p < |content| ==> !content[p].parent.Marker?
      ensures Valid()
      ensures nodes == content
    {
      nodes := content;
      nextMarker := 0;
    }

    /** `highlightTextOnPage(searchText)`: finds every match of the snippet in
        the text of all nodes outside SCRIPT and STYLE, then wraps, from the
        last match to the first, each matched part of every node that is not
        already inside a marker. The page text is unchanged, and exactly the
        matched characters become marked; when all of them already were, the
        page is left as it was, so running it again adds nothing. A snippet
        with no visible character is ignored. */
    method Highlight(searchText: string)
      requires Valid()
      modifies this
      ensures Valid()
      ensures Buffer(nodes) == Buffer(old(nodes))
      ensures !HasVisible(searchText) ==> nodes == old(nodes)
      ensures HasVisible(searchText) ==>
        MarkedBy(Marks(old(nodes)), Marks(nodes), Found(searchText, Buffer(old(nodes))))
      ensures HasVisible(searchText) && AllCovered(Marks(old(nodes)), Found(searchText, Buffer(old(nodes)))) ==>
        nodes == old(nodes)
      ensures nextMarker >= old(nextMarker) && OthersKept(old(nodes), nodes, old(nextMarker))
    {
      if !HasVisible(searchText) {
        return;
      }
      var pattern := BuildPattern(searchText);
      AtomsHaveLiteral(searchText);
      var atoms := ParsePattern(pattern).value;
      var totalText, nodeMap := BuildMap(nodes);
      var matches := CollectMatches(atoms, totalText);
      assert matches == Found(searchText, Buffer(nodes));
      WrapAll(nodeMap, matches);
    }

    /** The `for` loop over the matches, from the last to the first. */
    method WrapAll(nodeMap: seq<NodeRecord>, matches: seq<Span>)
      requires Valid()
      requires Tiles(nodeMap, |Buffer(nodes)|) && Describes(nodeMap, nodes)
      requires Ordered(matches, 0, |Buffer(nodes)|)
      modifies this
      ensures Valid()
      ensures Buffer(nodes) == Buffer(old(nodes))
      ensures MarkedBy(Marks(old(nodes)), Marks(nodes), matches)
      ensures AllCovered(Marks(old(nodes)), matches) ==> nodes == old(nodes)
      ensures nextMarker >= old(nextMarker) && OthersKept(old(nodes), nodes, old(nextMarker))
    {
      ghost var orig := nodes;
      ghost var w, cut := |nodeMap|, 0;
      MarksLength(orig);
      var j := |matches|;
      while j > 0
        invariant 0 <= j <= |matches|
        invariant Valid()
        invariant Frontier(nodes, orig, nodeMap, w, cut)
        invariant w == |nodeMap| || (j < |matches| && matches[j].start <= cut)
        invariant Buffer(nodes) == Buffer(orig)
        invariant MarkedBy(Marks(orig), Marks(nodes), matches[j..])
        invariant AllCovered(Marks(orig), matches) ==> nodes == orig && w == |nodeMap|
        invariant nextMarker >= old(nextMarker) && OthersKept(orig, nodes, old(nextMarker))
      {
        j := j - 1;
        ghost var mid := Marks(nodes);
        ghost var prev, n1 := nodes, nextMarker;
        var m := matches[j];
        OrderedAt(matches, 0, |Buffer(orig)|, j);
        if AllCovered(Marks(orig), matches) {
          AllCoveredAt(Marks(orig), matches, j);
        }
        w, cut := WrapMatch(nodeMap, m.start, m.end, orig, w, cut);
        MarkedByStep(Marks(orig), mid, Marks(nodes), matches, j);
        KeptTrans(orig, prev, nodes, old(nextMarker), n1);
      }
      assert matches[j..] == matches;
    }

    /** One match, `matchStart` to `matchEnd`: looks up the first record
        ending after the start and the first ending at or after the end, and
        wraps, from the end record back to the start record, the part of each
        node the match covers, skipping nodes inside a marker and empty parts.
        The page text is unchanged, and exactly the offsets of the match become
        marked; when all of them already were, nothing changes. */
    method WrapMatch(recs: seq<NodeRecord>, matchStart: nat, matchEnd: nat, ghost orig: seq<TextNode>, ghost w0: int, ghost cut0: int)
      returns (ghost w: int, ghost cut: int)
      requires Valid()
      requires Tiles(recs, |Buffer(orig)|) && Describes(recs, orig)
      requires matchStart < matchEnd <= |Buffer(orig)|
      requires Buffer(nodes) == Buffer(orig)
      requires Frontier(nodes, orig, recs, w0, cut0)
      requires w0 == |recs| || matchEnd <= cut0
      modifies this
      ensures Valid()
      ensures Buffer(nodes) == Buffer(orig)
      ensures Frontier(nodes, orig, recs, w, cut)
      ensures w == |recs| || matchStart <= cut
      ensures MarksAdded(old(Marks(nodes)), Marks(nodes), matchStart, matchEnd)
      ensures AllMarkedIn(old(Marks(nodes)), matchStart, matchEnd) ==>
        nodes == old(nodes) && w == w0 && cut == cut0
      ensures nextMarker >= old(nextMarker) && OthersKept(old(nodes), nodes, old(nextMarker))
    {
      var ms, me := matchStart, matchEnd;
      ghost var m0 := Marks(nodes);
      ghost var nodes0 := nodes;
      ghost var allMarked := AllMarkedIn(m0, ms, me);
      WrapStart(nodes, orig, recs, w0, cut0, ms, me);
      var si := FirstEnd(recs, ms, false);
      var ei := FirstEnd(recs, me, true);
      w, cut := w0, cut0;
      ghost var lo := me;
      var i := ei;
      while i >= si
        invariant si - 1 <= i <= ei
        invariant Valid()
        invariant i <= w
        invariant i >= si ==> lo == Min(me, recs[i].end)
        invariant i == si - 1 ==> lo == ms
        invariant Progress(nodes, orig, recs, me, w, cut, lo, m0)
        invariant allMarked ==> nodes == nodes0 && w == w0 && cut == cut0
        invariant nextMarker >= old(nextMarker) && OthersKept(nodes0, nodes, old(nextMarker))
      {
        ghost var next := Max(ms, recs[i].start);
        ghost var prev, n1 := nodes, nextMarker;
        w, cut := WrapNode(recs, ms, me, si, ei, i, orig, w, cut, lo, m0);
        KeptTrans(nodes0, prev, nodes, old(nextMarker), n1);
        lo := next;
        i := i - 1;
      }
    }

    /** One turn of the `for` loop: the node of record `i`, unless it is inside
        a marker or its part of the match is empty, has that part wrapped. The
        match's offsets from this node's part on become marked. */
    method WrapNode(recs: seq<NodeRecord>, ms: nat, me: nat, si: int, ei: int, i: nat,
                    ghost orig: seq<TextNode>, ghost w0: int, ghost cut0: int, ghost lo: int, ghost m0: seq<bool>)
      returns (ghost w: int, ghost cut: int)
      requires Valid()
      requires Tiles(recs, |Buffer(orig)|) && Describes(recs, orig)
      requires ms < me <= |Buffer(orig)|
      requires si == FirstEnd(recs, ms, false) && ei == FirstEnd(recs, me, true)
      requires si <= i <= ei
      requires i <= w0 && lo == Min(me, recs[i].end)
      requires Progress(nodes, orig, recs, me, w0, cut0, lo, m0)
      requires AgreeBelow(m0, Marks(orig), me)
      modifies this
      ensures Valid()
      ensures i <= w
      ensures Progress(nodes, orig, recs, me, w, cut, Max(ms, recs[i].start), m0)
      ensures i > si ==> Max(ms, recs[i].start) == Min(me, recs[i - 1].end)
      ensures i == si ==> Max(ms, recs[i].start) == ms
      ensures AllMarkedIn(m0, ms, me) ==> nodes == old(nodes) && w == w0 && cut == cut0
      ensures nextMarker >= old(nextMarker) && OthersKept(old(nodes), nodes, old(nextMarker))
    {
      w, cut := w0, cut0;
      var rec := recs[i];
      NodeSlice(nodes, orig, recs, ms, me, i, w, cut, lo, m0);
      var node := nodes[rec.pos];
      if !node.parent.Marker? {
        var so := StartOffset(recs, si, ms, i);
        var eo := EndOffset(recs, ei, me, i, |node.text|);
        if so != eo {
          WrapPart(recs, ms, me, i, orig, w, cut, lo, m0, so, eo);
          w, cut := i, rec.start + so;
          return;
        }
      }
      SkipProgress(nodes, orig, recs, ms, me, i, w, cut, lo, m0);
    }

    /** `range.surroundContents(mark)` on the part `[so, eo)` of the node of
        record `i`, with a fresh marker. */
    method WrapPart(recs: seq<NodeRecord>, ms: nat, me: nat, i: nat, ghost orig: seq<TextNode>,
                    ghost w: int, ghost cut: int, ghost lo: int, ghost m0: seq<bool>, so: nat, eo: nat)
      requires Valid()
      requires Tiles(recs, |Buffer(orig)|) && Describes(recs, orig)
      requires ms < me <= |Buffer(orig)|
      requires FirstEnd(recs, ms, false) <= i <= FirstEnd(recs, me, true)
      requires i <= w && lo == Min(me, recs[i].end)
      requires Progress(nodes, orig, recs, me, w, cut, lo, m0)
      requires AgreeBelow(m0, Marks(orig), me)
      requires orig[recs[i].pos].parent == Plain
      requires recs[i].start + so == Max(ms, recs[i].start) && recs[i].start + eo == lo && so < eo
      modifies this
      ensures Valid()
      ensures Progress(nodes, orig, recs, me, i, recs[i].start + so, recs[i].start + so, m0)
      ensures !AllMarkedIn(m0, ms, me)
      ensures nextMarker == old(nextMarker) + 1
      ensures OthersKept(old(nodes), nodes, old(nextMarker))
      ensures recs[i].pos < |old(nodes)| && eo <= |old(nodes)[recs[i].pos].text| &&
        MarkerText(nodes, old(nextMarker)) == old(nodes)[recs[i].pos].text[so..eo]
    {
      WrapProgress(nodes, orig, recs, ms, me, i, w, cut, lo, m0, so, eo, nextMarker);
      NodePlain(nodes, orig, recs, w, cut, i);
      FreshMarkerText(nodes, recs[i].pos, so, eo, nextMarker);
      WrapKeepsOthers(nodes, recs[i].pos, so, eo, nextMarker);
      SplitIdsBelow(nodes, recs[i].pos, so, eo, nextMarker);
      nodes := Split(nodes, recs[i].pos, so, eo, nextMarker);
      nextMarker := nextMarker + 1;
    }

    /** The `while (mark.firstChild) parent.insertBefore(...)` loop and
        `parent.removeChild(mark)`: the nodes of marker `m` move out to the
        marker's parent; nothing else changes, and the page text stays. */
    method Unwrap(m: nat)
      requires Valid()
      modifies this
      ensures Valid() && nextMarker == old(nextMarker)
      ensures Hoisted(old(nodes), nodes, m)
      ensures Buffer(nodes) == Buffer(old(nodes))
    {
      ghost var before := nodes;
      var p := 0;
      while p < |nodes|
        invariant 0 <= p <= |nodes| == |before|
        invariant forall q :: 0 <= q < |nodes| ==> nodes[q] == if q < p then Hoist(before[q], m) else before[q]
        invariant Valid() && nextMarker == old(nextMarker)
      {
        nodes := nodes[p := Hoist(nodes[p], m)];
        p := p + 1;
      }
      SameTextSameBuffer(nodes, before);
    }

    /** `removeHighlightFromPage(text)`: every marker, taken from one
        `querySelectorAll` before any change, whose own text content is
        exactly `text` is unwrapped; other markers stay. The page text is
        unchanged. */
    method RemoveByText(text: string)
      requires Valid()
      modifies this
      ensures Valid()
      ensures |nodes| == |old(nodes)|
      ensures forall p :: 0 <= p < |nodes| ==>
        nodes[p].text == old(nodes)[p].text && nodes[p].parent == AfterRemoveByText(old(nodes), p, text)
      ensures Buffer(nodes) == Buffer(old(nodes))
      ensures nextMarker == old(nextMarker)
    {
      ghost var before := nodes;
      var marks := MarkerIds(nodes);
      ghost var gone: seq<nat> := [];
      var t := 0;
      while t < |marks|
        invariant 0 <= t <= |marks|
        invariant Valid() && nextMarker == old(nextMarker)
        invariant Unwrapped(nodes, before, gone)
        invariant GoneByText(gone, marks[..t], before, text)
      {
        var m := marks[t];
        ghost var prev := nodes;
        UnwrapTextFrame(nodes, before, gone, marks, t, text);
        GoneStep(gone, marks, t, before, text);
        if MarkerText(nodes, m) == text {
          Unwrap(m);
          UnwrapStep(prev, before, nodes, gone, m);
          gone := gone + [m];
        }
        t := t + 1;
      }
      RemoveByTextDone(nodes, before, gone, marks, text);
      SameTextSameBuffer(nodes, before);
    }

    /** `removeAllHighlightsFromPage()`: every marker is unwrapped. No
        character of the page is inside a marker afterwards, and the page text
        is unchanged. */
    method RemoveAll()
      requires Valid()
      modifies this
      ensures Valid()
      ensures |nodes| == |old(nodes)|
      ensures forall p :: 0 <= p < |nodes| ==>
        nodes[p].text == old(nodes)[p].text &&
        nodes[p].parent == (if old(nodes)[p].parent.Marker? then Plain else old(nodes)[p].parent)
      ensures Buffer(nodes) == Buffer(old(nodes))
      ensures forall k :: 0 <= k < |Marks(nodes)| ==> !Marks(nodes)[k]
      ensures nextMarker == old(nextMarker)
    {
      ghost var before := nodes;
      var marks := MarkerIds(nodes);
      var t := 0;
      while t < |marks|
        invariant 0 <= t <= |marks|
        invariant Valid() && nextMarker == old(nextMarker)
        invariant Unwrapped(nodes, before, marks[..t])
      {
        var m := marks[t];
        ghost var prev := nodes;
        Unwrap(m);
        UnwrapNext(prev, before, nodes, marks, t);
        t := t + 1;
      }
      RemoveAllDone(nodes, before, marks);
      SameTextSameBuffer(nodes, before);
      NoMarkerNoMarks(nodes);
    }

    /** `restoreHighlights()`: every stored highlight of the current page is
        highlighted again, in stored order. The page text is unchanged;
        afterwards every match of each of them is marked, and when that was
        already so before, the page is left as it was, so restoring a second
        time changes nothing. */
    method Restore(highlights: seq<Annotation>, currentUrl: string)
      requires Valid()
      modifies this
      ensures Valid()
      ensures Buffer(nodes) == Buffer(old(nodes))
      ensures AllShown(Marks(nodes), Buffer(nodes), ForUrl(highlights, currentUrl))
      ensures AllShown(Marks(old(nodes)), Buffer(old(nodes)), ForUrl(highlights, currentUrl)) ==> nodes == old(nodes)
      ensures ShownBy(Marks(old(nodes)), Marks(nodes), Buffer(old(nodes)), ForUrl(highlights, currentUrl))
      ensures nextMarker >= old(nextMarker) && OthersKept(old(nodes), nodes, old(nextMarker))
    {
      var pageHighlights := ForUrl(highlights, currentUrl);
      ghost var before := nodes;
      ghost var buf := Buffer(nodes);
      ghost var m0 := Marks(nodes);
      ghost var shown := AllShown(Marks(nodes), buf, pageHighlights);
      ShownNone(Marks(nodes), buf, pageHighlights);
      ShownByNone(m0, buf, pageHighlights);
      var t := 0;
      while t < |pageHighlights|
        invariant 0 <= t <= |pageHighlights|
        invariant Valid()
        invariant Buffer(nodes) == buf
        invariant AllShown(Marks(nodes), buf, pageHighlights[..t])
        invariant shown ==> nodes == before
        invariant ShownBy(m0, Marks(nodes), buf, pageHighlights[..t])
        invariant nextMarker >= old(nextMarker) && OthersKept(before, nodes, old(nextMarker))
      {
        ghost var prev, n1 := nodes, nextMarker;
        RestoreOne(buf, pageHighlights, t, before, shown, m0);
        KeptTrans(before, prev, nodes, old(nextMarker), n1);
        t := t + 1;
      }
      ShownAll(Marks(nodes), buf, pageHighlights, t);
      ShownByAll(m0, Marks(nodes), buf, pageHighlights, t);
    }

    /** One turn of `pageHighlights.forEach`. */
    method RestoreOne(ghost buf: string, list: seq<Annotation>, t: nat, ghost before: seq<TextNode>, ghost shown: bool,
                      ghost m0: seq<bool>)
      requires t < |list|
      requires Valid()
      requires Buffer(nodes) == buf
      requires AllShown(Marks(nodes), buf, list[..t])
      requires shown == AllShown(Marks(before), buf, list)
      requires shown ==> nodes == before
      requires ShownBy(m0, Marks(nodes), buf, list[..t])
      modifies this
      ensures Valid()
      ensures Buffer(nodes) == buf
      ensures AllShown(Marks(nodes), buf, list[..t + 1])
      ensures shown ==> nodes == before
      ensures ShownBy(m0, Marks(nodes), buf, list[..t + 1])
      ensures nextMarker >= old(nextMarker) && OthersKept(old(nodes), nodes, old(nextMarker))
    {
      ghost var mid := Marks(nodes);
      Highlight(list[t].text);
      ShownStep(mid, Marks(nodes), buf, list, t);
      ShownByStep(m0, mid, Marks(nodes), buf, list, t);
    }
  }
}
