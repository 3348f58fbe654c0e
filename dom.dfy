/** The page as the highlighter sees it: the text nodes under `document.body`
    in document order, each with the kind of its parent element. Everything
    here is about values; the page object that changes is in Highlighter. */
module Dom {
  import opened Base

  /** The parent element of a text node: an ordinary element, a SCRIPT or
      STYLE element (whose text is never searched), or a highlight marker
      (`mark.page-marker-highlight`) with an identity. */
  datatype Parent = Plain | Script | Marker(id: nat)

  datatype TextNode = TextNode(text: string, parent: Parent)

  /** The text a node contributes to the search buffer. */
  function Visible(n: TextNode): string
  {
    if n.parent == Script then [] else n.text
  }

  /** For each character a node contributes, whether it lies inside a marker. */
  function MarkBits(n: TextNode): (r: seq<bool>)
    ensures |r| == |Visible(n)|
    ensures forall k :: 0 <= k < |r| ==> r[k] == n.parent.Marker?
  {
    if n.parent == Script then [] else seq(|n.text|, _ => n.parent.Marker?)
  }

  /** The concatenated text of every searched node (`totalText`). */
  function Buffer(nodes: seq<TextNode>): string
  {
    if nodes == [] then [] else Visible(nodes[0]) + Buffer(nodes[1..])
  }

  /** For each character of the buffer, whether it lies inside a marker. */
  function Marks(nodes: seq<TextNode>): seq<bool>
  {
    if nodes == [] then [] else MarkBits(nodes[0]) + Marks(nodes[1..])
  }

  lemma {:induction false} BufferConcat(a: seq<TextNode>, b: seq<TextNode>)
    ensures Buffer(a + b) == Buffer(a) + Buffer(b)
    decreases |a|
  {
    if a == [] {
      assert a + b == b;
    } else {
      assert (a + b)[1..] == a[1..] + b;
      BufferConcat(a[1..], b);
    }
  }

  lemma {:induction false} MarksConcat(a: seq<TextNode>, b: seq<TextNode>)
    ensures Marks(a + b) == Marks(a) + Marks(b)
    decreases |a|
  {
    if a == [] {
      assert a + b == b;
    } else {
      assert (a + b)[1..] == a[1..] + b;
      MarksConcat(a[1..], b);
    }
  }

  /** One mark per buffer character. */
  lemma {:induction false} MarksLength(nodes: seq<TextNode>)
    ensures |Marks(nodes)| == |Buffer(nodes)|
    decreases |nodes|
  {
    if nodes != [] {
      MarksLength(nodes[1..]);
    }
  }

  /** The buffer and marks of a single node. */
  lemma Single(n: TextNode)
    ensures Buffer([n]) == Visible(n)
    ensures Marks([n]) == MarkBits(n)
  {
    assert [n][1..] == [];
  }

  /** The buffer of a page, around one of its nodes. */
  lemma BufferAround(pre: seq<TextNode>, n: TextNode, post: seq<TextNode>)
    ensures Buffer(pre + [n] + post) == Buffer(pre) + Visible(n) + Buffer(post)
  {
    BufferConcat(pre + [n], post);
    BufferConcat(pre, [n]);
    Single(n);
  }

  /** The marks of a page, around one of its nodes. */
  lemma MarksAround(pre: seq<TextNode>, n: TextNode, post: seq<TextNode>)
    ensures Marks(pre + [n] + post) == Marks(pre) + MarkBits(n) + Marks(post)
  {
    MarksConcat(pre + [n], post);
    MarksConcat(pre, [n]);
    Single(n);
  }

  /** A node-map entry (`{node, start, end}`): the node's position in the page
      and the offsets of its text in the buffer. */
  datatype NodeRecord = NodeRecord(pos: nat, start: nat, end: nat)

  /** The records tile `[0, total)`: the first starts at 0, each starts where the
      previous one ends, and the last ends at `total`. */
  predicate Tiles(recs: seq<NodeRecord>, total: nat)
  {
    && (|recs| == 0 ==> total == 0)
    && (|recs| > 0 ==> recs[0].start == 0 && recs[|recs| - 1].end == total)
    && (forall a :: 0 <= a < |recs| ==> recs[a].start <= recs[a].end)
    && (forall a :: 0 <= a < |recs| - 1 ==> recs[a].end == recs[a + 1].start)
  }

  /** Each record names a searched node and gives the offsets of its text in
      the buffer; positions increase. */
  predicate Describes(recs: seq<NodeRecord>, nodes: seq<TextNode>)
  {
    && (forall a :: 0 <= a < |recs| ==>
          && recs[a].pos < |nodes|
          && nodes[recs[a].pos].parent != Script
          && recs[a].start == |Buffer(nodes[..recs[a].pos])|
          && recs[a].end == recs[a].start + |nodes[recs[a].pos].text|)
    && (forall a, b :: 0 <= a < b < |recs| ==> recs[a].pos < recs[b].pos)
  }

  /** The node map the tree walk and `nodeList.forEach` build from the nodes
      before `p`: one record per node that is not SCRIPT or STYLE text, marker
      text included, in document order. */
  function Records(nodes: seq<TextNode>, p: nat): seq<NodeRecord>
    requires p <= |nodes|
  {
    if p == 0 then []
    else
      var n := nodes[p - 1];
      var start := |Buffer(nodes[..p - 1])|;
      Records(nodes, p - 1) + (if n.parent == Script then [] else [NodeRecord(p - 1, start, start + |n.text|)])
  }

  /** The text of the first `p + 1` nodes. */
  lemma BufferStep(nodes: seq<TextNode>, p: nat)
    requires p < |nodes|
    ensures Buffer(nodes[..p + 1]) == Buffer(nodes[..p]) + Visible(nodes[p])
  {
    assert nodes[..p + 1] == nodes[..p] + [nodes[p]];
    BufferConcat(nodes[..p], [nodes[p]]);
    Single(nodes[p]);
  }

  /** One step of the node map: the record of node `p - 1`, if it has one. */
  lemma RecordsStep(nodes: seq<TextNode>, p: nat)
    requires 0 < p <= |nodes|
    ensures var n := nodes[p - 1];
      var start := |Buffer(nodes[..p - 1])|;
      Records(nodes, p) == Records(nodes, p - 1) + (if n.parent == Script then [] else [NodeRecord(p - 1, start, start + |n.text|)])
  {
  }

  /** A record that starts where a tiling ends extends it. */
  lemma TilesExtend(recs: seq<NodeRecord>, total: nat, r: NodeRecord)
    requires Tiles(recs, total)
    requires r.start == total <= r.end
    ensures Tiles(recs + [r], r.end)
  {
    var t := recs + [r];
    forall a | 0 <= a < |t| - 1
      ensures t[a].end == t[a + 1].start
    {
      assert t[a] == recs[a];
      if a + 1 < |recs| {
        assert t[a + 1] == recs[a + 1];
      }
    }
    forall a | 0 <= a < |t|
      ensures t[a].start <= t[a].end
    {
      if a < |recs| {
        assert t[a] == recs[a];
      }
    }
    if recs != [] {
      assert t[0] == recs[0];
    }
  }

  /** A SCRIPT or STYLE node adds neither text nor a record. */
  lemma TileSkip(nodes: seq<TextNode>, p: nat)
    requires 0 < p <= |nodes| && nodes[p - 1].parent == Script
    requires Tiles(Records(nodes, p - 1), |Buffer(nodes[..p - 1])|)
    ensures Tiles(Records(nodes, p), |Buffer(nodes[..p])|)
  {
    BufferStep(nodes, p - 1);
    assert Records(nodes, p) == Records(nodes, p - 1) + [];
  }

  /** Any other node adds its text and a record for it. */
  lemma TileAdd(nodes: seq<TextNode>, p: nat)
    requires 0 < p <= |nodes| && nodes[p - 1].parent != Script
    requires Tiles(Records(nodes, p - 1), |Buffer(nodes[..p - 1])|)
    ensures Tiles(Records(nodes, p), |Buffer(nodes[..p])|)
  {
    BufferStep(nodes, p - 1);
    var start := |Buffer(nodes[..p - 1])|;
    var r := NodeRecord(p - 1, start, start + |nodes[p - 1].text|);
    assert Records(nodes, p) == Records(nodes, p - 1) + [r];
    TilesExtend(Records(nodes, p - 1), start, r);
  }

  /** The node map tiles the text of the nodes it was built from. */
  lemma {:induction false} RecordsTile(nodes: seq<TextNode>, p: nat)
    requires p <= |nodes|
    ensures Tiles(Records(nodes, p), |Buffer(nodes[..p])|)
    decreases p
  {
    if p == 0 {
      assert nodes[..0] == [];
    } else {
      RecordsTile(nodes, p - 1);
      if nodes[p - 1].parent == Script {
        TileSkip(nodes, p);
      } else {
        TileAdd(nodes, p);
      }
    }
  }

  /** The node map describes the nodes it was built from, in order. */
  lemma {:induction false} RecordsDescribe(nodes: seq<TextNode>, p: nat)
    requires p <= |nodes|
    ensures Describes(Records(nodes, p), nodes)
    ensures forall a :: 0 <= a < |Records(nodes, p)| ==> Records(nodes, p)[a].pos < p
    decreases p
  {
    if p > 0 {
      RecordsDescribe(nodes, p - 1);
      RecordsStep(nodes, p);
      var recs := Records(nodes, p - 1);
      var recs' := Records(nodes, p);
      if nodes[p - 1].parent != Script {
        forall a, b | 0 <= a < b < |recs'|
          ensures recs'[a].pos < recs'[b].pos
        {
          assert recs'[a] == recs[a];
        }
        forall a | 0 <= a < |recs'|
          ensures recs'[a].pos < p
        {
          if a < |recs| {
            assert recs'[a] == recs[a];
          }
        }
      }
    }
  }

  /** Every node that is not SCRIPT or STYLE text, marker text included, has a
      record in the node map. */
  lemma {:induction false} RecordsCover(nodes: seq<TextNode>, p: nat, q: nat)
    requires q < p <= |nodes|
    requires nodes[q].parent != Script
    ensures exists a :: 0 <= a < |Records(nodes, p)| && Records(nodes, p)[a].pos == q
    decreases p
  {
    var recs := Records(nodes, p - 1);
    if q < p - 1 {
      RecordsCover(nodes, p - 1, q);
      var a :| 0 <= a < |recs| && recs[a].pos == q;
      assert Records(nodes, p)[a] == recs[a];
    } else {
      assert Records(nodes, p)[|recs|].pos == q;
    }
  }

  /** The tree walk and the `nodeList.forEach` that build `totalText` and
      `nodeMap`. */
  method BuildMap(nodes: seq<TextNode>) returns (totalText: string, nodeMap: seq<NodeRecord>)
    ensures totalText == Buffer(nodes)
    ensures nodeMap == Records(nodes, |nodes|)
    ensures Tiles(nodeMap, |totalText|) && Describes(nodeMap, nodes)
  {
    totalText, nodeMap := "", [];
    var p := 0;
    while p < |nodes|
      invariant 0 <= p <= |nodes|
      invariant totalText == Buffer(nodes[..p])
      invariant nodeMap == Records(nodes, p)
    {
      var node := nodes[p];
      BufferStep(nodes, p);
      if node.parent != Script {
        var start := |totalText|;
        totalText := totalText + node.text;
        nodeMap := nodeMap + [NodeRecord(p, start, |totalText|)];
      }
      p := p + 1;
    }
    assert nodes[..p] == nodes;
    RecordsTile(nodes, p);
    RecordsDescribe(nodes, p);
  }

  /** Records in order: each ends no later than any later one starts. */
  lemma {:induction false} TileOrder(recs: seq<NodeRecord>, total: nat, a: nat, b: nat)
    requires Tiles(recs, total)
    requires a < b < |recs|
    ensures recs[a].end <= recs[b].start
    decreases b - a
  {
    if a + 1 < b {
      TileOrder(recs, total, a + 1, b);
    }
  }

  /** The characters a node contributes sit at its offset in the buffer. */
  lemma NodeContents(nodes: seq<TextNode>, p: nat)
    requires p < |nodes|
    ensures |Buffer(nodes[..p])| + |Visible(nodes[p])| <= |Buffer(nodes)| == |Marks(nodes)|
    ensures var o := |Buffer(nodes[..p])|;
      && Buffer(nodes)[o..o + |Visible(nodes[p])|] == Visible(nodes[p])
      && forall k :: o <= k < o + |Visible(nodes[p])| ==> Marks(nodes)[k] == nodes[p].parent.Marker?
  {
    var pre, n, post := nodes[..p], nodes[p], nodes[p + 1..];
    assert nodes == pre + [n] + post;
    BufferAround(pre, n, post);
    MarksAround(pre, n, post);
    MarksLength(nodes);
    MarksLength(pre);
    var o := |Buffer(pre)|;
    forall k | o <= k < o + |Visible(n)|
      ensures Marks(nodes)[k] == n.parent.Marker?
    {
      assert Marks(nodes)[k] == MarkBits(n)[k - o];
    }
  }

  /** A record's slice of the buffer is its node's text, and its characters
      lie inside a marker exactly when the node does. */
  lemma RecordContents(recs: seq<NodeRecord>, nodes: seq<TextNode>, a: nat)
    requires Describes(recs, nodes)
    requires a < |recs|
    ensures recs[a].end <= |Buffer(nodes)| == |Marks(nodes)|
    ensures Buffer(nodes)[recs[a].start..recs[a].end] == nodes[recs[a].pos].text
    ensures forall k :: recs[a].start <= k < recs[a].end ==> Marks(nodes)[k] == nodes[recs[a].pos].parent.Marker?
  {
    NodeContents(nodes, recs[a].pos);
  }

  /** `nodeMap.findIndex(n => n.end > bound)` (or `>=` when `inclusive`); -1
      when no record qualifies. */
  function FirstEnd(recs: seq<NodeRecord>, bound: nat, inclusive: bool): (r: int)
    ensures -1 <= r < |recs|
    ensures r >= 0 ==> (if inclusive then recs[r].end >= bound else recs[r].end > bound)
    ensures forall a :: 0 <= a < |recs| && (r == -1 || a < r) ==>
      (if inclusive then recs[a].end < bound else recs[a].end <= bound)
  {
    if recs == [] then -1
    else if (if inclusive then recs[0].end >= bound else recs[0].end > bound) then 0
    else
      var r := FirstEnd(recs[1..], bound, inclusive);
      if r == -1 then -1 else r + 1
  }

  /** For a non-empty span inside the buffer both lookups succeed, and the
      start record comes no later than the end record. */
  lemma LookupsSucceed(recs: seq<NodeRecord>, total: nat, ms: nat, me: nat)
    requires Tiles(recs, total)
    requires ms < me <= total
    ensures 0 <= FirstEnd(recs, ms, false) <= FirstEnd(recs, me, true)
  {
    assert recs[|recs| - 1].end == total;
  }

  /** `startOffset`: where in the node of record `i` the wrapped part starts,
      for the start record `si` of a match starting at `ms`. */
  function StartOffset(recs: seq<NodeRecord>, si: int, ms: nat, i: nat): int
    requires i < |recs|
  {
    if i == si then ms - recs[i].start else 0
  }

  /** `endOffset`: where it ends, for the end record `ei` of a match ending at
      `me` and a node currently `len` characters long. */
  function EndOffset(recs: seq<NodeRecord>, ei: int, me: nat, i: nat, len: nat): int
    requires i < |recs|
  {
    if i == ei then me - recs[i].start else len
  }

  function Min(x: int, y: int): int { if x < y then x else y }
  function Max(x: int, y: int): int { if x < y then y else x }

  /** Every slice the wrap loop computes is the part of the node the span
      covers: `0 <= startOffset <= endOffset <= length`, and in buffer terms
      `[max(ms, start), min(me, end))`. The node may already have lost its tail
      to a later match, as long as it still holds the span's part
      (`min(me, end) <= start + len <= end`). Record `i` ends after `ms`, and
      consecutive records' parts are adjacent: the part of `i` starts where the
      part of `i - 1` ends, and the parts of the start and end records reach
      `ms` and `me`. */
  lemma SliceIsOverlap(recs: seq<NodeRecord>, total: nat, ms: nat, me: nat, i: nat, len: nat)
    requires Tiles(recs, total)
    requires ms < me <= total
    requires FirstEnd(recs, ms, false) <= i <= FirstEnd(recs, me, true)
    requires Min(me, recs[i].end) <= recs[i].start + len <= recs[i].end
    ensures var so := StartOffset(recs, FirstEnd(recs, ms, false), ms, i);
      var eo := EndOffset(recs, FirstEnd(recs, me, true), me, i, len);
      && 0 <= so <= eo <= len
      && recs[i].start + so == Max(ms, recs[i].start)
      && recs[i].start + eo == Min(me, recs[i].end)
    ensures ms < recs[i].end
    ensures i == FirstEnd(recs, ms, false) ==> Max(ms, recs[i].start) == ms
    ensures i > FirstEnd(recs, ms, false) ==> Max(ms, recs[i].start) == Min(me, recs[i - 1].end)
    ensures i == FirstEnd(recs, me, true) ==> Min(me, recs[i].end) == me
  {
    var si, ei := FirstEnd(recs, ms, false), FirstEnd(recs, me, true);
    LookupsSucceed(recs, total, ms, me);
    if i > 0 {
      assert recs[i].start == recs[i - 1].end;
    }
    if si < i {
      assert recs[si].end <= recs[i - 1].end by {
        if si < i - 1 { TileOrder(recs, total, si, i - 1); }
      }
    }
    if i < ei {
      assert recs[i].end <= recs[ei].start by { TileOrder(recs, total, i, ei); }
    }
    assert recs[si].end <= recs[i].end by {
      if si < i { TileOrder(recs, total, si, i); }
    }
  }

  /** What `range.surroundContents(mark)` does to a range `[a, b)` inside one
      text node: the node keeps `[0, a)`, a new marker `m` holds a new node with
      `[a, b)`, and a new node after it holds the rest. */
  function Split(nodes: seq<TextNode>, pos: nat, a: nat, b: nat, m: nat): (r: seq<TextNode>)
    requires pos < |nodes|
    requires a <= b <= |nodes[pos].text|
    ensures |r| == |nodes| + 2
    ensures r[..pos] == nodes[..pos]
    ensures r[pos] == TextNode(nodes[pos].text[..a], nodes[pos].parent)
  {
    nodes[..pos] + Pieces(nodes[pos], a, b, m) + nodes[pos + 1..]
  }

  /** The three nodes a wrapped text node becomes. */
  function Pieces(n: TextNode, a: nat, b: nat, m: nat): seq<TextNode>
    requires a <= b <= |n.text|
  {
    [TextNode(n.text[..a], n.parent), TextNode(n.text[a..b], Marker(m)), TextNode(n.text[b..], n.parent)]
  }

  /** `marks` is `before` with exactly the positions in `[lo, hi)` added. */
  predicate MarksAdded(before: seq<bool>, marks: seq<bool>, lo: int, hi: int)
  {
    && |marks| == |before|
    && forall k :: 0 <= k < |before| ==> marks[k] == (before[k] || lo <= k < hi)
  }

  /** Marks added inside a part are added, shifted, inside the whole. */
  lemma MarksAddedFrame(pre: seq<bool>, x: seq<bool>, y: seq<bool>, post: seq<bool>, lo: int, hi: int)
    requires MarksAdded(x, y, lo, hi)
    requires 0 <= lo && hi <= |x|
    ensures MarksAdded(pre + x + post, pre + y + post, |pre| + lo, |pre| + hi)
  {
    var before, marks := pre + x + post, pre + y + post;
    forall k | 0 <= k < |before|
      ensures marks[k] == (before[k] || |pre| + lo <= k < |pre| + hi)
    {
      if k < |pre| {
        assert marks[k] == pre[k] == before[k];
      } else if k < |pre| + |x| {
        assert marks[k] == y[k - |pre|] && before[k] == x[k - |pre|];
      } else {
        assert marks[k] == post[k - |pre| - |x|] == before[k];
      }
    }
  }

  /** The pieces carry the node's text, and only the middle one is marked. */
  lemma PiecesKeepText(n: TextNode, a: nat, b: nat, m: nat)
    requires a <= b <= |n.text|
    requires n.parent == Plain
    ensures Buffer(Pieces(n, a, b, m)) == Buffer([n])
    ensures MarksAdded(Marks([n]), Marks(Pieces(n, a, b, m)), a, b)
  {
    var s := Pieces(n, a, b, m);
    assert s[1..][1..][1..] == [];
    assert [n][1..] == [];
    assert Buffer(s[1..][1..]) == n.text[b..];
    assert Buffer(s[1..]) == n.text[a..b] + n.text[b..];
    assert Buffer(s) == n.text[..a] + (n.text[a..b] + n.text[b..]);
    assert n.text[..a] + (n.text[a..b] + n.text[b..]) == n.text;
    var x, y, z := MarkBits(s[0]), MarkBits(s[1]), MarkBits(s[2]);
    assert Marks(s[1..][1..]) == z;
    assert Marks(s[1..]) == y + z;
    assert Marks(s) == x + (y + z);
    assert Marks([n]) == MarkBits(n);
    forall k | 0 <= k < |n.text|
      ensures Marks(s)[k] == (MarkBits(n)[k] || a <= k < b)
    {
      if k < a {
        assert Marks(s)[k] == x[k];
      } else if k < b {
        assert Marks(s)[k] == y[k - a];
      } else {
        assert Marks(s)[k] == z[k - b];
      }
    }
  }

  /** Wrapping a slice of an unmarked node leaves the buffer as it was and puts
      exactly the slice's characters inside a marker. */
  lemma SplitKeepsText(nodes: seq<TextNode>, pos: nat, a: nat, b: nat, m: nat)
    requires pos < |nodes|
    requires a <= b <= |nodes[pos].text|
    requires nodes[pos].parent == Plain
    ensures Buffer(Split(nodes, pos, a, b, m)) == Buffer(nodes)
    ensures MarksAdded(Marks(nodes), Marks(Split(nodes, pos, a, b, m)),
                       |Buffer(nodes[..pos])| + a, |Buffer(nodes[..pos])| + b)
  {
    var n := nodes[pos];
    var pre, post := nodes[..pos], nodes[pos + 1..];
    var x := Pieces(n, a, b, m);
    assert nodes == pre + [n] + post;
    PiecesKeepText(n, a, b, m);
    BufferConcat(pre + [n], post);
    BufferConcat(pre, [n]);
    BufferConcat(pre + x, post);
    BufferConcat(pre, x);
    MarksConcat(pre + [n], post);
    MarksConcat(pre, [n]);
    MarksConcat(pre + x, post);
    MarksConcat(pre, x);
    MarksLength(pre);
    MarksAddedFrame(Marks(pre), Marks([n]), Marks(x), Marks(post), a, b);
  }

  /** Hoisting the children of marker `m`: a node it held now sits in the
      marker's place, under an ordinary element. */
  function Hoist(n: TextNode, m: nat): TextNode
  {
    if n.parent == Marker(m) then n.(parent := Plain) else n
  }

  /** The text of the nodes whose parent is `q`, in document order: for a
      marker its `textContent`, for SCRIPT and STYLE the text no search sees. */
  function TextUnder(nodes: seq<TextNode>, q: Parent): (r: string)
    ensures (forall p :: 0 <= p < |nodes| ==> nodes[p].parent != q) ==> r == []
    decreases |nodes|
  {
    if nodes == [] then []
    else (if nodes[0].parent == q then nodes[0].text else []) + TextUnder(nodes[1..], q)
  }

  /** `mark.textContent`: the text of the nodes marker `m` holds, in order. */
  function MarkerText(nodes: seq<TextNode>, m: nat): string
  {
    TextUnder(nodes, Marker(m))
  }

  lemma {:induction false} TextUnderConcat(a: seq<TextNode>, b: seq<TextNode>, q: Parent)
    ensures TextUnder(a + b, q) == TextUnder(a, q) + TextUnder(b, q)
    decreases |a|
  {
    if a == [] {
      assert a + b == b;
    } else {
      assert (a + b)[1..] == a[1..] + b;
      TextUnderConcat(a[1..], b, q);
    }
  }

  /** The text under `q` of a page cut at `pos` around the node there. */
  lemma TextUnderAround(pre: seq<TextNode>, mid: seq<TextNode>, post: seq<TextNode>, q: Parent)
    ensures TextUnder(pre + mid + post, q) == TextUnder(pre, q) + TextUnder(mid, q) + TextUnder(post, q)
  {
    TextUnderConcat(pre + mid, post, q);
    TextUnderConcat(pre, mid, q);
  }

  /** Wrapping part of an ordinary node with marker `m` leaves the text under
      every other parent but the ordinary one as it was. */
  lemma SplitTextUnder(nodes: seq<TextNode>, pos: nat, a: nat, b: nat, m: nat, q: Parent)
    requires pos < |nodes|
    requires a <= b <= |nodes[pos].text|
    requires nodes[pos].parent == Plain && q != Plain && q != Marker(m)
    ensures TextUnder(Split(nodes, pos, a, b, m), q) == TextUnder(nodes, q)
  {
    var n := nodes[pos];
    var pre, post := nodes[..pos], nodes[pos + 1..];
    var x := Pieces(n, a, b, m);
    assert nodes == pre + [n] + post;
    TextUnderAround(pre, [n], post, q);
    TextUnderAround(pre, x, post, q);
    assert forall p :: 0 <= p < |x| ==> x[p].parent != q;
  }

  /** When no node was under `m` before, marker `m` wrapped around `[a, b)` of
      an ordinary node holds exactly that part of its text. */
  lemma SplitNewMarker(nodes: seq<TextNode>, pos: nat, a: nat, b: nat, m: nat)
    requires pos < |nodes|
    requires a <= b <= |nodes[pos].text|
    requires nodes[pos].parent == Plain
    requires forall p :: 0 <= p < |nodes| ==> nodes[p].parent != Marker(m)
    ensures TextUnder(Split(nodes, pos, a, b, m), Marker(m)) == nodes[pos].text[a..b]
  {
    var n := nodes[pos];
    var pre, post := nodes[..pos], nodes[pos + 1..];
    var x := Pieces(n, a, b, m);
    TextUnderAround(pre, x, post, Marker(m));
    assert forall p :: 0 <= p < |pre| ==> pre[p] == nodes[p];
    assert forall p :: 0 <= p < |post| ==> post[p] == nodes[pos + 1 + p];
    assert x == [x[0]] + [x[1]] + [x[2]];
    TextUnderAround([x[0]], [x[1]], [x[2]], Marker(m));
    assert TextUnder([x[1]], Marker(m)) == x[1].text + TextUnder([x[1]][1..], Marker(m));
  }

  /** `document.querySelectorAll('.page-marker-highlight')`: every marker, once,
      in document order. */
  function MarkerIds(nodes: seq<TextNode>): (r: seq<nat>)
    ensures forall t, u :: 0 <= t < u < |r| ==> r[t] != r[u]
    ensures forall m :: m in r <==> exists p :: 0 <= p < |nodes| && nodes[p].parent == Marker(m)
  {
    if nodes == [] then []
    else
      var rest := MarkerIds(nodes[..|nodes| - 1]);
      var last := nodes[|nodes| - 1];
      assert forall p :: 0 <= p < |nodes| - 1 ==> nodes[..|nodes| - 1][p] == nodes[p];
      if last.parent.Marker? && last.parent.id !in rest then rest + [last.parent.id] else rest
  }

  /** Marker `m`'s text depends only on the nodes it holds. */
  lemma {:induction false} MarkerTextFrame(a: seq<TextNode>, b: seq<TextNode>, m: nat)
    requires |a| == |b|
    requires forall p :: 0 <= p < |a| ==> (a[p].parent == Marker(m) <==> b[p].parent == Marker(m))
    requires forall p :: 0 <= p < |a| && a[p].parent == Marker(m) ==> a[p].text == b[p].text
    ensures MarkerText(a, m) == MarkerText(b, m)
    decreases |a|
  {
    if a != [] {
      MarkerTextFrame(a[1..], b[1..], m);
    }
  }

  /** Pages with the same texts and the same SCRIPT/STYLE nodes have the same buffer. */
  lemma {:induction false} SameTextSameBuffer(a: seq<TextNode>, b: seq<TextNode>)
    requires |a| == |b|
    requires forall p :: 0 <= p < |a| ==> a[p].text == b[p].text && (a[p].parent == Script <==> b[p].parent == Script)
    ensures Buffer(a) == Buffer(b)
    decreases |a|
  {
    if a != [] {
      SameTextSameBuffer(a[1..], b[1..]);
    }
  }

  /** A page with no marker has no marked character. */
  lemma {:induction false} NoMarkerNoMarks(nodes: seq<TextNode>)
    requires forall p :: 0 <= p < |nodes| ==> !nodes[p].parent.Marker?
    ensures forall k :: 0 <= k < |Marks(nodes)| ==> !Marks(nodes)[k]
    decreases |nodes|
  {
    if nodes != [] {
      NoMarkerNoMarks(nodes[1..]);
      var h := MarkBits(nodes[0]);
      forall k | 0 <= k < |Marks(nodes)| ensures !Marks(nodes)[k] {
        if k >= |h| {
          assert Marks(nodes)[k] == Marks(nodes[1..])[k - |h|];
        }
      }
    }
  }
}
