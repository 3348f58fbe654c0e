/** The global, case-insensitive scan of the concatenated page text
    (content.js, highlightTextOnPage, the `regex.exec` loop). A pattern is a
    sequence of atoms; Matches says which strings it denotes, MatchAt is the
    deterministic greedy matcher, and AllSpans the leftmost non-overlapping
    matches a global scan reports. */
module Matcher {
  import opened Base
  import opened Pattern

  /** The strings the pattern denotes: a literal matches one character equal up
      to case, `\s*` any run of whitespace, including the empty run. */
  ghost predicate Matches(atoms: seq<Atom>, t: string)
    decreases |atoms|
  {
    if atoms == [] then t == []
    else match atoms[0]
      case Lit(c) => |t| > 0 && Fold(t[0]) == Fold(c) && Matches(atoms[1..], t[1..])
      case AnySpaces => exists k :: 0 <= k <= |t| && AllSpaces(t[..k]) && Matches(atoms[1..], t[k..])
  }

  /** The end of the whitespace run that starts at `i`. */
  function SkipSpaces(buf: string, i: nat): (j: nat)
    requires i <= |buf|
    ensures i <= j <= |buf|
    ensures forall k :: i <= k < j ==> IsSpace(buf[k])
    ensures j == |buf| || !IsSpace(buf[j])
    decreases |buf| - i
  {
    if i < |buf| && IsSpace(buf[i]) then SkipSpaces(buf, i + 1) else i
  }

  /** The end of the match of `atoms` that starts at `i`, each `\s*` taking as
      much whitespace as there is; None when there is no match at `i`. */
  function MatchAt(atoms: seq<Atom>, buf: string, i: nat): (r: Option<nat>)
    requires i <= |buf|
    ensures r.Some? ==> i <= r.value <= |buf|
    ensures r.Some? && HasLiteral(atoms) ==> i < r.value
    decreases |atoms|
  {
    if atoms == [] then Some(i)
    else match atoms[0]
      case Lit(c) =>
        if i < |buf| && Fold(buf[i]) == Fold(c) then MatchAt(atoms[1..], buf, i + 1) else None
      case AnySpaces =>
        var r := MatchAt(atoms[1..], buf, SkipSpaces(buf, i));
        assert HasLiteral(atoms) ==> HasLiteral(atoms[1..]) by {
          if HasLiteral(atoms) {
            var k :| 0 <= k < |atoms| && atoms[k].Lit?;
            assert atoms[1..][k - 1].Lit?;
          }
        }
        r
  }

  /** Whatever the greedy matcher reports is a match of the pattern. */
  lemma {:induction false} MatchAtSound(atoms: seq<Atom>, buf: string, i: nat)
    requires i <= |buf|
    requires MatchAt(atoms, buf, i).Some?
    ensures Matches(atoms, buf[i..MatchAt(atoms, buf, i).value])
    decreases |atoms|
  {
    var e := MatchAt(atoms, buf, i).value;
    var t := buf[i..e];
    if atoms != [] {
      match atoms[0]
      case Lit(c) =>
        MatchAtSound(atoms[1..], buf, i + 1);
        assert t[1..] == buf[i + 1..e];
      case AnySpaces =>
        var j := SkipSpaces(buf, i);
        MatchAtSound(atoms[1..], buf, j);
        var k := j - i;
        assert t[..k] == buf[i..j];
        assert t[k..] == buf[j..e];
        assert AllSpaces(t[..k]);
    }
  }

  /** A `\s*` that matched the first `k` characters of `buf[i..e]`: the greedy
      run from `i` reaches at least `i + k`, and exactly `i + k` when a literal
      follows, since a literal is never whitespace. */
  lemma SpacesPrefix(atoms: seq<Atom>, buf: string, i: nat, e: nat, k: nat)
    requires WellFormed(atoms) && atoms != [] && atoms[0] == AnySpaces
    requires i <= e <= |buf| && k <= e - i
    requires AllSpaces(buf[i..e][..k]) && Matches(atoms[1..], buf[i..e][k..])
    ensures buf[i..e][k..] == buf[i + k..e]
    ensures SkipSpaces(buf, i) >= i + k
    ensures atoms[1..] == [] ==> e == i + k
    ensures atoms[1..] != [] ==> SkipSpaces(buf, i) == i + k
  {
    var t := buf[i..e];
    var j := SkipSpaces(buf, i);
    assert forall x :: i <= x < i + k ==> IsSpace(buf[x]) by {
      forall x | i <= x < i + k ensures IsSpace(buf[x]) {
        assert buf[x] == t[..k][x - i];
      }
    }
    assert t[k..] == buf[i + k..e];
    if atoms[1..] != [] {
      assert atoms[1].Lit?;
      assert !IsSpace(atoms[1].c);
      assert |t[k..]| > 0 && Fold(t[k..][0]) == Fold(atoms[1].c);
      assert buf[i + k] == t[k..][0];
      assert !IsSpace(buf[i + k]);
    }
  }

  /** For a well-formed pattern the greedy matcher misses nothing: whenever
      some match starts at `i`, the greedy matcher finds one, and one that is
      at least as long. So it reports what a backtracking engine reports. */
  lemma {:induction false} MatchAtComplete(atoms: seq<Atom>, buf: string, i: nat, e: nat)
    requires WellFormed(atoms)
    requires i <= e <= |buf|
    requires Matches(atoms, buf[i..e])
    ensures MatchAt(atoms, buf, i).Some? && MatchAt(atoms, buf, i).value >= e
    decreases |atoms|
  {
    var t := buf[i..e];
    if atoms != [] {
      assert WellFormed(atoms[1..]);
      match atoms[0]
      case Lit(c) =>
        assert t[1..] == buf[i + 1..e];
        MatchAtComplete(atoms[1..], buf, i + 1, e);
      case AnySpaces =>
        var k :| 0 <= k <= |t| && AllSpaces(t[..k]) && Matches(atoms[1..], t[k..]);
        SpacesPrefix(atoms, buf, i, e, k);
        if atoms[1..] != [] {
          MatchAtComplete(atoms[1..], buf, i + k, e);
        }
    }
  }

  /** A match reported to the page: offsets `[start, end)` in the buffer. */
  datatype Span = Span(start: nat, end: nat)

  /** One `regex.exec` from `lastIndex == from`: the first position at or after
      `from` where the pattern matches. */
  function FindFrom(atoms: seq<Atom>, buf: string, from: nat): (r: Option<Span>)
    requires from <= |buf|
    ensures r.Some? ==> from <= r.value.start <= |buf| && MatchAt(atoms, buf, r.value.start) == Some(r.value.end)
    ensures r.Some? ==> forall p :: from <= p < r.value.start ==> MatchAt(atoms, buf, p).None?
    ensures r.None? ==> forall p :: from <= p <= |buf| ==> MatchAt(atoms, buf, p).None?
    decreases |buf| - from
  {
    match MatchAt(atoms, buf, from)
    case Some(e) => Some(Span(from, e))
    case None => if from == |buf| then None else FindFrom(atoms, buf, from + 1)
  }

  /** Spans lie in `[lo, hi]`, are non-empty, and each ends at or before the
      next one starts. */
  predicate Ordered(spans: seq<Span>, lo: nat, hi: nat)
  {
    && (forall t :: 0 <= t < |spans| ==> lo <= spans[t].start < spans[t].end <= hi)
    && (forall t, u :: 0 <= t < u < |spans| ==> spans[t].end <= spans[u].start)
  }

  /** One span of an ordered list, and its neighbour. */
  lemma OrderedAt(spans: seq<Span>, lo: nat, hi: nat, j: nat)
    requires Ordered(spans, lo, hi) && j < |spans|
    ensures lo <= spans[j].start < spans[j].end <= hi
    ensures j + 1 < |spans| ==> spans[j].end <= spans[j + 1].start
  {
  }

  /** Every match the global scan reports, starting from `lastIndex == from`. */
  function AllSpans(atoms: seq<Atom>, buf: string, from: nat): (r: seq<Span>)
    requires HasLiteral(atoms)
    requires from <= |buf|
    ensures Ordered(r, from, |buf|)
    decreases |buf| - from
  {
    match FindFrom(atoms, buf, from)
    case None => []
    case Some(s) =>
      var rest := AllSpans(atoms, buf, s.end);
      assert forall u :: 0 <= u < |rest| ==> s.end <= rest[u].start;
      [s] + rest
  }

  /** Every reported span is a match of the pattern, found by the leftmost
      search: no match starts between the end of the previous span (or `from`)
      and the start of the next one. */
  lemma {:induction false} AllSpansAreLeftmostMatches(atoms: seq<Atom>, buf: string, from: nat)
    requires HasLiteral(atoms)
    requires from <= |buf|
    ensures forall t :: 0 <= t < |AllSpans(atoms, buf, from)| ==>
      var s := AllSpans(atoms, buf, from)[t];
      s.end <= |buf| && Matches(atoms, buf[s.start..s.end])
    ensures |AllSpans(atoms, buf, from)| > 0 ==>
      forall p :: from <= p < AllSpans(atoms, buf, from)[0].start ==> MatchAt(atoms, buf, p).None?
    ensures forall t :: 0 <= t < |AllSpans(atoms, buf, from)| - 1 ==>
      var spans := AllSpans(atoms, buf, from);
      forall p :: spans[t].end <= p < spans[t + 1].start ==> MatchAt(atoms, buf, p).None?
    decreases |buf| - from
  {
    match FindFrom(atoms, buf, from)
    case None =>
    case Some(s) =>
      var spans := AllSpans(atoms, buf, from);
      var rest := AllSpans(atoms, buf, s.end);
      assert spans == [s] + rest;
      AllSpansAreLeftmostMatches(atoms, buf, s.end);
      MatchAtSound(atoms, buf, s.start);
      forall t | 0 <= t < |spans| - 1
        ensures forall p :: spans[t].end <= p < spans[t + 1].start ==> MatchAt(atoms, buf, p).None?
      {
        if t > 0 {
          assert spans[t] == rest[t - 1] && spans[t + 1] == rest[t];
        }
      }
  }

  /** The `while ((match = regex.exec(totalText)) !== null)` loop: all spans
      are collected before the page is touched. */
  method CollectMatches(atoms: seq<Atom>, buf: string) returns (spans: seq<Span>)
    requires HasLiteral(atoms)
    ensures spans == AllSpans(atoms, buf, 0)
    ensures Ordered(spans, 0, |buf|)
  {
    spans := [];
    var lastIndex: nat := 0;
    var m := FindFrom(atoms, buf, lastIndex);
    while m.Some?
      invariant lastIndex <= |buf|
      invariant m == FindFrom(atoms, buf, lastIndex)
      invariant spans + AllSpans(atoms, buf, lastIndex) == AllSpans(atoms, buf, 0)
      decreases |buf| - lastIndex
    {
      var s := m.value;
      assert AllSpans(atoms, buf, lastIndex) == [s] + AllSpans(atoms, buf, s.end);
      spans := spans + [s];
      lastIndex := s.end;
      m := FindFrom(atoms, buf, lastIndex);
    }
  }
}
