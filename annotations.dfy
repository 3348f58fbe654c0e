/** The list of saved highlights the extension keeps in storage under
    `highlights`, and the edits the page script and the popup make to it
    (content.js, saveHighlight and restoreHighlights; popup.js, saveNote,
    deleteHighlight, the delete-all confirmation and loadHighlights). */
module Annotations {
  import opened Base

  /** One saved highlight. The `timestamp` is the instant of saving as a
      number, so that the popup's date comparison is a comparison of numbers. */
  datatype Annotation = Annotation(id: string, url: string, title: string, text: string, note: string, timestamp: int)

  /** `highlights.push(data)` before the list is stored again. */
  function Append(list: seq<Annotation>, a: Annotation): seq<Annotation>
  {
    list + [a]
  }

  /** `highlights.filter(h => h.url === currentUrl)`: the highlights of one
      page, in stored order. */
  function ForUrl(list: seq<Annotation>, url: string): (r: seq<Annotation>)
    ensures |r| <= |list|
    ensures forall h :: h in r <==> h in list && h.url == url
  {
    if list == [] then []
    else (if list[0].url == url then [list[0]] else []) + ForUrl(list[1..], url)
  }

  /** Filtering a concatenation filters each part and keeps their order. */
  lemma {:induction false} ForUrlConcat(a: seq<Annotation>, b: seq<Annotation>, url: string)
    ensures ForUrl(a + b, url) == ForUrl(a, url) + ForUrl(b, url)
    decreases |a|
  {
    if a == [] {
      assert a + b == b;
    } else {
      assert (a + b)[1..] == a[1..] + b;
      ForUrlConcat(a[1..], b, url);
    }
  }

  /** A highlight saved on a page is the last one that page restores, after
      those it already had; every other page restores what it did before. */
  lemma SavedIsRestored(list: seq<Annotation>, a: Annotation)
    ensures ForUrl(Append(list, a), a.url) == ForUrl(list, a.url) + [a]
    ensures forall url :: url != a.url ==> ForUrl(Append(list, a), url) == ForUrl(list, url)
  {
    ForUrlConcat(list, [a], a.url);
    assert [a][1..] == [];
    forall url | url != a.url
      ensures ForUrl(Append(list, a), url) == ForUrl(list, url)
    {
      ForUrlConcat(list, [a], url);
    }
  }

  /** `highlights.filter(item => item.id !== id)`. */
  function WithoutId(list: seq<Annotation>, id: string): (r: seq<Annotation>)
    ensures |r| <= |list|
    ensures forall h :: h in r <==> h in list && h.id != id
  {
    if list == [] then []
    else (if list[0].id != id then [list[0]] else []) + WithoutId(list[1..], id)
  }

  /** Deleting distributes over a concatenation: the records kept keep their
      relative order. */
  lemma {:induction false} WithoutIdConcat(a: seq<Annotation>, b: seq<Annotation>, id: string)
    ensures WithoutId(a + b, id) == WithoutId(a, id) + WithoutId(b, id)
    decreases |a|
  {
    if a == [] {
      assert a + b == b;
    } else {
      assert (a + b)[1..] == a[1..] + b;
      WithoutIdConcat(a[1..], b, id);
    }
  }

  /** Deleting an id no record has changes nothing. */
  lemma {:induction false} WithoutAbsentId(list: seq<Annotation>, id: string)
    requires forall k :: 0 <= k < |list| ==> list[k].id != id
    ensures WithoutId(list, id) == list
    decreases |list|
  {
    if list != [] {
      WithoutAbsentId(list[1..], id);
    }
  }

  /** `highlights.findIndex(item => item.id === id)`: the index of the first
      record with that id, or -1. */
  function FirstWithId(list: seq<Annotation>, id: string): (r: int)
    ensures -1 <= r < |list|
    ensures r == -1 <==> forall k :: 0 <= k < |list| ==> list[k].id != id
    ensures r >= 0 ==> list[r].id == id && forall k :: 0 <= k < r ==> list[k].id != id
  {
    if list == [] then -1
    else if list[0].id == id then 0
    else
      var r := FirstWithId(list[1..], id);
      if r == -1 then -1 else r + 1
  }

  /** `saveNote(id, newNote)`: the first record with that id gets the new
      note, in place, and the list is written back; with no such record
      nothing is written. `written` says whether the store is written. */
  method SaveNote(highlights: array<Annotation>, id: string, newNote: string) returns (written: bool)
    modifies highlights
    ensures written <==> exists k :: 0 <= k < highlights.Length && old(highlights[k]).id == id
    ensures !written ==> highlights[..] == old(highlights[..])
    ensures written ==>
      var i := FirstWithId(old(highlights[..]), id);
      highlights[..] == old(highlights[..])[i := old(highlights[i]).(note := newNote)]
  {
    var index := FirstWithId(highlights[..], id);
    written := false;
    if index != -1 {
      highlights[index] := highlights[index].(note := newNote);
      written := true;
    }
  }

  /** The delete-all confirmation: an empty list is left alone (nothing is
      stored), any other list is replaced by the empty list. */
  function DeleteAll(list: seq<Annotation>): Option<seq<Annotation>>
  {
    if |list| == 0 then None else Some([])
  }

  /** The list as it is in storage after an optional write. */
  function AfterWrite(list: seq<Annotation>, stored: Option<seq<Annotation>>): seq<Annotation>
  {
    if stored.Some? then stored.value else list
  }

  /** Whatever the list was, after delete-all the store holds no record. */
  lemma DeleteAllEmpties(list: seq<Annotation>)
    ensures AfterWrite(list, DeleteAll(list)) == []
  {
  }

  /** The store is written exactly when there is something to delete. */
  lemma DeleteAllWritesNonEmpty(list: seq<Annotation>)
    ensures DeleteAll(list).Some? <==> list != []
  {
  }

  /** Newest first: timestamps never increase along the list. */
  predicate NewestFirst(s: seq<Annotation>)
  {
    forall x, y :: 0 <= x < y < |s| ==> s[x].timestamp >= s[y].timestamp
  }

  /** `highlights.sort((a, b) => new Date(b.timestamp) - new Date(a.timestamp))`,
      in place: the same records, newest first. */
  method SortNewestFirst(highlights: array<Annotation>)
    modifies highlights
    ensures NewestFirst(highlights[..])
    ensures multiset(highlights[..]) == multiset(old(highlights[..]))
  {
    var a := highlights;
    if a.Length == 0 {
      return;
    }
    var i := 1;
    while i < a.Length
      invariant 1 <= i <= a.Length
      invariant NewestFirst(a[..i])
      invariant multiset(a[..]) == multiset(old(a[..]))
    {
      InsertLast(a, i);
      i := i + 1;
    }
    assert a[..i] == a[..];
  }

  /** Positions `0..i` are newest first, leaving out position `j`. */
  predicate SortedExcept(s: seq<Annotation>, j: nat, i: nat)
    requires i < |s|
  {
    forall x, y :: 0 <= x < y <= i && x != j && y != j ==> s[x].timestamp >= s[y].timestamp
  }

  /** The record at `j` is newer than every record after it up to `i`. */
  predicate NewerThanTail(s: seq<Annotation>, j: nat, i: nat)
    requires j <= i < |s|
  {
    forall y :: j < y <= i ==> s[j].timestamp > s[y].timestamp
  }

  lemma InsertStart(s: seq<Annotation>, i: nat)
    requires i < |s| && NewestFirst(s[..i])
    ensures SortedExcept(s, i, i) && NewerThanTail(s, i, i)
  {
    forall x, y | 0 <= x < y <= i && x != i && y != i ensures s[x].timestamp >= s[y].timestamp {
      assert s[x] == s[..i][x] && s[y] == s[..i][y];
    }
  }

  lemma SwapStep(s: seq<Annotation>, j: nat, i: nat)
    requires 0 < j <= i < |s|
    requires SortedExcept(s, j, i) && NewerThanTail(s, j, i)
    requires s[j - 1].timestamp < s[j].timestamp
    ensures var t := s[j - 1 := s[j]][j := s[j - 1]];
      SortedExcept(t, j - 1, i) && NewerThanTail(t, j - 1, i) && multiset(t) == multiset(s)
  {
    var t := s[j - 1 := s[j]][j := s[j - 1]];
    assert t == s[..j - 1] + [s[j], s[j - 1]] + s[j + 1..];
    assert s == s[..j - 1] + [s[j - 1], s[j]] + s[j + 1..];
  }

  /** A swap below `i` leaves the records after `i` where they are. */
  lemma SwapSuffix(s: seq<Annotation>, j: nat, i: nat)
    requires 0 < j <= i < |s|
    ensures s[j - 1 := s[j]][j := s[j - 1]][i + 1..] == s[i + 1..]
  {
  }

  lemma InsertDone(s: seq<Annotation>, j: nat, i: nat)
    requires j <= i < |s|
    requires SortedExcept(s, j, i) && NewerThanTail(s, j, i)
    requires j == 0 || s[j - 1].timestamp >= s[j].timestamp
    ensures NewestFirst(s[..i + 1])
  {
    forall x, y | 0 <= x < y < i + 1 ensures s[x].timestamp >= s[y].timestamp {
      if x == j {
      } else if y == j {
        assert s[x].timestamp >= s[j - 1].timestamp;
      }
    }
  }

  /** One insertion step: `a[i]` moves left past every older record. */
  method InsertLast(a: array<Annotation>, i: nat)
    requires i < a.Length
    requires NewestFirst(a[..i])
    modifies a
    ensures NewestFirst(a[..i + 1])
    ensures multiset(a[..]) == multiset(old(a[..]))
    ensures a[i + 1..] == old(a[i + 1..])
    ensures multiset(a[..i + 1]) == multiset(old(a[..i + 1]))
  {
    InsertStart(a[..], i);
    ghost var s0 := a[..];
    var j := i;
    while j > 0 && a[j - 1].timestamp < a[j].timestamp
      invariant 0 <= j <= i
      invariant SortedExcept(a[..], j, i) && NewerThanTail(a[..], j, i)
      invariant multiset(a[..]) == multiset(old(a[..]))
      invariant a[..][i + 1..] == s0[i + 1..]
    {
      ghost var s := a[..];
      ghost var t := s[j - 1 := s[j]][j := s[j - 1]];
      SwapStep(s, j, i);
      SwapSuffix(s, j, i);
      a[j - 1], a[j] := a[j], a[j - 1];
      assert a[..] == t;
      j := j - 1;
    }
    InsertDone(a[..], j, i);
    PrefixMultiset(s0, a[..], i + 1);
  }

  /** Two sequences with the same elements and the same suffix from `n` have
      the same elements before `n`. */
  lemma PrefixMultiset(s: seq<Annotation>, r: seq<Annotation>, n: nat)
    requires n <= |s| == |r|
    requires multiset(r) == multiset(s) && r[n..] == s[n..]
    ensures multiset(r[..n]) == multiset(s[..n])
  {
    assert r == r[..n] + r[n..];
    assert s == s[..n] + s[n..];
    assert multiset(r) == multiset(r[..n]) + multiset(r[n..]);
    assert multiset(s) == multiset(s[..n]) + multiset(s[n..]);
    forall x ensures multiset(r[..n])[x] == multiset(s[..n])[x] {
      assert multiset(r)[x] == multiset(s)[x];
    }
  }
}
