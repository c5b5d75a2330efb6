/**
 * The two page-slicing operations: a clamped page range copied into one new
 * document (`slice_by_pages`), and a greedy split into parts that each stop at
 * the first page where the serialized part reaches the size limit
 * (`slice_by_size`).
 *
 * A document is a sequence of pages of any type.  Serializing a part and
 * measuring it is an oracle `size` from a sequence of pages to its byte count.
 */
module Slicing {
  import opened Wrappers
  import opened Strings

  // ---------------------------------------------------------------------------
  // Slicing by page range
  // ---------------------------------------------------------------------------

  /** The copied pages and the 1-based numbers written into the file name. */
  datatype PageSlice<P> = PageSlice(pages: seq<P>, first: int, last: int)

  /**
   * `slice_by_pages`: start = max(1, startPage) - 1, end = min(pageCount, endPage),
   * pages [start, end) copied in order; an empty range gives an empty document.
   */
  function SliceByPages<P>(doc: seq<P>, startPage: int, endPage: int): (r: PageSlice<P>)
    // the file name carries the clamped 1-based first page and the clamped last page
    ensures r.first == if startPage < 1 then 1 else startPage
    ensures r.last == if endPage > |doc| then |doc| else endPage
    // as many pages as the clamped range holds, none when it is empty
    ensures |r.pages| == if r.first <= r.last then r.last - r.first + 1 else 0
    // page k of the output is page first + k of the input, counting from 1
    ensures forall k :: 0 <= k < |r.pages| ==> r.pages[k] == doc[r.first - 1 + k]
  {
    var start := (if startPage < 1 then 1 else startPage) - 1;
    var end := if endPage < |doc| then endPage else |doc|;
    PageSlice(if start < end then doc[start..end] else [], start + 1, end)
  }

  /** `<stem>_pages_<first>-<last>.pdf`. */
  function PagesFileName<P>(stem: string, s: PageSlice<P>): string {
    stem + "_pages_" + IntToString(s.first) + "-" + IntToString(s.last) + ".pdf"
  }

  /** For a valid range [a, b] the output holds exactly pages a..b, b - a + 1 of them. */
  lemma SliceValidRange<P>(doc: seq<P>, a: int, b: int)
    requires 1 <= a <= b <= |doc|
    ensures SliceByPages(doc, a, b) == PageSlice(doc[a - 1..b], a, b)
    ensures |SliceByPages(doc, a, b).pages| == b - a + 1
  {
  }

  /** Slicing the range 1..pageCount returns the whole document. */
  lemma SliceWholeDocument<P>(doc: seq<P>)
    ensures SliceByPages(doc, 1, |doc|).pages == doc
  {
  }

  /** Two adjacent ranges sliced separately give, together, the slice of their union. */
  lemma SliceAdjacentRanges<P>(doc: seq<P>, a: int, b: int, c: int)
    requires 1 <= a <= b < c <= |doc|
    ensures SliceByPages(doc, a, b).pages + SliceByPages(doc, b + 1, c).pages
      == SliceByPages(doc, a, c).pages
  {
    assert doc[a - 1..b] + doc[b..c] == doc[a - 1..c];
  }

  lemma PagesFileNameParts<P>(stem: string, s: PageSlice<P>)
    requires s.first >= 1
    ensures PagesFileName(stem, s) ==
      (stem + "_pages_") + (NatToString(s.first) + ("-" + (IntToString(s.last) + ".pdf")))
  {
  }

  /** The range is readable back from the file name: different ranges give different names. */
  lemma PagesFileNameDeterminesRange<P>(stem: string, s: PageSlice<P>, t: PageSlice<P>)
    requires s.first >= 1 && t.first >= 1
    requires PagesFileName(stem, s) == PagesFileName(stem, t)
    ensures s.first == t.first && s.last == t.last
  {
    var ds, dt := NatToString(s.first), NatToString(t.first);
    var ls, lt := IntToString(s.last), IntToString(t.last);
    PagesFileNameParts(stem, s);
    PagesFileNameParts(stem, t);
    PrefixCancel(stem + "_pages_", ds + ("-" + (ls + ".pdf")), dt + ("-" + (lt + ".pdf")));
    SplitAfterDigits(ds, "-" + (ls + ".pdf"), dt, "-" + (lt + ".pdf"));
    NatToStringInjective(s.first, t.first);
    PrefixCancel("-", ls + ".pdf", lt + ".pdf");
    SuffixCancel(ls, lt, ".pdf");
    IntToStringInjective(s.last, t.last);
  }

  /** Distinct integers have distinct decimal forms. */
  lemma IntToStringInjective(m: int, n: int)
    requires IntToString(m) == IntToString(n)
    ensures m == n
  {
    if m < 0 {
      assert NatToString(-m) == IntToString(m)[1..] == IntToString(n)[1..] == NatToString(-n);
      NatToStringInjective(-m, -n);
    } else {
      NatToStringInjective(m, n);
    }
  }

  // ---------------------------------------------------------------------------
  // Slicing by size: the greedy partition
  // ---------------------------------------------------------------------------

  /** All parts, in order, concatenated. */
  function Flatten<P>(parts: seq<seq<P>>): seq<P> {
    if |parts| == 0 then [] else parts[0] + Flatten(parts[1..])
  }

  /**
   * Where a part starting at the front of `doc` ends, searching from `t` pages
   * on: the first page count whose serialized size reaches `maxBytes`, or the
   * whole of `doc` when the last page comes first.
   */
  function CutFrom<P>(doc: seq<P>, size: seq<P> -> nat, maxBytes: int, t: nat): (r: nat)
    requires 1 <= t <= |doc|
    ensures t <= r <= |doc|
    ensures forall j :: t <= j < r ==> size(doc[..j]) < maxBytes
    ensures r < |doc| ==> size(doc[..r]) >= maxBytes
    decreases |doc| - t
  {
    if t == |doc| || size(doc[..t]) >= maxBytes then t else CutFrom(doc, size, maxBytes, t + 1)
  }

  /** Length of the first part of a non-empty document. */
  function FirstCut<P>(doc: seq<P>, size: seq<P> -> nat, maxBytes: int): (r: nat)
    requires |doc| > 0
    ensures 1 <= r <= |doc|
    ensures forall j :: 1 <= j < r ==> size(doc[..j]) < maxBytes
    ensures r < |doc| ==> size(doc[..r]) >= maxBytes
  {
    CutFrom(doc, size, maxBytes, 1)
  }

  /** The parts `slice_by_size` writes, in order. */
  function Parts<P>(doc: seq<P>, size: seq<P> -> nat, maxBytes: int): seq<seq<P>>
    decreases |doc|
  {
    if |doc| == 0 then []
    else
      var t := FirstCut(doc, size, maxBytes);
      [doc[..t]] + Parts(doc[t..], size, maxBytes)
  }

  /**
   * What a greedy size split is: the parts cover the document in order, none is
   * empty, each reaches the limit only at its last page (dropping that page
   * leaves it below the limit), and every part but the last reaches the limit.
   */
  ghost predicate IsGreedyPartition<P>(doc: seq<P>, parts: seq<seq<P>>, size: seq<P> -> nat, maxBytes: int) {
    && Flatten(parts) == doc
    && (forall k :: 0 <= k < |parts| ==> |parts[k]| > 0)
    && (forall k, j :: 0 <= k < |parts| && 1 <= j < |parts[k]| ==> size(parts[k][..j]) < maxBytes)
    && (forall k :: 0 <= k < |parts| - 1 ==> size(parts[k]) >= maxBytes)
  }

  /** A part of length `t` at the front is exactly the first cut when it meets the cut's two conditions. */
  lemma PartsStep<P>(doc: seq<P>, size: seq<P> -> nat, maxBytes: int, t: nat)
    requires 1 <= t <= |doc|
    requires forall j :: 1 <= j < t ==> size(doc[..j]) < maxBytes
    requires t == |doc| || size(doc[..t]) >= maxBytes
    ensures Parts(doc, size, maxBytes) == [doc[..t]] + Parts(doc[t..], size, maxBytes)
  {
    var r := FirstCut(doc, size, maxBytes);
  }

  /** The greedy split meets its specification. */
  lemma {:induction false} PartsAreGreedy<P>(doc: seq<P>, size: seq<P> -> nat, maxBytes: int)
    ensures IsGreedyPartition(doc, Parts(doc, size, maxBytes), size, maxBytes)
    decreases |doc|
  {
    if |doc| > 0 {
      var t := FirstCut(doc, size, maxBytes);
      var rest := Parts(doc[t..], size, maxBytes);
      PartsAreGreedy(doc[t..], size, maxBytes);
      var ps := [doc[..t]] + rest;
      assert ps[1..] == rest;
      assert Flatten(ps) == doc[..t] + doc[t..] == doc;
      forall j | 1 <= j < |ps[0]|
        ensures size(ps[0][..j]) < maxBytes
      {
        assert ps[0][..j] == doc[..j];
      }
      if |rest| > 0 {
        assert |Flatten(rest)| > 0;
      }
    }
  }

  lemma FlattenEmpty<P>(parts: seq<seq<P>>)
    requires forall k :: 0 <= k < |parts| ==> |parts[k]| > 0
    requires Flatten(parts) == []
    ensures parts == []
  {
  }

  /** The greedy split is the only split meeting the specification. */
  lemma {:induction false} GreedyPartitionUnique<P>(doc: seq<P>, parts: seq<seq<P>>, size: seq<P> -> nat, maxBytes: int)
    requires IsGreedyPartition(doc, parts, size, maxBytes)
    ensures parts == Parts(doc, size, maxBytes)
    decreases |doc|
  {
    if |doc| == 0 {
      FlattenEmpty(parts);
    } else {
      assert |parts| > 0;
      var first := parts[0];
      var t := |first|;
      var rest := parts[1..];
      assert doc == first + Flatten(rest);
      assert doc[..t] == first && doc[t..] == Flatten(rest);
      forall j | 1 <= j < t
        ensures size(doc[..j]) < maxBytes
      {
        assert first[..j] == doc[..j];
      }
      if t < |doc| {
        assert |rest| > 0;
      }
      PartsStep(doc, size, maxBytes, t);
      assert IsGreedyPartition(doc[t..], rest, size, maxBytes) by {
        forall k, j | 0 <= k < |rest| && 1 <= j < |rest[k]|
          ensures size(rest[k][..j]) < maxBytes
        {
          assert rest[k] == parts[k + 1];
        }
        forall k | 0 <= k < |rest| - 1
          ensures size(rest[k]) >= maxBytes
        {
          assert rest[k] == parts[k + 1];
        }
      }
      GreedyPartitionUnique(doc[t..], rest, size, maxBytes);
    }
  }

  // ---------------------------------------------------------------------------
  // Slicing by size: the page loop, with cancellation
  // ---------------------------------------------------------------------------

  /** A written part: its 1-based number, its pages and its measured size. */
  datatype Part<P> = Part(number: nat, pages: seq<P>, size: nat)

  function PagesOf<P>(parts: seq<Part<P>>): seq<seq<P>> {
    seq(|parts|, i requires 0 <= i < |parts| => parts[i].pages)
  }

  lemma {:induction false} FlattenSnoc<P>(parts: seq<seq<P>>, last: seq<P>)
    ensures Flatten(parts + [last]) == Flatten(parts) + last
    decreases |parts|
  {
    if |parts| == 0 {
      assert Flatten([last]) == last + Flatten([]);
    } else {
      assert (parts + [last])[1..] == parts[1..] + [last];
      FlattenSnoc(parts[1..], last);
    }
  }

  lemma {:induction false} FlattenAppend<P>(a: seq<seq<P>>, b: seq<seq<P>>)
    ensures Flatten(a + b) == Flatten(a) + Flatten(b)
    decreases |a|
  {
    if |a| > 0 {
      assert (a + b)[1..] == a[1..] + b;
      FlattenAppend(a[1..], b);
    } else {
      assert a + b == b;
    }
  }

  /**
   * The first part of a document is longer than any run of pages at its front
   * that has not reached the limit and does not cover the whole document.
   */
  lemma StopInsideFirstPart<P>(doc: seq<P>, size: seq<P> -> nat, maxBytes: int, current: seq<P>)
    requires |current| < |doc| && doc[..|current|] == current
    requires forall j :: 1 <= j <= |current| ==> size(current[..j]) < maxBytes
    ensures |Parts(doc, size, maxBytes)| > 0 && |Parts(doc, size, maxBytes)[0]| > |current|
  {
    forall j | 1 <= j <= |current|
      ensures size(doc[..j]) < maxBytes
    {
      assert doc[..j] == current[..j];
    }
    var t := FirstCut(doc, size, maxBytes);
  }

  /**
   * Adding page `x` to a run that has not reached the limit closes the first
   * part when the run then reaches the limit or covers the whole document.
   */
  lemma CloseFirstPart<P>(doc: seq<P>, size: seq<P> -> nat, maxBytes: int, current: seq<P>, x: P)
    requires |current| < |doc| && doc[..|current| + 1] == current + [x]
    requires forall j :: 1 <= j <= |current| ==> size(current[..j]) < maxBytes
    requires size(current + [x]) >= maxBytes || |current| + 1 == |doc|
    ensures Parts(doc, size, maxBytes) == [current + [x]] + Parts(doc[|current| + 1..], size, maxBytes)
  {
    var next := current + [x];
    forall j | 1 <= j < |next|
      ensures size(doc[..j]) < maxBytes
    {
      assert doc[..j] == current[..j];
    }
    PartsStep(doc, size, maxBytes, |next|);
  }

  /** Adding a page that keeps the run below the limit keeps every prefix of it below the limit. */
  lemma ExtendOpenPart<P>(size: seq<P> -> nat, maxBytes: int, current: seq<P>, x: P)
    requires forall j :: 1 <= j <= |current| ==> size(current[..j]) < maxBytes
    requires size(current + [x]) < maxBytes
    ensures forall j :: 1 <= j <= |current| + 1 ==> size((current + [x])[..j]) < maxBytes
  {
    forall j | 1 <= j <= |current| + 1
      ensures size((current + [x])[..j]) < maxBytes
    {
      if j <= |current| {
        assert (current + [x])[..j] == current[..j];
      } else {
        assert (current + [x])[..j] == current + [x];
      }
    }
  }

  /** Closing the open run as a part leaves the greedy split of the remaining pages to come. */
  lemma RemainingPartsAfterWrite<P>(doc: seq<P>, size: seq<P> -> nat, maxBytes: int, base: nat, current: seq<P>)
    requires base + |current| < |doc| && current == doc[base..base + |current|]
    requires forall j :: 1 <= j <= |current| ==> size(current[..j]) < maxBytes
    requires var i := base + |current|; size(current + [doc[i]]) >= maxBytes || i == |doc| - 1
    ensures var i := base + |current|;
      Parts(doc[base..], size, maxBytes) == [current + [doc[i]]] + Parts(doc[i + 1..], size, maxBytes)
  {
    var i := base + |current|;
    var rest := doc[base..];
    assert rest[..|current| + 1] == current + [doc[i]];
    CloseFirstPart(rest, size, maxBytes, current, doc[i]);
    assert rest[|current| + 1..] == doc[i + 1..];
  }

  /** What the page loop produces: the page lists of the parts it writes, and whether it ran to the end. */
  datatype RunOutcome<P> = RunOutcome(parts: seq<seq<P>>, completed: bool)

  /**
   * The page loop of `slice_by_size` from page index `i` on, with `current`
   * the pages taken since the last part was written.  Each page is added to
   * the open run, which is measured and written as a part when it reaches
   * `maxBytes` or the page is the last one.  At the page index `stop` the run
   * ends before that page is used.
   */
  function SizeRun<P>(doc: seq<P>, size: seq<P> -> nat, maxBytes: int, stop: Option<nat>, i: nat, current: seq<P>): RunOutcome<P>
    requires i <= |doc|
    decreases |doc| - i
  {
    if i == |doc| then RunOutcome([], true)
    else if stop == Some(i) then RunOutcome([], false)
    else
      var next := current + [doc[i]];
      if size(next) >= maxBytes || i == |doc| - 1 then
        var rest := SizeRun(doc, size, maxBytes, stop, i + 1, []);
        RunOutcome([next] + rest.parts, rest.completed)
      else SizeRun(doc, size, maxBytes, stop, i + 1, next)
  }

  /**
   * How a run of the page loop that starts at page index `base` stands to the
   * greedy split `greedy` of the pages from `base` on: it completes exactly
   * when the stop index is never reached; a completed run writes all of
   * `greedy`; a stopped run writes a proper prefix of it and stops inside the
   * first part it did not write.
   */
  ghost predicate RunAgrees<P>(run: RunOutcome<P>, greedy: seq<seq<P>>, stop: Option<nat>, docLength: nat, base: nat) {
    && (run.completed <==> stop.None? || stop.value >= docLength)
    && run.parts <= greedy
    && (run.completed ==> run.parts == greedy)
    && (!run.completed ==>
          |run.parts| < |greedy|
          && base + |Flatten(run.parts)| <= stop.value < base + |Flatten(run.parts)| + |greedy[|run.parts|]|)
  }

  /** Writing the same part in front of a run and of the split keeps them in agreement. */
  lemma RunAgreesCons<P>(run: RunOutcome<P>, greedy: seq<seq<P>>, stop: Option<nat>, docLength: nat, base: nat, first: seq<P>)
    requires RunAgrees(run, greedy, stop, docLength, base + |first|)
    ensures RunAgrees(RunOutcome([first] + run.parts, run.completed), [first] + greedy, stop, docLength, base)
  {
    var parts := [first] + run.parts;
    assert parts[1..] == run.parts;
    assert Flatten(parts) == first + Flatten(run.parts);
    if !run.completed {
      assert ([first] + greedy)[|parts|] == greedy[|run.parts|];
    }
  }

  /** Requirements on a state of the page loop: the open run holds the pages since `base`, all below the limit. */
  ghost predicate LoopState<P>(doc: seq<P>, size: seq<P> -> nat, maxBytes: int, stop: Option<nat>, base: nat, i: nat, current: seq<P>) {
    && base <= i <= |doc| && current == doc[base..i]
    && (i == |doc| ==> base == i)
    && (forall j :: 1 <= j <= |current| ==> size(current[..j]) < maxBytes)
    && (stop.None? || stop.value >= i)
  }

  /** A run stopped at page `i` writes nothing more and stops inside the first remaining part. */
  lemma StopAgrees<P>(doc: seq<P>, size: seq<P> -> nat, maxBytes: int, stop: Option<nat>, base: nat, i: nat, current: seq<P>)
    requires LoopState(doc, size, maxBytes, stop, base, i, current)
    requires i < |doc| && stop == Some(i)
    ensures RunAgrees(SizeRun(doc, size, maxBytes, stop, i, current), Parts(doc[base..], size, maxBytes), stop, |doc|, base)
  {
    var rest := doc[base..];
    assert rest[..|current|] == current;
    StopInsideFirstPart(rest, size, maxBytes, current);
  }

  /** A run that writes the open run as a part agrees with the split when the rest of the run does. */
  lemma WriteAgrees<P>(doc: seq<P>, size: seq<P> -> nat, maxBytes: int, stop: Option<nat>, base: nat, i: nat, current: seq<P>)
    requires LoopState(doc, size, maxBytes, stop, base, i, current)
    requires i < |doc| && stop != Some(i)
    requires size(current + [doc[i]]) >= maxBytes || i == |doc| - 1
    requires RunAgrees(SizeRun(doc, size, maxBytes, stop, i + 1, []), Parts(doc[i + 1..], size, maxBytes), stop, |doc|, i + 1)
    ensures RunAgrees(SizeRun(doc, size, maxBytes, stop, i, current), Parts(doc[base..], size, maxBytes), stop, |doc|, base)
  {
    var next := current + [doc[i]];
    var after := SizeRun(doc, size, maxBytes, stop, i + 1, []);
    RemainingPartsAfterWrite(doc, size, maxBytes, base, current);
    RunAgreesCons(after, Parts(doc[i + 1..], size, maxBytes), stop, |doc|, base, next);
  }

  /** The page loop from page index `i`, with the open run `current` started at `base`, agrees with the greedy split. */
  lemma {:induction false} SizeRunIsGreedy<P>(doc: seq<P>, size: seq<P> -> nat, maxBytes: int, stop: Option<nat>, base: nat, i: nat, current: seq<P>)
    requires LoopState(doc, size, maxBytes, stop, base, i, current)
    ensures RunAgrees(SizeRun(doc, size, maxBytes, stop, i, current), Parts(doc[base..], size, maxBytes), stop, |doc|, base)
    decreases |doc| - i
  {
    if i == |doc| {
      assert doc[base..] == [];
    } else if stop == Some(i) {
      StopAgrees(doc, size, maxBytes, stop, base, i, current);
    } else {
      var next := current + [doc[i]];
      if size(next) >= maxBytes || i == |doc| - 1 {
        SizeRunIsGreedy(doc, size, maxBytes, stop, i + 1, i + 1, []);
        WriteAgrees(doc, size, maxBytes, stop, base, i, current);
      } else {
        ExtendOpenPart(size, maxBytes, current, doc[i]);
        SizeRunIsGreedy(doc, size, maxBytes, stop, base, i + 1, next);
      }
    }
  }

  /** The loop of `slice_by_size` run over the whole document, read against the greedy split. */
  lemma SizeRunFromStart<P>(doc: seq<P>, size: seq<P> -> nat, maxBytes: int, stop: Option<nat>)
    ensures var run := SizeRun(doc, size, maxBytes, stop, 0, []);
      var greedy := Parts(doc, size, maxBytes);
      && (run.completed <==> stop.None? || stop.value >= |doc|)
      && run.parts <= greedy
      && (run.completed ==> run.parts == greedy && IsGreedyPartition(doc, run.parts, size, maxBytes))
      && (!run.completed ==>
            |run.parts| < |greedy|
            && |Flatten(run.parts)| <= stop.value < |Flatten(run.parts)| + |greedy[|run.parts|]|)
  {
    assert doc[0..] == doc;
    SizeRunIsGreedy(doc, size, maxBytes, stop, 0, 0, []);
    PartsAreGreedy(doc, size, maxBytes);
  }

  /**
   * `slice_by_size`.  Pages are added one at a time to the current part; after
   * each addition the part is measured, and it is written as the next numbered
   * part when its size reaches `maxBytes` or the page was the last one.
   * `maxBytes` is the limit in bytes (the program multiplies megabytes by
   * 1024 * 1024; any real limit compares with integer sizes as its ceiling
   * does).
   *
   * `stop` is the index of the page during whose processing the stop flag is
   * first seen (`None`: never).  The program polls the flag at the top of each
   * page and again just before writing a part; either way the part that page
   * would complete is not written, and the run ends.  Parts already written stay.
   */
  method SliceBySize<P>(doc: seq<P>, size: seq<P> -> nat, maxBytes: int, stop: Option<nat>)
    returns (parts: seq<Part<P>>, completed: bool)
    ensures completed <==> stop.None? || stop.value >= |doc|
    // parts are numbered 1, 2, 3, ... and carry their measured size
    ensures forall k :: 0 <= k < |parts| ==> parts[k].number == k + 1 && parts[k].size == size(parts[k].pages)
    // a completed run writes the greedy split of the whole document
    ensures completed ==> PagesOf(parts) == Parts(doc, size, maxBytes)
    ensures completed ==> IsGreedyPartition(doc, PagesOf(parts), size, maxBytes)
    // a stopped run keeps exactly the parts finished before the stop page
    ensures PagesOf(parts) <= Parts(doc, size, maxBytes)
    ensures !completed ==> |parts| < |Parts(doc, size, maxBytes)|
    ensures !completed ==>
      |Flatten(PagesOf(parts))| <= stop.value < |Flatten(PagesOf(parts))| + |Parts(doc, size, maxBytes)[|parts|]|
  {
    parts, completed := PageLoop(doc, size, maxBytes, stop);
    SizeRunFromStart(doc, size, maxBytes, stop);
  }

  /** The page loop itself, writing numbered parts as `SizeRun` describes. */
  method PageLoop<P>(doc: seq<P>, size: seq<P> -> nat, maxBytes: int, stop: Option<nat>)
    returns (parts: seq<Part<P>>, completed: bool)
    ensures PagesOf(parts) == SizeRun(doc, size, maxBytes, stop, 0, []).parts
    ensures completed == SizeRun(doc, size, maxBytes, stop, 0, []).completed
    ensures forall k :: 0 <= k < |parts| ==> parts[k].number == k + 1 && parts[k].size == size(parts[k].pages)
  {
    ghost var whole := SizeRun(doc, size, maxBytes, stop, 0, []);
    parts := [];
    var current: seq<P> := [];
    var i := 0;
    while i < |doc|
      invariant i <= |doc|
      invariant PagesOf(parts) + SizeRun(doc, size, maxBytes, stop, i, current).parts == whole.parts
      invariant SizeRun(doc, size, maxBytes, stop, i, current).completed == whole.completed
      invariant forall k :: 0 <= k < |parts| ==> parts[k].number == k + 1 && parts[k].size == size(parts[k].pages)
    {
      if stop == Some(i) {
        assert PagesOf(parts) == whole.parts;
        return parts, false;
      }
      var next := current + [doc[i]];
      var nextSize := size(next);
      if nextSize >= maxBytes || i == |doc| - 1 {
        var part := Part(|parts| + 1, next, nextSize);
        assert PagesOf(parts + [part]) == PagesOf(parts) + [next];
        parts := parts + [part];
        current := [];
      } else {
        current := next;
      }
      i := i + 1;
    }
    assert PagesOf(parts) == whole.parts;
    return parts, true;
  }

  /** `<stem>_part_<N>.pdf`. */
  function PartFileName(stem: string, number: nat): string {
    stem + "_part_" + NatToString(number) + ".pdf"
  }

  /** Different part numbers give different file names, so no part overwrites another. */
  lemma PartFileNamesDistinct(stem: string, m: nat, n: nat)
    requires m != n
    ensures PartFileName(stem, m) != PartFileName(stem, n)
  {
    var prefix := stem + "_part_";
    var a, b := PartFileName(stem, m), PartFileName(stem, n);
    assert a[|prefix|..|a| - 4] == NatToString(m);
    assert b[|prefix|..|b| - 4] == NatToString(n);
    NatToStringDistinct(m, n);
  }
}
