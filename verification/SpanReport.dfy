/**
 The breadth-first selection of completed spans that is reported, and how it accounts
 for the spans it leaves out (api/metrics.py, completed_spans and the two limits).
 */
module SpanReport {
  import opened Common
  import opened SpanMetrics

  const SPAN_DEPTH_LIMIT := 5
  const SPAN_TOTAL_LIMIT := 100

  /** A span beside its sort key: depth, then start, then execution time. */
  datatype Item = Item(span: Span, depth: nat, start: real, exec: real)

  predicate KeyLess(a: Item, b: Item) {
    || a.depth < b.depth
    || (a.depth == b.depth && (a.start < b.start || (a.start == b.start && a.exec < b.exec)))
  }

  predicate Sorted(items: seq<Item>) {
    forall i, j :: 0 <= i < j < |items| ==> !KeyLess(items[j], items[i])
  }

  /** Insertion before the first item with a larger key keeps equal keys in order. */
  function Insert(x: Item, items: seq<Item>): (r: seq<Item>)
    requires Sorted(items)
    ensures multiset(r) == multiset(items) + multiset{x}
    ensures Sorted(r)
  {
    if items == [] then [x]
    else if KeyLess(x, items[0]) then [x] + items
    else
      assert items == [items[0]] + items[1..];
      var rest := Insert(x, items[1..]);
      var r := [items[0]] + rest;
      assert forall i :: 0 <= i < |rest| ==> !KeyLess(rest[i], items[0]) by {
        forall i | 0 <= i < |rest|
          ensures !KeyLess(rest[i], items[0])
        {
          assert rest[i] in multiset(rest);
          assert rest[i] == x || rest[i] in items[1..];
        }
      }
      r
  }

  /** Python's sorted. */
  function SortItems(items: seq<Item>): (r: seq<Item>)
    ensures multiset(r) == multiset(items) && Sorted(r)
  {
    if items == [] then []
    else
      var n := |items| - 1;
      assert items == items[..n] + [items[n]];
      Insert(items[n], SortItems(items[..n]))
  }

  /** heapq.nsmallest(n, items) */
  function NSmallest(n: nat, items: seq<Item>): seq<Item> {
    var sorted := SortItems(items);
    if |sorted| <= n then sorted else sorted[..n]
  }

  lemma SameMultiset(a: seq<Item>, b: seq<Item>)
    requires multiset(a) == multiset(b)
    ensures |a| == |b| && Elements(a) == Elements(b)
  {
    assert |multiset(a)| == |a| && |multiset(b)| == |b|;
    forall x | x in Elements(a) + Elements(b)
      ensures x in Elements(a) && x in Elements(b)
    {
      assert x in multiset(a) && x in multiset(b);
    }
  }

  /** A selection of the n smallest has min(n, all) members, each of them an input item,
      and it misses no item with a key smaller than a member's. */
  lemma NSmallestIsLower(n: nat, items: seq<Item>)
    ensures var r := NSmallest(n, items);
            && |r| == (if |items| <= n then |items| else n)
            && multiset(r) <= multiset(items)
            && Elements(r) <= Elements(items)
            && forall x, y :: x in Elements(items) && y in Elements(r) && KeyLess(x, y) ==> x in Elements(r)
  {
    var sorted := SortItems(items);
    SameMultiset(sorted, items);
    var r := NSmallest(n, items);
    assert r <= sorted && sorted == r + sorted[|r|..];
    forall x, y | x in Elements(items) && y in Elements(r) && KeyLess(x, y)
      ensures x in Elements(r)
    {
      assert x in Elements(sorted);
      var i :| 0 <= i < |sorted| && sorted[i] == x;
      var j :| 0 <= j < |r| && r[j] == y;
      assert sorted[j] == y;
    }
  }

  // ---------------------------------------------------------- the selection

  function ItemOf(s: Span): Item
    requires s.executionTime.Some?
    reads s
  {
    Item(s, s.spanDepth, s.startTime, s.executionTime.value)
  }

  /** The completed spans within the depth limit, in order of completion. */
  function Candidates(spans: seq<Span>): (r: seq<Item>)
    requires forall s :: s in spans ==> s.executionTime.Some?
    reads spans
  {
    if spans == [] then []
    else
      var n := |spans| - 1;
      Candidates(spans[..n]) + (if spans[n].spanDepth <= SPAN_DEPTH_LIMIT then [ItemOf(spans[n])] else [])
  }

  /** num_spans_past_depth_limit */
  function NumSpansPastDepthLimit(spans: seq<Span>): nat {
    if spans == [] then 0
    else
      var n := |spans| - 1;
      NumSpansPastDepthLimit(spans[..n]) + (if spans[n].spanDepth > SPAN_DEPTH_LIMIT then 1 else 0)
  }

  /** num_spans_past_total_limit */
  function NumSpansPastTotalLimit(spans: seq<Span>): nat {
    if |spans| > SPAN_TOTAL_LIMIT then |spans| - SPAN_TOTAL_LIMIT else 0
  }

  lemma {:induction false} CandidatesExact(spans: seq<Span>)
    requires forall s :: s in spans ==> s.executionTime.Some?
    ensures |Candidates(spans)| == |spans| - NumSpansPastDepthLimit(spans)
    ensures forall s :: s in spans && s.spanDepth <= SPAN_DEPTH_LIMIT ==> ItemOf(s) in Elements(Candidates(spans))
    ensures forall x :: x in Elements(Candidates(spans)) ==>
              x.span in spans && x == ItemOf(x.span) && x.depth <= SPAN_DEPTH_LIMIT
  {
    if spans != [] {
      var n := |spans| - 1;
      CandidatesExact(spans[..n]);
      assert spans == spans[..n] + [spans[n]];
    }
  }

  lemma {:induction false} CandidatesDistinct(spans: seq<Span>)
    requires Distinct(spans) && forall s :: s in spans ==> s.executionTime.Some?
    ensures Distinct(Candidates(spans))
  {
    if spans != [] {
      var n := |spans| - 1;
      var r := Candidates(spans[..n]);
      CandidatesDistinct(spans[..n]);
      CandidatesExact(spans[..n]);
      assert spans[n] !in spans[..n];
      forall i | 0 <= i < |r|
        ensures r[i].span != spans[n]
      {
        assert r[i] in Elements(r);
      }
    }
  }

  datatype Reported = Reported(span: Span, trimmed: bool)

  /** The selection that is reported: the first hundred candidates, breadth first. */
  function Selected(m: CLIMetrics): seq<Item>
    requires m.Valid()
    reads m, m.started, m.completed
  {
    CompletedAreTimed(m);
    NSmallest(SPAN_TOTAL_LIMIT, Candidates(m.completed))
  }

  lemma CompletedAreTimed(m: CLIMetrics)
    requires m.Valid()
    ensures forall s :: s in m.completed ==> s in m.started && s.executionTime.Some?
  {
    forall s | s in m.completed
      ensures s in m.started
    {
      assert s in Elements(m.completed);
    }
  }

  ghost function SpansOf(items: seq<Item>): set<Span> {
    set x | x in items :: x.span
  }

  /** The selection is in order, and what it leaves out comes last. */
  lemma SelectedInOrder(m: CLIMetrics)
    requires m.Valid()
    ensures var r := Selected(m);
            && |r| <= SPAN_TOTAL_LIMIT
            && (forall i, j :: 0 <= i < j < |r| ==> !KeyLess(r[j], r[i]))
            && (forall x, y :: x in Candidates(m.completed) && x !in r && y in r ==> !KeyLess(x, y))
            && (|r| == SPAN_TOTAL_LIMIT || forall x :: x in Candidates(m.completed) ==> x in r)
  {
    var items := Candidates(m.completed);
    NSmallestIsLower(SPAN_TOTAL_LIMIT, items);
    SameMultiset(SortItems(items), items);
    forall x, y | x in items && x !in Selected(m) && y in Selected(m)
      ensures !KeyLess(x, y)
    {
      assert x in Elements(items) && y in Elements(Selected(m));
    }
    forall x | x in items && |items| <= SPAN_TOTAL_LIMIT
      ensures x in Selected(m)
    {
      assert x in Elements(SortItems(items));
    }
  }

  /** Each selected item is that of a completed span, and no span is selected twice. */
  lemma SelectedSpans(m: CLIMetrics)
    requires m.Valid()
    ensures var r := Selected(m);
            && (forall i :: 0 <= i < |r| ==>
                  && r[i].span in m.completed && r[i].span.executionTime.Some?
                  && r[i] == ItemOf(r[i].span) && r[i].depth <= SPAN_DEPTH_LIMIT)
            && (forall i, j :: 0 <= i < j < |r| ==> r[i].span != r[j].span)
            && (forall s :: s in m.completed && s.spanDepth <= SPAN_DEPTH_LIMIT ==>
                  s.executionTime.Some? && ItemOf(s) in Candidates(m.completed))
  {
    var items, r := Candidates(m.completed), Selected(m);
    CompletedAreTimed(m);
    CandidatesExact(m.completed);
    CandidatesDistinct(m.completed);
    NSmallestIsLower(SPAN_TOTAL_LIMIT, items);
    DistinctSubMultiset(r, items);
    forall i | 0 <= i < |r|
      ensures r[i].span in m.completed && r[i] == ItemOf(r[i].span) && r[i].depth <= SPAN_DEPTH_LIMIT
    {
      assert r[i] in Elements(r) && r[i] in Elements(items);
    }
    forall s | s in m.completed && s.spanDepth <= SPAN_DEPTH_LIMIT
      ensures ItemOf(s) in items
    {
      assert ItemOf(s) in Elements(items);
    }
  }

  ghost predicate ReportsSelected(report: seq<Reported>, selected: seq<Item>) {
    |report| == |selected| && forall i :: 0 <= i < |report| ==> report[i].span == selected[i].span
  }

  lemma ReportInOrder(m: CLIMetrics, report: seq<Reported>)
    requires m.Valid() && ReportsSelected(report, Selected(m))
    ensures forall i, j :: 0 <= i < j < |report| ==>
      var (a, b) := (report[i].span, report[j].span);
      && a != b && a.executionTime.Some? && b.executionTime.Some?
      && (|| a.spanDepth < b.spanDepth
          || (a.spanDepth == b.spanDepth && a.startTime < b.startTime)
          || (a.spanDepth == b.spanDepth && a.startTime == b.startTime
              && a.executionTime.value <= b.executionTime.value))
    ensures |report| <= 100
    ensures forall i :: 0 <= i < |report| ==> report[i].span in m.completed && report[i].span.spanDepth <= 5
  {
    SelectedSpans(m);
    SelectedInOrder(m);
    var r := Selected(m);
    forall i, j | 0 <= i < j < |report|
      ensures !KeyLess(ItemOf(report[j].span), ItemOf(report[i].span))
    {
      assert r[i] == ItemOf(report[i].span) && r[j] == ItemOf(report[j].span);
    }
  }

  lemma ReportLeavesOutTheLast(m: CLIMetrics, report: seq<Reported>)
    requires m.Valid() && ReportsSelected(report, Selected(m))
    ensures forall s :: s in m.completed && s.spanDepth <= 5
                        && (forall i :: 0 <= i < |report| ==> report[i].span != s) ==>
      && |report| == 100 && s.executionTime.Some?
      && forall i :: 0 <= i < |report| ==>
           var a := report[i].span;
           && a.executionTime.Some?
           && (|| a.spanDepth < s.spanDepth
               || (a.spanDepth == s.spanDepth && a.startTime < s.startTime)
               || (a.spanDepth == s.spanDepth && a.startTime == s.startTime
                   && a.executionTime.value <= s.executionTime.value))
  {
    SelectedSpans(m);
    SelectedInOrder(m);
    var r := Selected(m);
    forall s | s in m.completed && s.spanDepth <= 5 && forall i :: 0 <= i < |report| ==> report[i].span != s
      ensures |report| == 100 && s.executionTime.Some?
      ensures forall i :: 0 <= i < |report| ==>
                report[i].span.executionTime.Some? && !KeyLess(ItemOf(s), ItemOf(report[i].span))
    {
      assert ItemOf(s) in Candidates(m.completed);
      assert forall x :: x in r ==> x.span != s;
    }
  }

  /** The loop of completed_spans. */
  method MarkTrimmed(selected: seq<Item>) returns (report: seq<Reported>)
    ensures ReportsSelected(report, selected)
    ensures forall i :: 0 <= i < |report| ==>
      (report[i].trimmed <==> !(report[i].span.children <= SpansOf(selected)))
  {
    var reported := set x | x in selected :: x.span;
    report := [];
    for i := 0 to |selected|
      invariant |report| == i
      invariant forall j :: 0 <= j < i ==>
        && report[j].span == selected[j].span
        && (report[j].trimmed <==> !(report[j].span.children <= reported))
    {
      report := report + [Reported(selected[i].span, !(selected[i].span.children <= reported))];
    }
  }

  /** completed_spans: the selected spans in order, each marked trimmed when one of its
      children is not among them. */
  method CompletedSpans(m: CLIMetrics) returns (report: seq<Reported>)
    requires m.Valid()
    // by depth, then start, then execution time
    ensures forall i, j :: 0 <= i < j < |report| ==>
      var (a, b) := (report[i].span, report[j].span);
      && a != b && a.executionTime.Some? && b.executionTime.Some?
      && (|| a.spanDepth < b.spanDepth
          || (a.spanDepth == b.spanDepth && a.startTime < b.startTime)
          || (a.spanDepth == b.spanDepth && a.startTime == b.startTime
              && a.executionTime.value <= b.executionTime.value))
    // completed spans down to depth five, at most a hundred
    ensures |report| <= 100
    ensures forall i :: 0 <= i < |report| ==> report[i].span in m.completed && report[i].span.spanDepth <= 5
    // and no span is left out that the limits and that order let in
    ensures forall s :: s in m.completed && s.spanDepth <= 5
                        && (forall i :: 0 <= i < |report| ==> report[i].span != s) ==>
      && |report| == 100 && s.executionTime.Some?
      && forall i :: 0 <= i < |report| ==>
           var a := report[i].span;
           && a.executionTime.Some?
           && (|| a.spanDepth < s.spanDepth
               || (a.spanDepth == s.spanDepth && a.startTime < s.startTime)
               || (a.spanDepth == s.spanDepth && a.startTime == s.startTime
                   && a.executionTime.value <= s.executionTime.value))
    // a span is marked when a child of it is missing
    ensures forall i :: 0 <= i < |report| ==>
      (report[i].trimmed <==>
         exists c :: c in report[i].span.children && forall j :: 0 <= j < |report| ==> report[j].span != c)
    ensures ReportsSelected(report, Selected(m))
  {
    report := MarkTrimmed(Selected(m));
    ReportInOrder(m, report);
    ReportLeavesOutTheLast(m, report);
    TrimmedByChildren(report, Selected(m));
  }

  lemma TrimmedByChildren(report: seq<Reported>, selected: seq<Item>)
    requires ReportsSelected(report, selected)
    requires forall i :: 0 <= i < |report| ==>
               (report[i].trimmed <==> !(report[i].span.children <= SpansOf(selected)))
    ensures forall i :: 0 <= i < |report| ==>
              (report[i].trimmed <==>
                 exists c :: c in report[i].span.children && forall j :: 0 <= j < |report| ==> report[j].span != c)
  {
    assert forall s :: s in SpansOf(selected) <==> exists j :: 0 <= j < |report| && report[j].span == s;
    forall i | 0 <= i < |report|
      ensures report[i].trimmed <==>
              exists c :: c in report[i].span.children && forall j :: 0 <= j < |report| ==> report[j].span != c
    {
      MissingChild(report, SpansOf(selected), report[i].span.children);
    }
  }

  lemma MissingChild(report: seq<Reported>, reported: set<Span>, children: set<Span>)
    requires forall s :: s in reported <==> exists j :: 0 <= j < |report| && report[j].span == s
    ensures !(children <= reported) <==>
              exists c :: c in children && forall j :: 0 <= j < |report| ==> report[j].span != c
  {
  }

  lemma {:induction false} DistinctSpans(items: seq<Item>)
    requires Distinct(items)
    requires forall x, y :: x in items && y in items && x.span == y.span ==> x == y
    ensures |SpansOf(items)| == |items|
  {
    if items != [] {
      var n := |items| - 1;
      DistinctSpans(items[..n]);
      assert items == items[..n] + [items[n]];
      assert SpansOf(items) == SpansOf(items[..n]) + {items[n].span};
      assert items[n].span !in SpansOf(items[..n]);
    }
  }

  lemma DistinctSubMultiset(a: seq<Item>, b: seq<Item>)
    requires Distinct(b) && multiset(a) <= multiset(b)
    ensures Distinct(a)
  {
    forall i, j | 0 <= i < j < |a|
      ensures a[i] != a[j]
    {
      if a[i] == a[j] {
        assert a == a[..i] + [a[i]] + a[i + 1..j] + [a[j]] + a[j + 1..];
        assert multiset(a)[a[i]] >= 2;
        AtMostOnce(b, a[i]);
      }
    }
  }

  lemma {:induction false} AtMostOnce(b: seq<Item>, x: Item)
    requires Distinct(b)
    ensures multiset(b)[x] <= 1
    ensures x !in b ==> multiset(b)[x] == 0
  {
    if b != [] {
      var n := |b| - 1;
      AtMostOnce(b[..n], x);
      assert b == b[..n] + [b[n]];
      if b[n] == x { assert x !in b[..n]; }
    }
  }

  /** The report accounts for every completed span: it names distinct completed spans,
      and leaves out exactly as many as the larger of the two limit counters says. */
  lemma ReportCount(m: CLIMetrics)
    requires m.Valid()
    ensures var unreported := Elements(m.completed) - SpansOf(Selected(m));
            var depth, total := NumSpansPastDepthLimit(m.completed), NumSpansPastTotalLimit(m.completed);
            && SpansOf(Selected(m)) <= Elements(m.completed)
            && |unreported| == if depth > total then depth else total
  {
    CompletedAreTimed(m);
    var items, r := Candidates(m.completed), Selected(m);
    CandidatesExact(m.completed);
    CandidatesDistinct(m.completed);
    NSmallestIsLower(SPAN_TOTAL_LIMIT, items);
    DistinctSubMultiset(r, items);
    assert forall x :: x in r ==> x in Elements(r) && x in Elements(items);
    DistinctSpans(r);
    DistinctElements(m.completed);
    assert forall s :: s in SpansOf(r) ==> s in m.completed;
  }

  lemma {:induction false} DistinctElements<T>(xs: seq<T>)
    requires Distinct(xs)
    ensures |Elements(xs)| == |xs|
  {
    if xs != [] {
      var n := |xs| - 1;
      DistinctElements(xs[..n]);
      assert xs == xs[..n] + [xs[n]];
      ElementsAppend(xs[..n], xs[n]);
      assert xs[n] !in Elements(xs[..n]);
    }
  }

  /** A reported span's parent, once completed, is reported too. */
  lemma ParentReported(m: CLIMetrics, s: Span)
    requires m.Valid() && s in SpansOf(Selected(m))
    requires s.parent != null && s.parent in m.completed
    ensures s.parent in SpansOf(Selected(m))
  {
    CompletedAreTimed(m);
    var items, r := Candidates(m.completed), Selected(m);
    CandidatesExact(m.completed);
    NSmallestIsLower(SPAN_TOTAL_LIMIT, items);
    var y :| y in r && y.span == s;
    assert y in Elements(r) && y in Elements(items);
    assert s.Rooted();
    var x := ItemOf(s.parent);
    assert x in Elements(items) && KeyLess(x, y);
    assert x in Elements(r);
  }

  /** If no reported span is marked trimmed, everything started below a reported span is
      reported. */
  lemma {:induction false} DescendantReported(m: CLIMetrics, s: Span, t: Span)
    requires m.Valid() && s in SpansOf(Selected(m))
    requires forall u :: u in SpansOf(Selected(m)) ==> u.children <= SpansOf(Selected(m))
    requires t in m.started && s in t.ancestors
    ensures t in SpansOf(Selected(m))
    decreases |t.ancestors|
  {
    var p := t.parent;
    assert t.Rooted() && p != null;
    assert p in Elements(t.ancestors);
    if p != s {
      DescendantReported(m, s, p);
    }
    assert t in p.children;
  }
}
