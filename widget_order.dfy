/** The order in which `print_to_terminal` draws the widgets over the
    Braille image: only the enabled ones, shallowest depth first, and widgets
    of equal depth in the order the query yields them. */
module WidgetOrder {

  /** A widget component as far as the draw order is concerned: `handle`
      stands for the boxed widget object, `depth` is its `u32` draw depth. */
  datatype Widget = Widget(handle: nat, depth: nat, enabled: bool)

  /** `.filter(|widget| widget.enabled).collect()`: the enabled widgets, in
      query order. */
  function Enabled(widgets: seq<Widget>): seq<Widget>
  {
    if widgets == [] then []
    else (if widgets[0].enabled then [widgets[0]] else []) + Enabled(widgets[1..])
  }

  /** Inserts `w` into a depth-sorted sequence after every widget whose depth
      is not greater than its own. */
  function InsertByDepth(sorted: seq<Widget>, w: Widget): seq<Widget>
  {
    if sorted == [] then [w]
    else if w.depth < sorted[0].depth then [w] + sorted
    else [sorted[0]] + InsertByDepth(sorted[1..], w)
  }

  /** The result of `sort_by(|a, b| a.depth.cmp(&b.depth))`, a stable sort,
      given as an insertion sort that inserts each widget after the ones
      before it of the same depth. */
  function SortByDepth(widgets: seq<Widget>): seq<Widget>
  {
    if widgets == [] then []
    else InsertByDepth(SortByDepth(widgets[..|widgets| - 1]), widgets[|widgets| - 1])
  }

  /** The widgets in the order they are rendered. */
  function ActiveWidgets(widgets: seq<Widget>): seq<Widget>
  {
    SortByDepth(Enabled(widgets))
  }

  predicate SortedByDepth(s: seq<Widget>)
  {
    forall i, j :: 0 <= i < j < |s| ==> s[i].depth <= s[j].depth
  }

  /** The widgets of depth `d`, in the order they appear in `s`. */
  function OfDepth(s: seq<Widget>, d: nat): seq<Widget>
  {
    if s == [] then []
    else (if s[0].depth == d then [s[0]] else []) + OfDepth(s[1..], d)
  }

  lemma {:induction false} EnabledMembers(widgets: seq<Widget>, w: Widget)
    ensures w in Enabled(widgets) <==> w in widgets && w.enabled
  {
    if widgets != [] {
      EnabledMembers(widgets[1..], w);
      assert widgets == [widgets[0]] + widgets[1..];
    }
  }

  lemma {:induction false} InsertByDepthPermutes(sorted: seq<Widget>, w: Widget)
    ensures multiset(InsertByDepth(sorted, w)) == multiset(sorted) + multiset{w}
  {
    if sorted != [] && w.depth >= sorted[0].depth {
      InsertByDepthPermutes(sorted[1..], w);
      assert sorted == [sorted[0]] + sorted[1..];
    }
  }

  lemma {:induction false} InsertByDepthSorted(sorted: seq<Widget>, w: Widget)
    requires SortedByDepth(sorted)
    ensures SortedByDepth(InsertByDepth(sorted, w))
  {
    if sorted != [] && w.depth >= sorted[0].depth {
      var rest := InsertByDepth(sorted[1..], w);
      InsertByDepthSorted(sorted[1..], w);
      InsertByDepthPermutes(sorted[1..], w);
      forall i | 0 <= i < |rest|
        ensures sorted[0].depth <= rest[i].depth
      {
        assert rest[i] in multiset(rest);
        assert rest[i] in multiset(sorted[1..]) || rest[i] == w;
      }
    }
  }

  lemma {:induction false} OfDepthAbsent(s: seq<Widget>, d: nat)
    requires forall i :: 0 <= i < |s| ==> s[i].depth != d
    ensures OfDepth(s, d) == []
  {
    if s != [] {
      OfDepthAbsent(s[1..], d);
    }
  }

  lemma {:induction false} OfDepthAppend(s: seq<Widget>, w: Widget, d: nat)
    ensures OfDepth(s + [w], d) == OfDepth(s, d) + (if w.depth == d then [w] else [])
  {
    if s != [] {
      OfDepthAppend(s[1..], w, d);
      assert (s + [w])[1..] == s[1..] + [w];
    }
  }

  /** Inserting `w` puts it after every widget of its own depth. */
  lemma {:induction false} InsertByDepthOfDepth(sorted: seq<Widget>, w: Widget, d: nat)
    requires SortedByDepth(sorted)
    ensures OfDepth(InsertByDepth(sorted, w), d) == OfDepth(sorted, d) + (if w.depth == d then [w] else [])
  {
    if sorted == [] {
    } else if w.depth < sorted[0].depth {
      if w.depth == d {
        OfDepthAbsent(sorted, d);
      }
      assert ([w] + sorted)[1..] == sorted;
    } else {
      InsertByDepthOfDepth(sorted[1..], w, d);
      assert ([sorted[0]] + InsertByDepth(sorted[1..], w))[1..] == InsertByDepth(sorted[1..], w);
    }
  }

  /** The sort orders by depth, keeps every widget exactly once, and keeps
      widgets of equal depth in their original order (it is stable). */
  lemma {:induction false} SortByDepthCorrect(widgets: seq<Widget>)
    ensures SortedByDepth(SortByDepth(widgets))
    ensures multiset(SortByDepth(widgets)) == multiset(widgets)
    ensures forall d :: OfDepth(SortByDepth(widgets), d) == OfDepth(widgets, d)
  {
    if widgets != [] {
      var n := |widgets|;
      var init, last := widgets[..n - 1], widgets[n - 1];
      SortByDepthCorrect(init);
      InsertByDepthSorted(SortByDepth(init), last);
      InsertByDepthPermutes(SortByDepth(init), last);
      assert widgets == init + [last];
      forall d
        ensures OfDepth(SortByDepth(widgets), d) == OfDepth(widgets, d)
      {
        InsertByDepthOfDepth(SortByDepth(init), last, d);
        OfDepthAppend(init, last, d);
      }
    }
  }

  /** The rendered widgets are exactly the enabled ones, each once, in
      nondecreasing depth; widgets of equal depth keep their query order. */
  lemma ActiveWidgetsOrder(widgets: seq<Widget>)
    ensures SortedByDepth(ActiveWidgets(widgets))
    ensures forall w :: w in ActiveWidgets(widgets) <==> w in widgets && w.enabled
    ensures multiset(ActiveWidgets(widgets)) == multiset(Enabled(widgets))
    ensures forall d :: OfDepth(ActiveWidgets(widgets), d) == OfDepth(Enabled(widgets), d)
  {
    SortByDepthCorrect(Enabled(widgets));
    forall w
      ensures w in ActiveWidgets(widgets) <==> w in widgets && w.enabled
    {
      EnabledMembers(widgets, w);
      assert w in ActiveWidgets(widgets) <==> w in multiset(ActiveWidgets(widgets));
    }
  }
}
