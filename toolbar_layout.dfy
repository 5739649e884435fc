/**
 * The overflow/collapse engine of the `vcf-toolbar-layout` element.
 *
 * The element keeps its slotted items in two ordered containers: the main row
 * (the host's own children) and the overflow container shown in a popover.
 * On every resize a debounced update moves items between the two.  Pixel
 * measurement is abstracted: every item has a natural-number width, and the
 * right edge of the k-th item of the main row is the row's left edge plus the
 * widths of items 0..k (a prefix sum).
 */
module ToolbarLayout {

  /** A slotted child element: `id` stands for its DOM identity, `width` for its measured width. */
  datatype Item = Item(id: nat, width: nat)

  /**
   * What one update measures: the container's right edge, the left edge of the
   * first item of the main row, and the width of the overflow button.
   */
  datatype Geometry = Geometry(containerRight: nat, rowLeft: nat, buttonWidth: nat)

  /**
   * What the layout gives apart from the overflow button: the container's
   * right edge, the left edge of the first slotted item when nothing is placed
   * before it, the width the button renders at while it is shown (what its
   * bounding rectangle reports), and how far a shown button placed before the
   * items pushes them right (its width plus the host's flex gap).
   */
  datatype Box = Box(containerRight: nat, contentLeft: nat, buttonWidth: nat, buttonShift: nat)

  /** The contents of the two containers. */
  datatype Rows = Rows(main: seq<Item>, overflow: seq<Item>)

  /** Default of the `updateDebounceDelay` property, in milliseconds. */
  const DefaultUpdateDebounceDelay: nat := 20

  // ---------------------------------------------------------------------------
  // Measurement

  /** Total width of a row; the right edge of its last item is `rowLeft + Sum(row)`. */
  function Sum(row: seq<Item>): nat
  {
    if row == [] then 0 else Sum(row[..|row| - 1]) + row[|row| - 1].width
  }

  lemma {:induction false} SumAppend(a: seq<Item>, b: seq<Item>)
    ensures Sum(a + b) == Sum(a) + Sum(b)
    decreases |b|
  {
    if b == [] {
      assert a + b == a;
    } else {
      assert (a + b)[..|a + b| - 1] == a + b[..|b| - 1];
      SumAppend(a, b[..|b| - 1]);
    }
  }

  /**
   * `_isElementVisibleInContainer` for the item at index `k` of the main row:
   * its right edge plus `extra` must not pass the container's right edge
   * (equality counts as fitting).
   */
  predicate IsElementVisibleInContainer(g: Geometry, row: seq<Item>, k: nat, extra: nat)
    requires k < |row|
  {
    g.rowLeft + Sum(row[..k + 1]) + extra <= g.containerRight
  }

  /** The last item of `row` is visible with `extra` pixels to spare. */
  predicate Fits(g: Geometry, row: seq<Item>, extra: nat)
  {
    g.rowLeft + Sum(row) + extra <= g.containerRight
  }

  /** Right edges grow along the row: when an item is visible, so is every item before it. */
  lemma VisibleItemsFormPrefix(g: Geometry, row: seq<Item>, j: nat, k: nat, extra: nat)
    requires j <= k < |row|
    requires IsElementVisibleInContainer(g, row, k, extra)
    ensures IsElementVisibleInContainer(g, row, j, extra)
    ensures Fits(g, row[..j + 1], extra)
  {
    assert row[..k + 1] == row[..j + 1] + row[j + 1..k + 1];
    SumAppend(row[..j + 1], row[j + 1..k + 1]);
  }

  lemma LastItemVisible(g: Geometry, row: seq<Item>, extra: nat)
    requires row != []
    ensures IsElementVisibleInContainer(g, row, |row| - 1, extra) <==> Fits(g, row, extra)
  {
    assert row[..|row|] == row;
  }

  // ---------------------------------------------------------------------------
  // Sequence surgery

  /** Items are DOM nodes: no node occurs twice. */
  ghost predicate Distinct(s: seq<Item>)
  {
    forall x :: multiset(s)[x] <= 1
  }

  lemma DistinctAt(s: seq<Item>, i: nat, j: nat)
    requires Distinct(s) && i < j < |s|
    ensures s[i] != s[j]
  {
    assert s == s[..j] + s[j..];
    assert multiset(s)[s[i]] <= 1;
    assert multiset(s) == multiset(s[..j]) + multiset(s[j..]);
    assert s[..j][i] == s[i] && s[j..][0] == s[j];
    assert multiset(s[..j])[s[i]] >= 1 && multiset(s[j..])[s[j]] >= 1;
  }

  lemma DistinctSplit(a: seq<Item>, b: seq<Item>)
    requires Distinct(a + b)
    ensures Distinct(a) && Distinct(b)
    ensures forall x :: x in a ==> x !in b
  {
    assert multiset(a + b) == multiset(a) + multiset(b);
    forall x
      ensures multiset(a)[x] <= 1 && multiset(b)[x] <= 1
      ensures x in a ==> x !in b
    {
      assert multiset(a + b)[x] <= 1;
    }
  }

  /** Array.prototype.indexOf: the first position of `x` in `s`. */
  function IndexOf(s: seq<Item>, x: Item): (k: nat)
    requires x in s
    ensures k < |s| && s[k] == x
    ensures forall j :: 0 <= j < k ==> s[j] != x
  {
    if s[0] == x then 0 else 1 + IndexOf(s[1..], x)
  }

  /** Removal of a node from its parent, and `splice(indexOf(x), 1)` on a local array. */
  function Without(s: seq<Item>, x: Item): seq<Item>
    requires x in s
  {
    var k := IndexOf(s, x);
    s[..k] + s[k + 1..]
  }

  lemma WithoutLast(s: seq<Item>)
    requires Distinct(s) && s != []
    ensures Without(s, s[|s| - 1]) == s[..|s| - 1]
  {
    var k := IndexOf(s, s[|s| - 1]);
    if k < |s| - 1 {
      DistinctAt(s, k, |s| - 1);
    }
  }

  /** Detaching a node removes exactly one occurrence of it. */
  lemma WithoutMultiset(s: seq<Item>, x: Item)
    requires x in s
    ensures multiset(Without(s, x)) + multiset{x} == multiset(s)
  {
    var k := IndexOf(s, x);
    assert s == s[..k] + [x] + s[k + 1..];
  }

  lemma WithoutFirst(s: seq<Item>)
    requires s != []
    ensures Without(s, s[0]) == s[1..]
  {
  }

  /** The `k` items a collapse keeps in the main row: a prefix normally, a suffix in reverse-collapse mode. */
  function Keep(row: seq<Item>, reverse: bool, k: nat): seq<Item>
    requires k <= |row|
  {
    if reverse then row[|row| - k..] else row[..k]
  }

  /** The items a collapse that keeps `k` items moves to the overflow container. */
  function Drop(row: seq<Item>, reverse: bool, k: nat): seq<Item>
    requires k <= |row|
  {
    if reverse then row[..|row| - k] else row[k..]
  }

  /** The main row after `n` items came back from the overflow container. */
  function Grow(row: seq<Item>, ov: seq<Item>, reverse: bool, n: nat): seq<Item>
    requires n <= |ov|
  {
    if reverse then ov[|ov| - n..] + row else row + ov[..n]
  }

  /** The overflow container after `n` of its items went back to the main row. */
  function Remaining(ov: seq<Item>, reverse: bool, n: nat): seq<Item>
    requires n <= |ov|
  {
    if reverse then ov[..|ov| - n] else ov[n..]
  }

  lemma GrowCompose(row: seq<Item>, ov: seq<Item>, reverse: bool, n: nat, m: nat)
    requires n + m <= |ov|
    ensures Grow(Grow(row, ov, reverse, n), Remaining(ov, reverse, n), reverse, m) == Grow(row, ov, reverse, n + m)
    ensures Remaining(Remaining(ov, reverse, n), reverse, m) == Remaining(ov, reverse, n + m)
  {
    if reverse {
      assert ov[|ov| - (n + m)..] == ov[..|ov| - n][|ov| - n - m..] + ov[|ov| - n..];
    } else {
      assert ov[..n + m] == ov[..n] + ov[n..][..m];
    }
  }

  /** Growing by all of `ov` and taking nothing back both restate the two containers in logical order. */
  lemma GrowOrder(row: seq<Item>, ov: seq<Item>, reverse: bool, n: nat)
    requires n <= |ov|
    ensures reverse ==> Remaining(ov, reverse, n) + Grow(row, ov, reverse, n) == ov + row
    ensures !reverse ==> Grow(row, ov, reverse, n) + Remaining(ov, reverse, n) == row + ov
    ensures Grow(row, ov, reverse, 0) == row && Remaining(ov, reverse, 0) == ov
  {
    if reverse {
      assert ov == ov[..|ov| - n] + ov[|ov| - n..];
    } else {
      assert ov == ov[..n] + ov[n..];
    }
  }

  lemma KeepCompose(row: seq<Item>, reverse: bool, k: nat, j: nat)
    requires j <= k <= |row|
    ensures Keep(Keep(row, reverse, k), reverse, j) == Keep(row, reverse, j)
    ensures reverse ==> Drop(row, reverse, j) == Drop(row, reverse, k) + Drop(Keep(row, reverse, k), reverse, j)
    ensures !reverse ==> Drop(row, reverse, j) == Drop(Keep(row, reverse, k), reverse, j) + Drop(row, reverse, k)
  {
    if reverse {
      assert row[|row| - k..][..k - j] == row[|row| - k..|row| - j];
      assert row[..|row| - j] == row[..|row| - k] + row[|row| - k..|row| - j];
      assert row[|row| - k..][k - j..] == row[|row| - j..];
    } else {
      assert row[..k][j..] == row[j..k];
      assert row[j..] == row[j..k] + row[k..];
      assert row[..k][..j] == row[..j];
    }
  }

  lemma KeepOrder(row: seq<Item>, reverse: bool, k: nat)
    requires k <= |row|
    ensures reverse ==> Drop(row, reverse, k) + Keep(row, reverse, k) == row
    ensures !reverse ==> Keep(row, reverse, k) + Drop(row, reverse, k) == row
    ensures Keep(row, reverse, |row|) == row && Drop(row, reverse, |row|) == []
  {
    if reverse {
      assert row == row[..|row| - k] + row[|row| - k..];
    } else {
      assert row == row[..k] + row[k..];
    }
  }

  /** Containers that keep the logical order, with `n` items moved back to the main row, are the grown row and the remaining overflow. */
  lemma GrowFromOrder(row: seq<Item>, ov: seq<Item>, reverse: bool, n: nat, main: seq<Item>, overflow: seq<Item>)
    requires n <= |ov| && |overflow| + n == |ov|
    requires if reverse then overflow + main == ov + row else main + overflow == row + ov
    ensures main == Grow(row, ov, reverse, n) && overflow == Remaining(ov, reverse, n)
  {
    if reverse {
      assert overflow == (ov + row)[..|ov| - n];
      assert main == (ov + row)[|ov| - n..];
      assert (ov + row)[|ov| - n..] == ov[|ov| - n..] + row;
    } else {
      assert main == (row + ov)[..|row| + n];
      assert (row + ov)[..|row| + n] == row + ov[..n];
    }
  }

  /** Containers that keep the logical order, with `k` items left in the main row, are the kept row and the grown overflow. */
  lemma KeepFromOrder(row: seq<Item>, ov: seq<Item>, reverse: bool, main: seq<Item>, overflow: seq<Item>)
    requires |main| <= |row|
    requires if reverse then overflow + main == ov + row else main + overflow == row + ov
    ensures main == Keep(row, reverse, |main|)
    ensures overflow == if reverse then ov + Drop(row, reverse, |main|) else Drop(row, reverse, |main|) + ov
  {
    var k := |main|;
    if reverse {
      assert main == (ov + row)[|ov + row| - k..];
      assert (ov + row)[|ov + row| - k..] == row[|row| - k..];
      assert overflow == (ov + row)[..|ov| + |row| - k];
      assert (ov + row)[..|ov| + |row| - k] == ov + row[..|row| - k];
    } else {
      assert main == (row + ov)[..k];
      assert overflow == (row + ov)[k..];
      assert (row + ov)[k..] == row[k..] + ov;
    }
  }

  // ---------------------------------------------------------------------------
  // The two loops of `_updateOverflowingItems`, as functions

  /**
   * How many items the collapse loop leaves in the main row: it removes items
   * from the collapsing end while the last item does not fit with `extra`
   * reserved, and may empty the row.
   */
  function CollapseKept(g: Geometry, row: seq<Item>, reverse: bool, extra: nat): (k: nat)
    ensures k <= |row|
    decreases |row|
  {
    if row == [] || Fits(g, row, extra) then |row|
    else CollapseKept(g, if reverse then row[1..] else row[..|row| - 1], reverse, extra)
  }

  /** The collapse keeps the largest count whose row fits: that row fits (or is empty) and every longer one does not. */
  lemma {:induction false} CollapseKeptIsLargestFit(g: Geometry, row: seq<Item>, reverse: bool, extra: nat)
    ensures var k := CollapseKept(g, row, reverse, extra);
      && (k == 0 || Fits(g, Keep(row, reverse, k), extra))
      && forall m: nat :: k < m <= |row| ==> !Fits(g, Keep(row, reverse, m), extra)
    decreases |row|
  {
    KeepOrder(row, reverse, |row|);
    if row != [] && !Fits(g, row, extra) {
      var shorter := if reverse then row[1..] else row[..|row| - 1];
      CollapseKeptIsLargestFit(g, shorter, reverse, extra);
      assert shorter == Keep(row, reverse, |row| - 1);
      forall m: nat | m <= |shorter|
        ensures Keep(shorter, reverse, m) == Keep(row, reverse, m)
      {
        KeepCompose(row, reverse, |row| - 1, m);
      }
    }
  }

  /**
   * How many items the expand loop brings back: it takes items from one end of
   * the overflow container while the row with that item added still fits, and
   * stops at the first item that does not.
   */
  function Restored(g: Geometry, row: seq<Item>, ov: seq<Item>, reverse: bool, extra: nat): (n: nat)
    ensures n <= |ov|
    decreases |ov|
  {
    if ov == [] || !Fits(g, Grow(row, ov, reverse, 1), extra) then 0
    else 1 + Restored(g, Grow(row, ov, reverse, 1), Remaining(ov, reverse, 1), reverse, extra)
  }

  /** Every row the expand loop builds on its way fits, and the first one it rejects does not. */
  lemma {:induction false} RestoredStopsAtFirstMisfit(g: Geometry, row: seq<Item>, ov: seq<Item>, reverse: bool, extra: nat)
    ensures var n := Restored(g, row, ov, reverse, extra);
      && (forall m: nat :: 0 < m <= n ==> Fits(g, Grow(row, ov, reverse, m), extra))
      && (n < |ov| ==> !Fits(g, Grow(row, ov, reverse, n + 1), extra))
    decreases |ov|
  {
    if ov != [] && Fits(g, Grow(row, ov, reverse, 1), extra) {
      var next, rest := Grow(row, ov, reverse, 1), Remaining(ov, reverse, 1);
      RestoredStopsAtFirstMisfit(g, next, rest, reverse, extra);
      assert Restored(g, row, ov, reverse, extra) == 1 + Restored(g, next, rest, reverse, extra);
      forall m: nat | 1 <= m <= |rest| + 1
        ensures Grow(next, rest, reverse, m - 1) == Grow(row, ov, reverse, m)
      {
        GrowCompose(row, ov, reverse, 1, m - 1);
      }
    }
  }

  /** The branch choice of `_updateOverflowingItems`: expand when the row is empty or its last item fits with the button reserved. */
  predicate ShouldExpand(g: Geometry, main: seq<Item>)
  {
    main == [] || Fits(g, main, g.buttonWidth)
  }

  /** The reserve the collapse loop uses: none in reverse mode while the button is already visible. */
  function CollapseReserve(g: Geometry, reverse: bool, buttonVisible: bool): nat
  {
    if reverse && buttonVisible then 0 else g.buttonWidth
  }

  /**
   * The effect of one `_updateOverflowingItems` on the two containers.  It
   * keeps the logical order of all items (main row then overflow normally,
   * overflow then main row in reverse-collapse mode) and moves items in one
   * direction only, chosen once by `ShouldExpand`.
   */
  function Update(g: Geometry, main: seq<Item>, overflow: seq<Item>, reverse: bool, buttonVisible: bool): (r: Rows)
    ensures if reverse then r.overflow + r.main == overflow + main else r.main + r.overflow == main + overflow
    ensures ShouldExpand(g, main) ==> |r.main| >= |main| && |r.overflow| <= |overflow|
    ensures !ShouldExpand(g, main) ==> |r.main| <= |main| && |r.overflow| >= |overflow|
  {
    if ShouldExpand(g, main) then
      var n := Restored(g, main, overflow, reverse, g.buttonWidth);
      GrowOrder(main, overflow, reverse, n);
      Rows(Grow(main, overflow, reverse, n), Remaining(overflow, reverse, n))
    else
      var k := CollapseKept(g, main, reverse, CollapseReserve(g, reverse, buttonVisible));
      var kept, dropped := Keep(main, reverse, k), Drop(main, reverse, k);
      KeepOrder(main, reverse, k);
      assert reverse ==> (overflow + dropped) + kept == overflow + (dropped + kept);
      assert !reverse ==> kept + (dropped + overflow) == (kept + dropped) + overflow;
      Rows(kept, if reverse then overflow + dropped else dropped + overflow)
  }

  // ---------------------------------------------------------------------------
  // Properties of one update

  /** No item is lost or duplicated by an update. */
  lemma UpdateIsPermutation(g: Geometry, main: seq<Item>, overflow: seq<Item>, reverse: bool, buttonVisible: bool)
    ensures var r := Update(g, main, overflow, reverse, buttonVisible);
      multiset(r.main + r.overflow) == multiset(main + overflow)
  {
    var r := Update(g, main, overflow, reverse, buttonVisible);
    if reverse {
      assert r.overflow + r.main == overflow + main;
      calc {
        multiset(r.main + r.overflow);
        multiset(r.main) + multiset(r.overflow);
        multiset(r.overflow + r.main);
        multiset(overflow) + multiset(main);
        multiset(main + overflow);
      }
    } else {
      assert r.main + r.overflow == main + overflow;
    }
  }

  /** After an update the main row is empty or its last item fits with the reserve of the branch taken. */
  lemma UpdatedRowFits(g: Geometry, main: seq<Item>, overflow: seq<Item>, reverse: bool, buttonVisible: bool)
    ensures var r := Update(g, main, overflow, reverse, buttonVisible);
      && (ShouldExpand(g, main) ==> r.main == [] || Fits(g, r.main, g.buttonWidth))
      && (!ShouldExpand(g, main) ==> r.main == [] || Fits(g, r.main, CollapseReserve(g, reverse, buttonVisible)))
  {
    RestoredStopsAtFirstMisfit(g, main, overflow, reverse, g.buttonWidth);
    CollapseKeptIsLargestFit(g, main, reverse, CollapseReserve(g, reverse, buttonVisible));
    if ShouldExpand(g, main) {
      var n := Restored(g, main, overflow, reverse, g.buttonWidth);
      if n == 0 {
        assert Grow(main, overflow, reverse, 0) == main;
      }
    }
  }

  /**
   * An update stops at the first misfit: after an expand the next overflow
   * item would not fit; after a collapse that moved items, putting back the
   * last one moved would not fit.
   */
  lemma UpdateStopsAtFirstMisfit(g: Geometry, main: seq<Item>, overflow: seq<Item>, reverse: bool, buttonVisible: bool)
    ensures var r := Update(g, main, overflow, reverse, buttonVisible);
      && (ShouldExpand(g, main) && r.overflow != [] ==>
            !Fits(g, Grow(r.main, r.overflow, reverse, 1), g.buttonWidth))
      && (!ShouldExpand(g, main) && |r.main| < |main| ==>
            !Fits(g, Keep(main, reverse, |r.main| + 1), CollapseReserve(g, reverse, buttonVisible)))
  {
    var r := Update(g, main, overflow, reverse, buttonVisible);
    if ShouldExpand(g, main) {
      RestoredStopsAtFirstMisfit(g, main, overflow, reverse, g.buttonWidth);
      var n := Restored(g, main, overflow, reverse, g.buttonWidth);
      if n < |overflow| {
        GrowCompose(main, overflow, reverse, n, 1);
      }
    } else {
      var extra := CollapseReserve(g, reverse, buttonVisible);
      CollapseKeptIsLargestFit(g, main, reverse, extra);
      assert |r.main| == CollapseKept(g, main, reverse, extra);
    }
  }

  /** A wider container never brings back fewer items. */
  lemma RestoredMonotoneInWidth(g: Geometry, wider: nat, row: seq<Item>, ov: seq<Item>, reverse: bool, extra: nat)
    requires g.containerRight <= wider
    ensures Restored(g, row, ov, reverse, extra) <= Restored(g.(containerRight := wider), row, ov, reverse, extra)
  {
    var h := g.(containerRight := wider);
    var n1 := Restored(g, row, ov, reverse, extra);
    var n2 := Restored(h, row, ov, reverse, extra);
    RestoredStopsAtFirstMisfit(g, row, ov, reverse, extra);
    RestoredStopsAtFirstMisfit(h, row, ov, reverse, extra);
    assert n2 + 1 <= n1 ==> Fits(h, Grow(row, ov, reverse, n2 + 1), extra);
  }

  /** A wider container never keeps fewer items when collapsing. */
  lemma CollapseKeptMonotoneInWidth(g: Geometry, wider: nat, row: seq<Item>, reverse: bool, extra: nat)
    requires g.containerRight <= wider
    ensures CollapseKept(g, row, reverse, extra) <= CollapseKept(g.(containerRight := wider), row, reverse, extra)
  {
    var h := g.(containerRight := wider);
    var k1 := CollapseKept(g, row, reverse, extra);
    var k2 := CollapseKept(h, row, reverse, extra);
    CollapseKeptIsLargestFit(g, row, reverse, extra);
    CollapseKeptIsLargestFit(h, row, reverse, extra);
    assert k2 < k1 ==> Fits(h, Keep(row, reverse, k1), extra);
  }

  /** A wider container never leaves fewer items in the main row. */
  lemma UpdateMonotoneInWidth(g: Geometry, wider: nat, main: seq<Item>, overflow: seq<Item>, reverse: bool, buttonVisible: bool)
    requires g.containerRight <= wider
    ensures |Update(g, main, overflow, reverse, buttonVisible).main|
         <= |Update(g.(containerRight := wider), main, overflow, reverse, buttonVisible).main|
  {
    var h := g.(containerRight := wider);
    var extra := CollapseReserve(g, reverse, buttonVisible);
    assert CollapseReserve(h, reverse, buttonVisible) == extra;
    if ShouldExpand(g, main) {
      assert ShouldExpand(h, main);
      RestoredMonotoneInWidth(g, wider, main, overflow, reverse, g.buttonWidth);
    } else if !ShouldExpand(h, main) {
      CollapseKeptMonotoneInWidth(g, wider, main, reverse, extra);
    }
  }

  /** Putting back the last item a collapse moved out rebuilds the row that kept one item more. */
  lemma PutBackAfterCollapse(main: seq<Item>, overflow: seq<Item>, reverse: bool, k: nat)
    requires k < |main|
    ensures var ov := if reverse then overflow + Drop(main, reverse, k) else Drop(main, reverse, k) + overflow;
      Grow(Keep(main, reverse, k), ov, reverse, 1) == Keep(main, reverse, k + 1)
  {
    if reverse {
      var ov := overflow + Drop(main, reverse, k);
      assert ov[|ov| - 1..] == [main[|main| - k - 1]];
      assert main[|main| - (k + 1)..] == [main[|main| - k - 1]] + main[|main| - k..];
    } else {
      var ov := Drop(main, reverse, k) + overflow;
      assert ov[..1] == [main[k]];
      assert main[..k + 1] == main[..k] + [main[k]];
    }
  }

  /** An update whose chosen loop stops at once leaves both containers as they are. */
  lemma UpdateMovesNothing(g: Geometry, main: seq<Item>, overflow: seq<Item>, reverse: bool, buttonVisible: bool)
    requires ShouldExpand(g, main) ==> Restored(g, main, overflow, reverse, g.buttonWidth) == 0
    requires !ShouldExpand(g, main) ==> CollapseKept(g, main, reverse, CollapseReserve(g, reverse, buttonVisible)) == |main|
    ensures Update(g, main, overflow, reverse, buttonVisible) == Rows(main, overflow)
  {
    GrowOrder(main, overflow, reverse, 0);
    KeepOrder(main, reverse, |main|);
    assert overflow + [] == overflow && [] + overflow == overflow;
  }

  /** After an expand, the main row still counts as fitting and no further overflow item would fit. */
  lemma ExpandLeavesNothingToRestore(g: Geometry, main: seq<Item>, overflow: seq<Item>, reverse: bool, buttonVisible: bool)
    requires ShouldExpand(g, main)
    ensures ShouldExpand(g, Update(g, main, overflow, reverse, buttonVisible).main)
    ensures Restored(g, Update(g, main, overflow, reverse, buttonVisible).main,
                     Update(g, main, overflow, reverse, buttonVisible).overflow, reverse, g.buttonWidth) == 0
  {
    var B := g.buttonWidth;
    var n := Restored(g, main, overflow, reverse, B);
    var grown, left := Grow(main, overflow, reverse, n), Remaining(overflow, reverse, n);
    assert Update(g, main, overflow, reverse, buttonVisible) == Rows(grown, left);
    assert ShouldExpand(g, grown) by {
      RestoredStopsAtFirstMisfit(g, main, overflow, reverse, B);
      GrowOrder(main, overflow, reverse, 0);
    }
    if left != [] {
      assert !Fits(g, Grow(grown, left, reverse, 1), B) by {
        RestoredStopsAtFirstMisfit(g, main, overflow, reverse, B);
        GrowCompose(main, overflow, reverse, n, 1);
      }
    }
  }

  lemma SecondUpdateAfterExpand(g: Geometry, main: seq<Item>, overflow: seq<Item>, reverse: bool, buttonVisible: bool, visibleAfter: bool)
    requires ShouldExpand(g, main)
    ensures var r := Update(g, main, overflow, reverse, buttonVisible);
      Update(g, r.main, r.overflow, reverse, visibleAfter) == r
  {
    var r := Update(g, main, overflow, reverse, buttonVisible);
    ExpandLeavesNothingToRestore(g, main, overflow, reverse, buttonVisible);
    UpdateMovesNothing(g, r.main, r.overflow, reverse, visibleAfter);
  }

  /**
   * After a collapse, with the button shown exactly when items overflow, the
   * next update finds nothing to do: either the last item moved out would still
   * not fit, or the kept row fits with the reserve that applies then.
   */
  lemma CollapseLeavesNothingToMove(g: Geometry, main: seq<Item>, overflow: seq<Item>, reverse: bool, buttonVisible: bool)
    requires !ShouldExpand(g, main)
    requires buttonVisible == (overflow != [])
    ensures var r := Update(g, main, overflow, reverse, buttonVisible);
      && (ShouldExpand(g, r.main) ==> Restored(g, r.main, r.overflow, reverse, g.buttonWidth) == 0)
      && (!ShouldExpand(g, r.main) ==> CollapseKept(g, r.main, reverse, CollapseReserve(g, reverse, r.overflow != [])) == |r.main|)
  {
    var B := g.buttonWidth;
    var extra := CollapseReserve(g, reverse, buttonVisible);
    var k := CollapseKept(g, main, reverse, extra);
    var r := Update(g, main, overflow, reverse, buttonVisible);
    var ov := if reverse then overflow + Drop(main, reverse, k) else Drop(main, reverse, k) + overflow;
    assert r == Rows(Keep(main, reverse, k), ov);
    CollapseKeptIsLargestFit(g, main, reverse, extra);
    KeepOrder(main, reverse, k);
    if ShouldExpand(g, r.main) {
      // the row changed, so the collapse moved at least one item out
      assert k < |main|;
      PutBackAfterCollapse(main, overflow, reverse, k);
      assert !Fits(g, Grow(r.main, r.overflow, reverse, 1), B);
    } else {
      // only a reverse-mode collapse with the button already visible reserves nothing
      assert extra < B;
      assert r.overflow != [];
      assert CollapseReserve(g, reverse, true) == extra;
    }
  }

  lemma SecondUpdateAfterCollapse(g: Geometry, main: seq<Item>, overflow: seq<Item>, reverse: bool, buttonVisible: bool)
    requires !ShouldExpand(g, main)
    requires buttonVisible == (overflow != [])
    ensures var r := Update(g, main, overflow, reverse, buttonVisible);
      Update(g, r.main, r.overflow, reverse, r.overflow != []) == r
  {
    var r := Update(g, main, overflow, reverse, buttonVisible);
    CollapseLeavesNothingToMove(g, main, overflow, reverse, buttonVisible);
    UpdateMovesNothing(g, r.main, r.overflow, reverse, r.overflow != []);
  }

  /**
   * With unchanged geometry, a second update moves nothing, provided the button
   * state matched the overflow container before the first one.
   */
  lemma UpdateIdempotent(g: Geometry, main: seq<Item>, overflow: seq<Item>, reverse: bool, buttonVisible: bool)
    requires buttonVisible == (overflow != [])
    ensures var r := Update(g, main, overflow, reverse, buttonVisible);
      Update(g, r.main, r.overflow, reverse, r.overflow != []) == r
  {
    var r := Update(g, main, overflow, reverse, buttonVisible);
    if ShouldExpand(g, main) {
      SecondUpdateAfterExpand(g, main, overflow, reverse, buttonVisible, r.overflow != []);
    } else {
      SecondUpdateAfterCollapse(g, main, overflow, reverse, buttonVisible);
    }
  }

  // ---------------------------------------------------------------------------
  // Two updates with the button measured as the element measures it

  /**
   * What `_updateOverflowingItems` measures.  The button is `display: none`
   * until it has the `visible` class, so a hidden button measures 0; in
   * reverse-collapse mode a shown button is ordered first and pushes the row
   * right by its shift.
   */
  function Measure(box: Box, reverse: bool, buttonVisible: bool): Geometry
  {
    Geometry(box.containerRight,
             if reverse && buttonVisible then box.contentLeft + box.buttonShift else box.contentLeft,
             if buttonVisible then box.buttonWidth else 0)
  }

  /**
   * With the button measured as the element does, a second update on the same
   * layout moves nothing, unless the first update is the one that showed the
   * button.
   */
  lemma MeasuredUpdateSettles(box: Box, main: seq<Item>, overflow: seq<Item>, reverse: bool)
    requires overflow != [] || Update(Measure(box, reverse, false), main, overflow, reverse, false).overflow == []
    ensures var r := Update(Measure(box, reverse, overflow != []), main, overflow, reverse, overflow != []);
      Update(Measure(box, reverse, r.overflow != []), r.main, r.overflow, reverse, r.overflow != []) == r
  {
    var shown := overflow != [];
    var g := Measure(box, reverse, shown);
    var r := Update(g, main, overflow, reverse, shown);
    if (r.overflow != []) == shown {
      UpdateIdempotent(g, main, overflow, reverse, shown);
    } else {
      // the overflow container was emptied, which only the expand loop does;
      // hiding the button then frees its reserve and, in reverse mode, its place
      assert ShouldExpand(g, main);
      var hidden := Measure(box, reverse, false);
      ExpandLeavesNothingToRestore(g, main, overflow, reverse, shown);
      assert ShouldExpand(hidden, r.main);
      UpdateMovesNothing(hidden, r.main, r.overflow, reverse, false);
    }
  }

  /**
   * The update that shows the button measured it hidden, at width 0, so it
   * kept a row with no room for the button; the next update on the same
   * layout reserves the button and moves one more item out.
   */
  lemma MeasuredSecondUpdateCollapsesMore()
    ensures var items := [Item(1, 50), Item(2, 50), Item(3, 50), Item(4, 50)];
      && Update(Measure(Box(110, 0, 20, 24), false, false), items, [], false, false) == Rows(items[..2], items[2..])
      && Update(Measure(Box(110, 0, 20, 24), false, true), items[..2], items[2..], false, true) == Rows(items[..1], items[1..])
  {
    var items := [Item(1, 50), Item(2, 50), Item(3, 50), Item(4, 50)];
    var g1, g2 := Geometry(110, 0, 0), Geometry(110, 0, 20);
    SumUniform(items, 50);
    SumUniform(items[..1], 50);
    SumUniform(items[..2], 50);
    SumUniform(items[..3], 50);
    assert !ShouldExpand(g1, items) && !ShouldExpand(g2, items[..2]);
    assert Keep(items, false, 2) == items[..2] && Keep(items, false, 3) == items[..3];
    var k := CollapseKept(g1, items, false, 0);
    assert k == 2 by {
      CollapseKeptIsLargestFit(g1, items, false, 0);
      KeepOrder(items, false, k);
      assert k != 3 && k != 4;
    }
    var j := CollapseKept(g2, items[..2], false, 20);
    assert j == 1 by {
      CollapseKeptIsLargestFit(g2, items[..2], false, 20);
      KeepOrder(items[..2], false, j);
      assert Keep(items[..2], false, 1) == items[..1] && Keep(items[..2], false, 2) == items[..2];
      assert j != 2;
    }
    assert Drop(items[..2], false, 1) + items[2..] == items[1..];
  }

  /** The four-items scenario: widths 50, row from 0 to 140, button 20 keeps two items. */
  lemma ScenarioFourItems()
    ensures var items := [Item(1, 50), Item(2, 50), Item(3, 50), Item(4, 50)];
      && Update(Geometry(140, 0, 20), items, [], false, false) == Rows(items[..2], items[2..])
      && Update(Geometry(140, 0, 20), items, [], true, false) == Rows(items[2..], items[..2])
  {
    var items := [Item(1, 50), Item(2, 50), Item(3, 50), Item(4, 50)];
    var g := Geometry(140, 0, 20);
    SumUniform(items, 50);
    SumUniform(items[..2], 50);
    SumUniform(items[..3], 50);
    SumUniform(items[2..], 50);
    SumUniform(items[1..], 50);
    assert !ShouldExpand(g, items);
    assert Keep(items, false, 2) == items[..2] && Keep(items, false, 3) == items[..3];
    assert Keep(items, true, 2) == items[2..] && Keep(items, true, 3) == items[1..];
    var k := CollapseKept(g, items, false, 20);
    assert k == 2 by {
      CollapseKeptIsLargestFit(g, items, false, 20);
      KeepOrder(items, false, k);
      assert k != 3 && k != 4;
    }
    var j := CollapseKept(g, items, true, 20);
    assert j == 2 by {
      CollapseKeptIsLargestFit(g, items, true, 20);
      KeepOrder(items, true, j);
      assert j != 3 && j != 4;
    }
    assert items[..2] + items[2..] == items;
  }

  lemma {:induction false} SumUniform(row: seq<Item>, w: nat)
    requires forall i :: 0 <= i < |row| ==> row[i].width == w
    ensures Sum(row) == |row| * w
    decreases |row|
  {
    if row != [] {
      SumUniform(row[..|row| - 1], w);
    }
  }

  /** The main row can be emptied: an item wider than the container is moved out too. */
  lemma CollapseCanEmptyRow()
    ensures Update(Geometry(10, 0, 0), [Item(0, 50)], [], false, false) == Rows([], [Item(0, 50)])
  {
    assert Sum([Item(0, 50)]) == 50;
    assert CollapseKept(Geometry(10, 0, 0), [Item(0, 50)], false, 0) == 0;
  }

  // ---------------------------------------------------------------------------
  // One iteration of each loop, on values

  /** The overflow item the expand loop tries next: the last one in reverse mode, the first one otherwise. */
  function NextRestored(ov: seq<Item>, reverse: bool): Item
    requires ov != []
  {
    if reverse then ov[|ov| - 1] else ov[0]
  }

  /** Moving the next overflow item to the main row grows the row by one at the restoring end and keeps the logical order. */
  lemma ExpandOrder(row: seq<Item>, ov: seq<Item>, reverse: bool)
    requires ov != []
    ensures var x := NextRestored(ov, reverse);
      && Grow(row, ov, reverse, 1) == (if reverse then [x] + row else row + [x])
      && (reverse ==> Remaining(ov, reverse, 1) + [x] == ov)
      && (!reverse ==> [x] + Remaining(ov, reverse, 1) == ov)
      && (reverse ==> Remaining(ov, reverse, 1) + ([x] + row) == ov + row)
      && (!reverse ==> (row + [x]) + Remaining(ov, reverse, 1) == row + ov)
  {
    if reverse {
      assert ov == ov[..|ov| - 1] + [ov[|ov| - 1]];
    } else {
      assert ov == [ov[0]] + ov[1..];
    }
  }

  /** With distinct items, detaching the next overflow item leaves the rest of the container, and detaching it again from the grown row gives the row back. */
  lemma ExpandRemoval(row: seq<Item>, ov: seq<Item>, reverse: bool)
    requires Distinct(row + ov) && ov != []
    ensures var x := NextRestored(ov, reverse);
      && Without(ov, x) == Remaining(ov, reverse, 1)
      && (!reverse ==> IndexOf(row + [x], x) == |row|)
      && Without(if reverse then [x] + row else row + [x], x) == row
  {
    var x := NextRestored(ov, reverse);
    DistinctSplit(row, ov);
    if reverse {
      WithoutLast(ov);
      WithoutFirst([x] + row);
      assert ([x] + row)[1..] == row;
    } else {
      WithoutFirst(ov);
      AppendFresh(row, x);
    }
  }

  /** One unfolding of `Restored`: either the next item fits and the count goes on from the grown row, or nothing comes back. */
  lemma RestoredStep(g: Geometry, row: seq<Item>, ov: seq<Item>, reverse: bool, extra: nat)
    requires ov != []
    ensures Restored(g, row, ov, reverse, extra)
         == if Fits(g, Grow(row, ov, reverse, 1), extra)
            then 1 + Restored(g, Grow(row, ov, reverse, 1), Remaining(ov, reverse, 1), reverse, extra)
            else 0
  {
  }

  /** One unfolding of `CollapseKept`: a row that fits is kept whole, otherwise the count is that of the row one item shorter. */
  lemma CollapseKeptStep(g: Geometry, row: seq<Item>, reverse: bool, extra: nat)
    requires row != []
    ensures CollapseKept(g, row, reverse, extra)
         == if Fits(g, row, extra) then |row| else CollapseKept(g, Keep(row, reverse, |row| - 1), reverse, extra)
  {
  }

  /** Appending an item not yet in a row: it is found at the end, and removing it gives the row back. */
  lemma AppendFresh(row: seq<Item>, x: Item)
    requires x !in row
    ensures IndexOf(row + [x], x) == |row|
    ensures Without(row + [x], x) == row
  {
    var k := IndexOf(row + [x], x);
    assert forall j :: 0 <= j < |row| ==> (row + [x])[j] != x;
    assert (row + [x])[..|row|] == row;
  }

  /** The collapse loop moves out the first item in reverse mode and the last one otherwise; either way the logical order is kept. */
  lemma CollapseOrder(row: seq<Item>, ov: seq<Item>, reverse: bool)
    requires row != []
    ensures Keep(row, reverse, |row| - 1) == if reverse then row[1..] else row[..|row| - 1]
    ensures reverse ==> (ov + [row[0]]) + Keep(row, reverse, |row| - 1) == ov + row
    ensures !reverse ==> Keep(row, reverse, |row| - 1) + ([row[|row| - 1]] + ov) == row + ov
  {
    if reverse {
      assert row == [row[0]] + row[1..];
    } else {
      assert row == row[..|row| - 1] + [row[|row| - 1]];
    }
  }

  /** With distinct items, the last item of the row is found at the end, and detaching the collapsing item keeps one item fewer. */
  lemma CollapseRemoval(row: seq<Item>, ov: seq<Item>, reverse: bool)
    requires Distinct(row + ov) && row != []
    ensures IndexOf(row, row[|row| - 1]) == |row| - 1
    ensures Without(row, if reverse then row[0] else row[|row| - 1]) == Keep(row, reverse, |row| - 1)
  {
    DistinctSplit(row, ov);
    var k := IndexOf(row, row[|row| - 1]);
    if k < |row| - 1 {
      DistinctAt(row, k, |row| - 1);
    }
    assert row[|row|..] == [];
    WithoutFirst(row);
  }

  // ---------------------------------------------------------------------------
  // The element

  class Toolbar {
    /** The host's children, left to right. */
    var main: seq<Item>
    /** The children of the overflow container, top to bottom. */
    var overflow: seq<Item>
    /** The `reverseCollapse` property. */
    var reverse: bool
    /** Whether the overflow button carries the `visible` class. */
    var buttonVisible: bool
    /** Whether a debounce timer is armed and has neither fired nor been cleared. */
    var pending: bool
    /** The `updateDebounceDelay` property. */
    var delay: nat
    /** The delay the armed timer was given. */
    var armedDelay: nat

    ghost predicate Valid()
      reads this
    {
      Distinct(main + overflow)
    }

    /** The logical order of all items: the order they have when nothing is collapsed. */
    function Logical(): seq<Item>
      reads this
    {
      if reverse then overflow + main else main + overflow
    }

    constructor (items: seq<Item>)
      requires Distinct(items)
      ensures Valid()
      ensures main == items && overflow == []
      ensures !reverse && !buttonVisible && !pending
      ensures delay == DefaultUpdateDebounceDelay
    {
      main := items;
      overflow := [];
      reverse := false;
      buttonVisible := false;
      pending := false;
      delay := DefaultUpdateDebounceDelay;
      armedDelay := 0;
      assert items + [] == items;
    }

    /** `_moveItemToOverflowContainer`: detach from the main row; append in reverse mode, prepend otherwise. */
    method MoveItemToOverflowContainer(item: Item)
      requires Valid() && item in main
      modifies this`main, this`overflow
      ensures Valid()
      ensures main == Without(old(main), item)
      ensures overflow == if reverse then old(overflow) + [item] else [item] + old(overflow)
    {
      ghost var m0, o0 := main, overflow;
      main := Without(main, item);
      if reverse {
        overflow := overflow + [item];
      } else {
        overflow := [item] + overflow;
      }
      assert multiset(main + overflow) == multiset(m0 + o0) by {
        WithoutMultiset(m0, item);
      }
    }

    /** `_moveItemToMainContainer`: detach from the overflow container; prepend in reverse mode, append otherwise. */
    method MoveItemToMainContainer(item: Item)
      requires Valid() && item in overflow
      modifies this`main, this`overflow
      ensures Valid()
      ensures overflow == Without(old(overflow), item)
      ensures main == if reverse then [item] + old(main) else old(main) + [item]
    {
      ghost var m0, o0 := main, overflow;
      overflow := Without(overflow, item);
      if reverse {
        main := [item] + main;
      } else {
        main := main + [item];
      }
      assert multiset(main + overflow) == multiset(m0 + o0) by {
        WithoutMultiset(o0, item);
      }
    }

    function IsOverflowButtonVisible(): bool
      reads this
    {
      buttonVisible
    }

    /** `_updateOverflowButtonState`: the button is visible exactly when the overflow container has items. */
    method UpdateOverflowButtonState()
      modifies this`buttonVisible
      ensures buttonVisible == (overflow != [])
    {
      buttonVisible := overflow != [];
    }

    /**
     * `_updateOverflowingItems`: measure once (the button as it is shown or
     * hidden now), then either bring items back from the overflow container or
     * move items out of the main row, then sync the overflow button.
     */
    method UpdateOverflowingItems(box: Box)
      requires Valid()
      modifies this`main, this`overflow, this`buttonVisible
      ensures Valid()
      ensures Rows(main, overflow) == Update(Measure(box, reverse, old(buttonVisible)), old(main), old(overflow), reverse, old(buttonVisible))
      ensures Logical() == old(Logical())
      ensures buttonVisible == (overflow != [])
    {
      ghost var M, O := main, overflow;
      var g := Measure(box, reverse, IsOverflowButtonVisible());
      var visibleItems := main;
      if visibleItems == [] || IsElementVisibleInContainer(g, main, |visibleItems| - 1, g.buttonWidth) {
        if visibleItems != [] {
          LastItemVisible(g, main, g.buttonWidth);
        }
        RestoreOverflowedItems(g);
      } else {
        LastItemVisible(g, main, g.buttonWidth);
        CollapseVisibleItems(g);
      }
      UpdateOverflowButtonState();
    }

    /** The expand loop of `_updateOverflowingItems`: move overflow items back one at a time until one does not fit. */
    method RestoreOverflowedItems(g: Geometry)
      requires Valid()
      modifies this`main, this`overflow
      ensures Valid()
      ensures main == Grow(old(main), old(overflow), reverse, Restored(g, old(main), old(overflow), reverse, g.buttonWidth))
      ensures overflow == Remaining(old(overflow), reverse, Restored(g, old(main), old(overflow), reverse, g.buttonWidth))
    {
      ghost var M, O, L := main, overflow, Logical();
      var overflowedItems := overflow;
      ghost var total := Restored(g, main, overflow, reverse, g.buttonWidth);
      ghost var n := 0;
      while overflowedItems != []
        invariant Valid()
        invariant overflowedItems == overflow
        invariant Logical() == L
        invariant |overflow| + n == |O|
        invariant n + Restored(g, main, overflow, reverse, g.buttonWidth) == total
        decreases |overflowedItems|
      {
        ghost var m0, o0 := main, overflow;
        var overflowedItem := if reverse then overflowedItems[|overflowedItems| - 1] else overflowedItems[0];
        assert Without(o0, overflowedItem) == Remaining(o0, reverse, 1) by {
          ExpandRemoval(m0, o0, reverse);
        }
        var fits := TryRestoreItem(g, overflowedItem);
        if !fits {
          assert n == total by {
            RestoredStep(g, m0, o0, reverse, g.buttonWidth);
          }
          break;
        }
        assert total == n + 1 + Restored(g, main, overflow, reverse, g.buttonWidth) by {
          RestoredStep(g, m0, o0, reverse, g.buttonWidth);
        }
        // remove from the overflowed items
        overflowedItems := Without(overflowedItems, overflowedItem);
        n := n + 1;
        assert Logical() == L by {
          ExpandOrder(m0, o0, reverse);
        }
      }
      assert n == total;
      GrowFromOrder(M, O, reverse, total, main, overflow);
    }

    /**
     * One pass of the expand loop: temporarily move the next overflow item to
     * the main row, then check the row's last item; if it is clipped, move the
     * item back.  The result says whether the item stayed.
     */
    method TryRestoreItem(g: Geometry, overflowedItem: Item) returns (fits: bool)
      requires Valid() && overflow != [] && overflowedItem == NextRestored(overflow, reverse)
      modifies this`main, this`overflow
      ensures Valid()
      ensures fits == Fits(g, Grow(old(main), old(overflow), reverse, 1), g.buttonWidth)
      ensures fits ==> main == Grow(old(main), old(overflow), reverse, 1) && overflow == Remaining(old(overflow), reverse, 1)
      ensures !fits ==> main == old(main) && overflow == old(overflow)
    {
      ghost var m0, o0 := main, overflow;
      ghost var grown := Grow(m0, o0, reverse, 1);
      assert && grown == (if reverse then [overflowedItem] + m0 else m0 + [overflowedItem])
             && (reverse ==> Remaining(o0, reverse, 1) + [overflowedItem] == o0)
             && (!reverse ==> [overflowedItem] + Remaining(o0, reverse, 1) == o0) by {
        ExpandOrder(m0, o0, reverse);
      }
      assert && Without(o0, overflowedItem) == Remaining(o0, reverse, 1)
             && (!reverse ==> IndexOf(grown, overflowedItem) == |m0|)
             && Without(grown, overflowedItem) == m0 by {
        ExpandRemoval(m0, o0, reverse);
      }
      MoveItemToMainContainer(overflowedItem);
      // check the right-most visible item for clipping
      var updatedVisibleItems := main;
      var lastIndex := if reverse then |updatedVisibleItems| - 1 else IndexOf(main, overflowedItem);
      assert IsElementVisibleInContainer(g, main, |main| - 1, g.buttonWidth) == Fits(g, grown, g.buttonWidth) by {
        LastItemVisible(g, main, g.buttonWidth);
      }
      fits := IsElementVisibleInContainer(g, main, lastIndex, g.buttonWidth);
      if !fits {
        MoveItemToOverflowContainer(overflowedItem);
      }
    }

    /** The collapse loop of `_updateOverflowingItems`: move items out from the collapsing end while the row's last item does not fit. */
    method CollapseVisibleItems(g: Geometry)
      requires Valid()
      modifies this`main, this`overflow
      ensures Valid()
      ensures var k := CollapseKept(g, old(main), reverse, CollapseReserve(g, reverse, buttonVisible));
        && main == Keep(old(main), reverse, k)
        && overflow == if reverse then old(overflow) + Drop(old(main), reverse, k) else Drop(old(main), reverse, k) + old(overflow)
    {
      ghost var M, O, L := main, overflow, Logical();
      var visibleItems := main;
      ghost var extra := CollapseReserve(g, reverse, buttonVisible);
      ghost var kept := CollapseKept(g, main, reverse, extra);
      while visibleItems != []
        invariant Valid()
        invariant visibleItems == main
        invariant Logical() == L
        invariant |main| <= |M|
        invariant CollapseKept(g, main, reverse, extra) == kept
        decreases |visibleItems|
      {
        ghost var m0, o0 := main, overflow;
        var collapsed := TryCollapseItem(g);
        if !collapsed {
          assert kept == |main| by {
            CollapseKeptStep(g, m0, reverse, extra);
          }
          break;
        }
        assert kept == CollapseKept(g, main, reverse, extra) by {
          CollapseKeptStep(g, m0, reverse, extra);
        }
        // remove from the visible items
        visibleItems := main;
        assert Logical() == L by {
          CollapseOrder(m0, o0, reverse);
        }
      }
      assert kept == |main|;
      KeepFromOrder(M, O, reverse, main, overflow);
    }

    /**
     * One pass of the collapse loop: if the row's last item is clipped (with the
     * button's width reserved unless the button sits on the left), move the item
     * at the collapsing end to the overflow container.  The result says whether
     * an item moved.
     */
    method TryCollapseItem(g: Geometry) returns (collapsed: bool)
      requires Valid() && main != []
      modifies this`main, this`overflow
      ensures Valid()
      ensures collapsed == !Fits(g, old(main), CollapseReserve(g, reverse, buttonVisible))
      ensures collapsed ==> main == Keep(old(main), reverse, |old(main)| - 1)
      ensures collapsed && reverse ==> overflow == old(overflow) + [old(main)[0]]
      ensures collapsed && !reverse ==> overflow == [old(main)[|old(main)| - 1]] + old(overflow)
      ensures !collapsed ==> main == old(main) && overflow == old(overflow)
    {
      ghost var m0, o0 := main, overflow;
      CollapseRemoval(m0, o0, reverse);
      var visibleItems := main;
      var item := visibleItems[|visibleItems| - 1];
      // in reverse mode a visible button sits left of the items, so no reserve is needed
      var extraSpaceRequired := if reverse && IsOverflowButtonVisible() then 0 else g.buttonWidth;
      assert IsElementVisibleInContainer(g, main, |main| - 1, extraSpaceRequired) == Fits(g, main, extraSpaceRequired) by {
        LastItemVisible(g, main, extraSpaceRequired);
      }
      collapsed := !IsElementVisibleInContainer(g, main, IndexOf(main, item), extraSpaceRequired);
      if collapsed {
        // in reverse mode the left-most item is the one that collapses
        item := if reverse then visibleItems[0] else item;
        MoveItemToOverflowContainer(item);
      }
    }

    /** `_requestOverflowUpdate`: cancel any armed timer and arm one new timer with the current delay. */
    method RequestOverflowUpdate()
      modifies this`pending, this`armedDelay
      ensures pending && armedDelay == delay
    {
      pending := true;
      armedDelay := delay;
    }

    /** The armed timer fires: it runs one update and is then spent. */
    method FireTimer(box: Box)
      requires Valid() && pending
      modifies this`main, this`overflow, this`buttonVisible, this`pending
      ensures Valid() && !pending
      ensures Rows(main, overflow) == Update(Measure(box, reverse, old(buttonVisible)), old(main), old(overflow), reverse, old(buttonVisible))
      ensures buttonVisible == (overflow != [])
    {
      pending := false;
      UpdateOverflowingItems(box);
    }

    /** The timer-clearing part of `disconnectedCallback`: no update can fire afterwards. */
    method Disconnect()
      modifies this`pending
      ensures !pending
    {
      if pending {
        pending := false;
      }
    }
  }
}
