/**
 * The custom data attribute table of the generator page.
 *
 * The page keeps two things: `customAttributes`, the list of `{ key,
 * value }` model items (only ever appended to), and the table whose rows
 * each show one of those items. Here the table is `rows`, the sequence of
 * the indices (into `attrs`, the model items) of the items its rows show,
 * top to bottom. A row is blank when its key and its value are both
 * empty.
 *
 * `updateCustomAttributeRows` walks the table deleting blank rows, but it
 * advances its index after a deletion too, so the row that slides into
 * the deleted slot is not looked at. `Sweep` is that loop as written;
 * `SkipSweep` is an independent description of what it does (a blank row
 * goes unless the row just before it went) and `SweepIsSkipSweep` proves
 * the two equal.
 */
module CustomRows {
  import opened Catalog
  import Compose

  /** The model item `addCustomAttributeRow` pushes. */
  const EMPTY_ATTRIBUTE: CustomAttribute := CustomAttribute("", "")

  /** The row showing item `x` has an empty key and an empty value. */
  predicate Blank(attrs: seq<CustomAttribute>, x: nat)
  {
    x < |attrs| && attrs[x].key == "" && attrs[x].value == ""
  }

  /** Some row of the table is blank. */
  predicate HasBlank(rows: seq<nat>, attrs: seq<CustomAttribute>)
  {
    exists k :: 0 <= k < |rows| && Blank(attrs, rows[k])
  }

  /** Every row shows an existing model item. */
  predicate RowsIn(rows: seq<nat>, attrs: seq<CustomAttribute>)
  {
    forall k :: 0 <= k < |rows| ==> rows[k] < |attrs|
  }

  /** Rows show items in the order the items were created (so no item twice). */
  predicate Increasing(rows: seq<nat>)
  {
    forall a, b :: 0 <= a < b < |rows| ==> rows[a] < rows[b]
  }

  /**
   * The table and the model list agree: rows show existing items in
   * creation order, and an item no row shows (its row was deleted) is blank.
   */
  predicate Consistent(rows: seq<nat>, attrs: seq<CustomAttribute>)
  {
    RowsIn(rows, attrs) && Increasing(rows) &&
    forall x: nat :: x < |attrs| && x !in rows ==> Blank(attrs, x)
  }

  /** The page's steady state: exactly one blank row, and it is the last one. */
  predicate TrailingBlank(rows: seq<nat>, attrs: seq<CustomAttribute>)
  {
    |rows| > 0 && Blank(attrs, rows[|rows| - 1]) &&
    forall k :: 0 <= k < |rows| - 1 ==> !Blank(attrs, rows[k])
  }

  /** The items the rows show, top to bottom. */
  function RowAttributes(rows: seq<nat>, attrs: seq<CustomAttribute>): seq<CustomAttribute>
    requires RowsIn(rows, attrs)
  {
    seq(|rows|, k requires 0 <= k < |rows| => attrs[rows[k]])
  }

  /** The non-blank rows, in table order. */
  function Filled(rows: seq<nat>, attrs: seq<CustomAttribute>): seq<nat>
  {
    if rows == [] then []
    else (if Blank(attrs, rows[0]) then [] else [rows[0]]) + Filled(rows[1..], attrs)
  }

  /** `a` is `b` with some elements left out. */
  predicate Subsequence(a: seq<nat>, b: seq<nat>)
    decreases |b|
  {
    if a == [] then true
    else if b == [] then false
    else if a[0] == b[0] then Subsequence(a[1..], b[1..])
    else Subsequence(a, b[1..])
  }

  /**
   * The deletion loop of `updateCustomAttributeRows` from index `i` on:
   * a blank row at `i` is deleted and the loop moves on to `i + 1`.
   */
  function Sweep(rows: seq<nat>, attrs: seq<CustomAttribute>, i: nat): seq<nat>
    decreases |rows| + 1 - i
  {
    if i >= |rows| then rows
    else if Blank(attrs, rows[i]) then Sweep(rows[..i] + rows[i + 1..], attrs, i + 1)
    else Sweep(rows, attrs, i + 1)
  }

  /**
   * The same deletions read along the original rows: a blank row is
   * removed unless the row just before it was removed (`skip`).
   */
  function SkipSweep(rows: seq<nat>, attrs: seq<CustomAttribute>, skip: bool): seq<nat>
  {
    if rows == [] then []
    else if Blank(attrs, rows[0]) && !skip then SkipSweep(rows[1..], attrs, true)
    else [rows[0]] + SkipSweep(rows[1..], attrs, false)
  }

  /** `updateCustomAttributeRows`: the deletion loop, then a new blank row if none is left. */
  function Update(rows: seq<nat>, attrs: seq<CustomAttribute>): (seq<nat>, seq<CustomAttribute>)
  {
    var swept := Sweep(rows, attrs, 0);
    if swept == [] || !HasBlank(swept, attrs) then (swept + [|attrs|], attrs + [EMPTY_ATTRIBUTE])
    else (swept, attrs)
  }

  /** `tableHasEmptyRows`: scans the rows top to bottom and stops at the first blank one. */
  method TableHasEmptyRows(rows: seq<nat>, attrs: seq<CustomAttribute>) returns (found: bool)
    ensures found <==> HasBlank(rows, attrs)
  {
    var i := 0;
    while i < |rows|
      invariant i <= |rows|
      invariant forall k :: 0 <= k < i ==> !Blank(attrs, rows[k])
    {
      if Blank(attrs, rows[i]) {
        return true;
      }
      i := i + 1;
    }
    return false;
  }

  // ---------------------------------------------------------------------
  // The loop as written is the skipping sweep

  lemma {:induction false} SweepIsSkipSweep(rows: seq<nat>, attrs: seq<CustomAttribute>, i: nat)
    requires i <= |rows|
    ensures Sweep(rows, attrs, i) == rows[..i] + SkipSweep(rows[i..], attrs, false)
    decreases |rows| - i
  {
    if i == |rows| {
      assert rows[..i] == rows;
    } else if Blank(attrs, rows[i]) {
      var rows' := rows[..i] + rows[i + 1..];
      assert rows[i..][1..] == rows[i + 1..];
      if i + 1 < |rows| {
        SweepIsSkipSweep(rows', attrs, i + 1);
        assert rows'[..i + 1] == rows[..i] + [rows[i + 1]];
        assert rows'[i + 1..] == rows[i + 2..];
        assert rows[i + 1..][1..] == rows[i + 2..];
      } else {
        assert rows' == rows[..i];
      }
    } else {
      SweepIsSkipSweep(rows, attrs, i + 1);
      assert rows[..i + 1] == rows[..i] + [rows[i]];
      assert rows[i..][1..] == rows[i + 1..];
    }
  }

  // ---------------------------------------------------------------------
  // What the sweep keeps

  lemma {:induction false} SkipSweepKeepsFilled(rows: seq<nat>, attrs: seq<CustomAttribute>, skip: bool)
    ensures Filled(SkipSweep(rows, attrs, skip), attrs) == Filled(rows, attrs)
    decreases |rows|
  {
    if rows != [] {
      SkipSweepKeepsFilled(rows[1..], attrs, !Blank(attrs, rows[0]) || !skip);
      SkipSweepKeepsFilled(rows[1..], attrs, false);
      SkipSweepKeepsFilled(rows[1..], attrs, true);
      var r := SkipSweep(rows, attrs, skip);
      if !(Blank(attrs, rows[0]) && !skip) {
        assert r[0] == rows[0] && r[1..] == SkipSweep(rows[1..], attrs, false);
      }
    }
  }

  lemma {:induction false} SkipSweepSubsequence(rows: seq<nat>, attrs: seq<CustomAttribute>, skip: bool)
    ensures Subsequence(SkipSweep(rows, attrs, skip), rows)
    decreases |rows|
  {
    if rows != [] {
      var r := SkipSweep(rows, attrs, skip);
      if Blank(attrs, rows[0]) && !skip {
        SkipSweepSubsequence(rows[1..], attrs, true);
        SubsequenceCons(r, rows);
      } else {
        SkipSweepSubsequence(rows[1..], attrs, false);
        assert r[0] == rows[0] && r[1..] == SkipSweep(rows[1..], attrs, false);
      }
    }
  }

  /** Dropping the head of the longer sequence keeps a subsequence of its tail a subsequence. */
  lemma {:induction false} SubsequenceCons(a: seq<nat>, b: seq<nat>)
    requires b != [] && Subsequence(a, b[1..])
    ensures Subsequence(a, b)
    decreases |a| + |b|
  {
    if a != [] && a[0] == b[0] {
      SubsequenceTail(a, b[1..]);
    }
  }

  /** A subsequence without its head is still a subsequence. */
  lemma {:induction false} SubsequenceTail(a: seq<nat>, b: seq<nat>)
    requires a != [] && Subsequence(a, b)
    ensures Subsequence(a[1..], b)
    decreases |a| + |b|
  {
    if a[0] == b[0] {
      if a[1..] != [] {
        SubsequenceTail(a[1..], b[1..]);
        SubsequenceCons(a[1..], b);
      }
    } else {
      SubsequenceTail(a, b[1..]);
      if a[1..] != [] {
        SubsequenceCons(a[1..], b);
      }
    }
  }

  /** A subsequence shows only rows of the original, in their original order. */
  lemma {:induction false} SubsequenceIncreasing(a: seq<nat>, b: seq<nat>)
    requires Subsequence(a, b) && Increasing(b)
    ensures Increasing(a) && forall k :: 0 <= k < |a| ==> a[k] in b
    decreases |b|
  {
    if a != [] {
      if a[0] == b[0] {
        SubsequenceIncreasing(a[1..], b[1..]);
        forall k | 0 < k < |a| ensures a[0] < a[k] {
          assert a[k] == a[1..][k - 1];
          var m :| 0 <= m < |b[1..]| && b[1..][m] == a[k];
          assert b[m + 1] == a[k];
        }
      } else {
        SubsequenceIncreasing(a, b[1..]);
      }
    }
  }

  /** A filled row that is in the table is among the filled rows, and conversely. */
  lemma {:induction false} FilledMembers(rows: seq<nat>, attrs: seq<CustomAttribute>, x: nat)
    ensures x in Filled(rows, attrs) <==> x in rows && !Blank(attrs, x)
    decreases |rows|
  {
    if rows != [] {
      FilledMembers(rows[1..], attrs, x);
      assert x in rows <==> x == rows[0] || x in rows[1..];
    }
  }

  /**
   * The deletion loop never deletes a row that has a key or a value, and
   * every row it keeps stays in its original order.
   */
  lemma SweepKeepsFilled(rows: seq<nat>, attrs: seq<CustomAttribute>)
    ensures Filled(Sweep(rows, attrs, 0), attrs) == Filled(rows, attrs)
    ensures Subsequence(Sweep(rows, attrs, 0), rows)
  {
    SweepIsSkipSweep(rows, attrs, 0);
    assert rows[..0] == [] && rows[0..] == rows;
    assert Sweep(rows, attrs, 0) == SkipSweep(rows, attrs, false);
    SkipSweepKeepsFilled(rows, attrs, false);
    SkipSweepSubsequence(rows, attrs, false);
  }

  /** Two blank rows in a row: deleting the first makes the loop skip the second. */
  lemma AdjacentBlankRowSurvives()
    ensures Update([0, 1], [EMPTY_ATTRIBUTE, EMPTY_ATTRIBUTE]) == ([1], [EMPTY_ATTRIBUTE, EMPTY_ATTRIBUTE])
  {
    var attrs := [EMPTY_ATTRIBUTE, EMPTY_ATTRIBUTE];
    assert Blank(attrs, 0) && Blank(attrs, 1);
    assert Sweep([0, 1], attrs, 0) == Sweep([1], attrs, 1);
    assert Blank(attrs, [1][0]);
  }

  // ---------------------------------------------------------------------
  // What updateCustomAttributeRows guarantees

  /** Filled rows keep their emptiness when a new item is appended. */
  lemma FilledAppend(rows: seq<nat>, attrs: seq<CustomAttribute>, a: CustomAttribute)
    requires RowsIn(rows, attrs)
    ensures Filled(rows, attrs + [a]) == Filled(rows, attrs)
  {
    BlankStable(rows, attrs, attrs + [a]);
  }

  lemma {:induction false} BlankStable(rows: seq<nat>, attrs: seq<CustomAttribute>, attrs': seq<CustomAttribute>)
    requires forall k :: 0 <= k < |rows| ==> Blank(attrs, rows[k]) == Blank(attrs', rows[k])
    ensures Filled(rows, attrs') == Filled(rows, attrs)
    decreases |rows|
  {
    if rows != [] {
      BlankStable(rows[1..], attrs, attrs');
    }
  }

  /**
   * After `updateCustomAttributeRows` the table has a blank row, the rows
   * with content are the same rows in the same order, and the model list
   * has only grown (by one blank item when a row was added).
   */
  lemma UpdateLeavesBlankRow(rows: seq<nat>, attrs: seq<CustomAttribute>)
    requires RowsIn(rows, attrs)
    ensures HasBlank(Update(rows, attrs).0, Update(rows, attrs).1)
    ensures Filled(Update(rows, attrs).0, Update(rows, attrs).1) == Filled(rows, attrs)
    ensures Update(rows, attrs).1 == attrs || Update(rows, attrs).1 == attrs + [EMPTY_ATTRIBUTE]
  {
    var swept := Sweep(rows, attrs, 0);
    SweepKeepsFilled(rows, attrs);
    SweepIsSkipSweep(rows, attrs, 0);
    if swept == [] || !HasBlank(swept, attrs) {
      var r := swept + [|attrs|];
      var attrs' := attrs + [EMPTY_ATTRIBUTE];
      assert Blank(attrs', r[|swept|]);
      SubsequenceRowsIn(swept, rows, attrs);
      FilledAppend(swept, attrs, EMPTY_ATTRIBUTE);
      FilledSnocBlank(swept, attrs', |attrs|);
    }
  }

  lemma SubsequenceRowsIn(a: seq<nat>, b: seq<nat>, attrs: seq<CustomAttribute>)
    requires Subsequence(a, b) && RowsIn(b, attrs)
    ensures RowsIn(a, attrs)
  {
    SubsequenceMembers(a, b);
  }

  lemma {:induction false} SubsequenceMembers(a: seq<nat>, b: seq<nat>)
    requires Subsequence(a, b)
    ensures forall k :: 0 <= k < |a| ==> a[k] in b
    decreases |b|
  {
    if a != [] {
      if a[0] == b[0] {
        SubsequenceMembers(a[1..], b[1..]);
        forall k | 0 < k < |a| ensures a[k] in b {
          assert a[k] == a[1..][k - 1];
        }
      } else {
        SubsequenceMembers(a, b[1..]);
      }
    }
  }

  /** Appending a blank row adds nothing to the filled rows. */
  lemma {:induction false} FilledSnocBlank(rows: seq<nat>, attrs: seq<CustomAttribute>, x: nat)
    requires Blank(attrs, x)
    ensures Filled(rows + [x], attrs) == Filled(rows, attrs)
    decreases |rows|
  {
    if rows == [] {
      assert Filled([x], attrs) == [] + Filled([], attrs);
    } else {
      FilledSnocBlank(rows[1..], attrs, x);
      assert (rows + [x])[1..] == rows[1..] + [x];
    }
  }

  /** Without two blank rows next to each other the sweep removes exactly the blank rows. */
  lemma {:induction false} SkipSweepNoAdjacent(rows: seq<nat>, attrs: seq<CustomAttribute>, skip: bool)
    requires forall k :: 0 <= k < |rows| - 1 ==> !(Blank(attrs, rows[k]) && Blank(attrs, rows[k + 1]))
    requires skip && rows != [] ==> !Blank(attrs, rows[0])
    ensures SkipSweep(rows, attrs, skip) == Filled(rows, attrs)
    decreases |rows|
  {
    if rows != [] {
      SkipSweepNoAdjacent(rows[1..], attrs, Blank(attrs, rows[0]) && !skip);
    }
  }

  /** Filled rows first, then two blank rows: the sweep keeps the last one. */
  lemma {:induction false} SkipSweepTailPair(pre: seq<nat>, x: nat, y: nat, attrs: seq<CustomAttribute>)
    requires forall k :: 0 <= k < |pre| ==> !Blank(attrs, pre[k])
    requires Blank(attrs, x) && Blank(attrs, y)
    ensures SkipSweep(pre + [x, y], attrs, false) == pre + [y]
    decreases |pre|
  {
    if pre == [] {
      assert pre + [x, y] == [x, y];
      assert [x, y][1..] == [y];
      assert [y][1..] == [];
      assert SkipSweep([y], attrs, true) == [y] + SkipSweep([], attrs, false);
    } else {
      SkipSweepTailPair(pre[1..], x, y, attrs);
      assert (pre + [x, y])[1..] == pre[1..] + [x, y];
    }
  }

  lemma {:induction false} FilledNoBlank(rows: seq<nat>, attrs: seq<CustomAttribute>)
    ensures forall k :: 0 <= k < |Filled(rows, attrs)| ==> !Blank(attrs, Filled(rows, attrs)[k]) && Filled(rows, attrs)[k] in rows
    decreases |rows|
  {
    if rows != [] {
      FilledNoBlank(rows[1..], attrs);
    }
  }

  /** Only the edited row can change from blank to filled or back. */
  lemma EditChangesOneRow(rows: seq<nat>, attrs: seq<CustomAttribute>, j: nat, a: CustomAttribute)
    requires RowsIn(rows, attrs) && Increasing(rows) && j < |rows|
    ensures forall k :: 0 <= k < |rows| && k != j ==> Blank(attrs[rows[j] := a], rows[k]) == Blank(attrs, rows[k])
    ensures Blank(attrs[rows[j] := a], rows[j]) == (a.key == "" && a.value == "")
  {
    forall k | 0 <= k < |rows| && k != j ensures rows[k] != rows[j] {
      if k < j { assert rows[k] < rows[j]; } else { assert rows[j] < rows[k]; }
    }
  }

  /** Blank rows apart from each other: all go, and the fresh blank row ends the table. */
  lemma SeparateBlanksRefill(rows: seq<nat>, attrs: seq<CustomAttribute>)
    requires RowsIn(rows, attrs)
    requires forall k :: 0 <= k < |rows| - 1 ==> !(Blank(attrs, rows[k]) && Blank(attrs, rows[k + 1]))
    ensures TrailingBlank(Update(rows, attrs).0, Update(rows, attrs).1)
  {
    var swept := Sweep(rows, attrs, 0);
    SweepIsSkipSweep(rows, attrs, 0);
    assert rows[..0] == [] && rows[0..] == rows;
    SkipSweepNoAdjacent(rows, attrs, false);
    FilledNoBlank(rows, attrs);
    assert swept == Filled(rows, attrs);
    var r := swept + [|attrs|];
    var attrs' := attrs + [EMPTY_ATTRIBUTE];
    assert !HasBlank(swept, attrs);
    assert Blank(attrs', r[|r| - 1]);
    forall k | 0 <= k < |r| - 1 ensures !Blank(attrs', r[k]) {
      assert r[k] == swept[k] && swept[k] in rows;
    }
  }

  /** Filled rows, then two blank rows: the second blank row stays and ends the table. */
  lemma BlankPairKeepsLast(rows: seq<nat>, attrs: seq<CustomAttribute>)
    requires |rows| >= 2
    requires forall k :: 0 <= k < |rows| - 2 ==> !Blank(attrs, rows[k])
    requires Blank(attrs, rows[|rows| - 2]) && Blank(attrs, rows[|rows| - 1])
    ensures TrailingBlank(Update(rows, attrs).0, Update(rows, attrs).1)
  {
    var n := |rows|;
    var swept := Sweep(rows, attrs, 0);
    SweepIsSkipSweep(rows, attrs, 0);
    assert rows[..0] == [] && rows[0..] == rows;
    var pre := rows[..n - 2];
    assert rows == pre + [rows[n - 2], rows[n - 1]];
    SkipSweepTailPair(pre, rows[n - 2], rows[n - 1], attrs);
    assert swept == pre + [rows[n - 1]];
    assert Blank(attrs, swept[|swept| - 1]);
    assert HasBlank(swept, attrs);
  }

  /**
   * Editing one row of a table in the steady state (one blank row, the
   * last) and then running `updateCustomAttributeRows` gives the steady
   * state again: the skipped row never matters for edits the page can make.
   */
  lemma EditKeepsTrailingBlank(rows: seq<nat>, attrs: seq<CustomAttribute>, j: nat, a: CustomAttribute)
    requires TrailingBlank(rows, attrs) && RowsIn(rows, attrs) && Increasing(rows)
    requires j < |rows|
    ensures TrailingBlank(Update(rows, attrs[rows[j] := a]).0, Update(rows, attrs[rows[j] := a]).1)
  {
    var attrs' := attrs[rows[j] := a];
    var n := |rows|;
    EditChangesOneRow(rows, attrs, j, a);
    assert RowsIn(rows, attrs');
    if j == n - 2 && a.key == "" && a.value == "" {
      BlankPairKeepsLast(rows, attrs');
    } else {
      SeparateBlanksRefill(rows, attrs');
    }
  }

  // ---------------------------------------------------------------------
  // The table and the model list stay consistent

  /** Typing into a row changes only the item that row shows. */
  lemma EditKeepsConsistent(rows: seq<nat>, attrs: seq<CustomAttribute>, j: nat, a: CustomAttribute)
    requires Consistent(rows, attrs) && j < |rows|
    ensures Consistent(rows, attrs[rows[j] := a])
  {
    var attrs' := attrs[rows[j] := a];
    forall x: nat | x < |attrs'| && x !in rows ensures Blank(attrs', x) {
      assert x != rows[j];
      assert Blank(attrs, x);
    }
  }

  /** `updateCustomAttributeRows` keeps the table and the model list consistent. */
  lemma UpdateKeepsConsistent(rows: seq<nat>, attrs: seq<CustomAttribute>)
    requires Consistent(rows, attrs)
    ensures Consistent(Update(rows, attrs).0, Update(rows, attrs).1)
  {
    var swept := Sweep(rows, attrs, 0);
    SweepKeepsFilled(rows, attrs);
    SubsequenceIncreasing(swept, rows);
    SubsequenceRowsIn(swept, rows, attrs);
    forall x: nat | x < |attrs| && x !in swept ensures Blank(attrs, x) {
      if x in rows && !Blank(attrs, x) {
        FilledMembers(rows, attrs, x);
        FilledMembers(swept, attrs, x);
      }
    }
    if swept == [] || !HasBlank(swept, attrs) {
      var r := swept + [|attrs|];
      var attrs' := attrs + [EMPTY_ATTRIBUTE];
      assert RowsIn(r, attrs');
      assert Increasing(r);
      forall x: nat | x < |attrs'| && x !in r ensures Blank(attrs', x) {
        assert x < |attrs| && x !in swept;
      }
    }
  }

  /** Blank items contribute no custom pairs. */
  lemma {:induction false} AllBlankNoPairs(attrs: seq<CustomAttribute>)
    requires forall x: nat :: x < |attrs| ==> Blank(attrs, x)
    ensures Compose.CustomPairs(attrs) == []
    decreases |attrs|
  {
    if attrs != [] {
      var init := attrs[..|attrs| - 1];
      forall x: nat | x < |init| ensures Blank(init, x) {
        assert Blank(attrs, x);
      }
      AllBlankNoPairs(init);
      assert Blank(attrs, |attrs| - 1);
    }
  }

  /**
   * What is serialised is what the table shows: the custom query pairs of
   * the whole model list equal those of the items the rows show, in table
   * order (deleted rows' items are blank and contribute nothing).
   */
  lemma {:induction false} TableDeterminesCustomPairs(rows: seq<nat>, attrs: seq<CustomAttribute>)
    requires Consistent(rows, attrs)
    ensures Compose.CustomPairs(attrs) == Compose.CustomPairs(RowAttributes(rows, attrs))
    decreases |attrs|
  {
    if rows == [] {
      forall x: nat | x < |attrs| ensures Blank(attrs, x) {
        assert x !in rows;
      }
      AllBlankNoPairs(attrs);
    } else {
      assert rows[0] < |attrs|;
      var n := |attrs|;
      var init := attrs[..n - 1];
      var last := attrs[n - 1];
      if rows != [] && rows[|rows| - 1] == n - 1 {
        var rows' := rows[..|rows| - 1];
        assert RowsIn(rows', init) by {
          forall k | 0 <= k < |rows'| ensures rows'[k] < n - 1 {
            assert rows[k] < rows[|rows| - 1];
          }
        }
        forall x: nat | x < |init| && x !in rows' ensures Blank(init, x) {
          assert x !in rows by {
            assert rows == rows' + [n - 1];
          }
          assert Blank(attrs, x);
        }
        TableDeterminesCustomPairs(rows', init);
        assert RowAttributes(rows', init) == RowAttributes(rows, attrs)[..|rows| - 1];
        assert RowAttributes(rows, attrs)[|rows| - 1] == last;
      } else {
        forall k | 0 <= k < |rows| ensures rows[k] < n - 1 {
          if k < |rows| - 1 { assert rows[k] < rows[|rows| - 1]; }
        }
        assert n - 1 !in rows;
        assert Blank(attrs, n - 1);
        assert RowsIn(rows, init);
        forall x: nat | x < |init| && x !in rows ensures Blank(init, x) {
          assert Blank(attrs, x);
        }
        TableDeterminesCustomPairs(rows, init);
        assert RowAttributes(rows, init) == RowAttributes(rows, attrs);
      }
    }
  }
}
