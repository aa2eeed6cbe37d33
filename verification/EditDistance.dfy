/**
 The distance table behind fuzzy file-name matching: free at both ends of the haystack, adjacent
 swaps at cost one, three rows held at a time, abandoned once a whole row is over the budget.
 */
module EditDistance {
  import opened Wrappers
  import opened EditScripts

  function Min(a: nat, b: nat): nat {
    if a <= b then a else b
  }

  predicate SwapsAt(needle: string, haystack: string, row: nat, column: nat)
    requires row <= |needle| && column <= |haystack|
  {
    row > 1 && column > 1 && needle[row - 1] == haystack[column - 2] && needle[row - 2] == haystack[column - 1]
  }

  function Combine(same: bool, swaps: bool, diagonal: nat, above: nat, left: nat, beyond: nat): nat {
    var edited := Min(diagonal + (if same then 0 else 1), Min(above + 1, left + 1));
    if swaps then Min(edited, beyond + 1) else edited
  }

  /** One cell of the table: the needle's first `row` letters against stretches ending at `column`. */
  function Cell(needle: string, haystack: string, row: nat, column: nat): nat
    requires row <= |needle| && column <= |haystack|
  {
    if row == 0 then 0
    else if column == 0 then row
    else
      var swaps := SwapsAt(needle, haystack, row, column);
      Combine(needle[row - 1] == haystack[column - 1], swaps,
              Cell(needle, haystack, row - 1, column - 1), Cell(needle, haystack, row - 1, column),
              Cell(needle, haystack, row, column - 1),
              if swaps then Cell(needle, haystack, row - 2, column - 2) else 0)
  }

  // ---- the table against edit scripts ----

  /** The edit can be the last one of a script for the needle's first `row` letters, ending at `column`. */
  ghost predicate EndsAt(edit: Edit, needle: string, haystack: string, row: nat, column: nat) {
    && |edit.Source()| <= row <= |needle|
    && |edit.Target()| <= column <= |haystack|
    && edit.Source() == needle[row - |edit.Source()|..row]
    && edit.Target() == haystack[column - |edit.Target()|..column]
  }

  lemma {:induction false} CellAtMostThroughEdit(edit: Edit, needle: string, haystack: string, row: nat, column: nat)
    requires EndsAt(edit, needle, haystack, row, column)
    ensures Cell(needle, haystack, row, column)
         <= Cell(needle, haystack, row - |edit.Source()|, column - |edit.Target()|) + edit.Cost()
  {
    EditLengths(edit);
    LettersOfLastEdit(edit, needle, haystack, row, column);
  }

  lemma {:induction false} EditLengths(edit: Edit)
    ensures |edit.Source()| == (match edit case Swap(_, _) => 2 case Insert(_) => 0 case _ => 1)
    ensures |edit.Target()| == (match edit case Swap(_, _) => 2 case Delete(_) => 0 case _ => 1)
  {
  }

  lemma {:induction false} LettersOfLastEdit(edit: Edit, needle: string, haystack: string, row: nat, column: nat)
    requires EndsAt(edit, needle, haystack, row, column)
    ensures edit.Keep? ==> row > 0 && column > 0 && needle[row - 1] == haystack[column - 1]
    ensures edit.Swap? ==> SwapsAt(needle, haystack, row, column)
  {
    if edit.Keep? {
      assert edit.Source()[0] == edit.letter && edit.Target()[0] == edit.letter;
    } else if edit.Swap? {
      assert edit.Source() == [needle[row - 2], needle[row - 1]];
      assert edit.Target() == [haystack[column - 2], haystack[column - 1]];
    }
  }

  lemma {:induction false} DropLastEdit(needle: string, haystack: string, row: nat, start: nat, column: nat, init: Script, edit: Edit)
    requires row <= |needle| && start <= column <= |haystack|
    requires Source(init) + edit.Source() == needle[0..row]
    requires Target(init) + edit.Target() == haystack[start..column]
    ensures EndsAt(edit, needle, haystack, row, column) && start <= column - |edit.Target()|
    ensures Source(init) == needle[0..row - |edit.Source()|]
    ensures Target(init) == haystack[start..column - |edit.Target()|]
  {
    SplitSlice(Source(init), edit.Source(), needle, 0, row);
    SplitSlice(Target(init), edit.Target(), haystack, start, column);
  }

  lemma {:induction false} SplitSlice(first: string, second: string, text: string, start: nat, end: nat)
    requires start <= end <= |text|
    requires first + second == text[start..end]
    ensures start <= end - |second|
    ensures first == text[start..end - |second|] && second == text[end - |second|..end]
  {
    assert |first| + |second| == end - start;
    assert first == (first + second)[..|first|];
    assert second == (first + second)[|first|..];
  }

  /** No script undercuts the table. */
  lemma {:induction false} CellIsLowerBound(needle: string, haystack: string, row: nat, start: nat, column: nat,
                                            script: Script)
    requires row <= |needle| && start <= column <= |haystack|
    requires Source(script) == needle[0..row] && Target(script) == haystack[start..column]
    ensures Cell(needle, haystack, row, column) <= Cost(script)
    decreases |script|
  {
    if script == [] {
      assert row == |needle[0..row]| == 0;
    } else {
      var init, rows, columns := WithoutLastEdit(needle, haystack, row, start, column, script);
      CellIsLowerBound(needle, haystack, rows, start, columns, init);
    }
  }

  /** A script that fits, without its last edit, fits up to a cell from which that edit leads here. */
  lemma {:induction false} WithoutLastEdit(needle: string, haystack: string, row: nat, start: nat, column: nat, script: Script)
    returns (init: Script, rows: nat, columns: nat)
    requires script != [] && row <= |needle| && start <= column <= |haystack|
    requires Source(script) == needle[0..row] && Target(script) == haystack[start..column]
    ensures |init| < |script| && rows <= |needle| && start <= columns <= |haystack|
    ensures Source(init) == needle[0..rows] && Target(init) == haystack[start..columns]
    ensures Cell(needle, haystack, row, column) - Cell(needle, haystack, rows, columns) <= Cost(script) - Cost(init)
  {
    var last;
    init, last := SplitScript(script);
    rows, columns := StepBack(needle, haystack, row, start, column, init, last);
  }

  lemma {:induction false} StepBack(needle: string, haystack: string, row: nat, start: nat, column: nat, init: Script, edit: Edit)
    returns (rows: nat, columns: nat)
    requires row <= |needle| && start <= column <= |haystack|
    requires Source(init) + edit.Source() == needle[0..row]
    requires Target(init) + edit.Target() == haystack[start..column]
    ensures rows <= |needle| && start <= columns <= |haystack|
    ensures Source(init) == needle[0..rows] && Target(init) == haystack[start..columns]
    ensures Cell(needle, haystack, row, column) <= Cell(needle, haystack, rows, columns) + edit.Cost()
  {
    DropLastEdit(needle, haystack, row, start, column, init, edit);
    CellAtMostThroughEdit(edit, needle, haystack, row, column);
    return row - |edit.Source()|, column - |edit.Target()|;
  }

  lemma {:induction false} SplitScript(script: Script) returns (init: Script, last: Edit)
    requires script != []
    ensures |init| < |script| && Cost(script) == Cost(init) + last.Cost()
    ensures Source(script) == Source(init) + last.Source() && Target(script) == Target(init) + last.Target()
  {
    init, last := script[..|script| - 1], script[|script| - 1];
    assert script == init + [last];
    ScriptSnoc(init, last);
  }

  lemma {:induction false} AddLastEdit(needle: string, haystack: string, row: nat, start: nat, column: nat, init: Script, edit: Edit)
    returns (script: Script)
    requires EndsAt(edit, needle, haystack, row, column) && start <= column - |edit.Target()|
    requires Source(init) == needle[0..row - |edit.Source()|]
    requires Target(init) == haystack[start..column - |edit.Target()|]
    ensures Source(script) == needle[0..row] && Target(script) == haystack[start..column]
    ensures Cost(script) == Cost(init) + edit.Cost()
  {
    script := init + [edit];
    ScriptSnoc(init, edit);
    JoinSlice(needle, 0, row - |edit.Source()|, row);
    JoinSlice(haystack, start, column - |edit.Target()|, column);
  }

  lemma {:induction false} JoinSlice(text: string, start: nat, middle: nat, end: nat)
    requires start <= middle <= end <= |text|
    ensures text[start..end] == text[start..middle] + text[middle..end]
  {
  }

  /** The edit is about these two letters, the last of the needle's and the last of the haystack's. */
  predicate IsOver(edit: Edit, n: char, h: char) {
    match edit
    case Keep(c) => c == n
    case Substitute(a, b) => a == n && b == h
    case Insert(b) => b == h
    case Delete(a) => a == n
    case Swap(a, b) => a == h && b == n
  }

  /** The edit a combined value comes through. */
  function LastEdit(n: char, h: char, swaps: bool, diagonal: nat, above: nat, left: nat, beyond: nat): (edit: Edit)
    ensures IsOver(edit, n, h) && (edit.Swap? ==> swaps) && (edit.Keep? ==> n == h)
    ensures Combine(n == h, swaps, diagonal, above, left, beyond) == edit.Cost() +
      match edit
      case Swap(_, _) => beyond
      case Delete(_) => above
      case Insert(_) => left
      case _ => diagonal
  {
    var value := Combine(n == h, swaps, diagonal, above, left, beyond);
    if swaps && value == beyond + 1 then Swap(h, n)
    else if value == above + 1 then Delete(n)
    else if value == left + 1 then Insert(h)
    else if n == h then Keep(n)
    else Substitute(n, h)
  }

  lemma {:induction false} LastEditEndsAt(edit: Edit, needle: string, haystack: string, row: nat, column: nat)
    requires 0 < row <= |needle| && column <= |haystack|
    requires edit == Delete(needle[row - 1]) || (column > 0 && IsOver(edit, needle[row - 1], haystack[column - 1]))
    requires edit.Swap? ==> SwapsAt(needle, haystack, row, column)
    requires edit.Keep? ==> column > 0 && needle[row - 1] == haystack[column - 1]
    ensures EndsAt(edit, needle, haystack, row, column)
  {
  }

  /** Every cell but the free first row is reached through some last edit. */
  lemma {:induction false} FindLastEdit(needle: string, haystack: string, row: nat, column: nat) returns (edit: Edit)
    requires 0 < row <= |needle| && column <= |haystack|
    ensures EndsAt(edit, needle, haystack, row, column) && |edit.Source()| + |edit.Target()| > 0
    ensures Cell(needle, haystack, row, column)
         == Cell(needle, haystack, row - |edit.Source()|, column - |edit.Target()|) + edit.Cost()
  {
    if column == 0 {
      edit := Delete(needle[row - 1]);
    } else {
      var swaps := SwapsAt(needle, haystack, row, column);
      edit := LastEdit(needle[row - 1], haystack[column - 1], swaps,
                       Cell(needle, haystack, row - 1, column - 1), Cell(needle, haystack, row - 1, column),
                       Cell(needle, haystack, row, column - 1),
                       if swaps then Cell(needle, haystack, row - 2, column - 2) else 0);
    }
    LastEditEndsAt(edit, needle, haystack, row, column);
    EditLengths(edit);
  }

  /** Some script achieves what the table says. */
  lemma {:induction false} CellIsAchieved(needle: string, haystack: string, row: nat, column: nat)
    returns (start: nat, script: Script)
    requires row <= |needle| && column <= |haystack|
    ensures start <= column
    ensures Source(script) == needle[0..row] && Target(script) == haystack[start..column]
    ensures Cost(script) == Cell(needle, haystack, row, column)
    decreases row + column
  {
    if row == 0 {
      return column, [];
    }
    var edit := FindLastEdit(needle, haystack, row, column);
    var init;
    start, init := CellIsAchieved(needle, haystack, row - |edit.Source()|, column - |edit.Target()|);
    script := AddLastEdit(needle, haystack, row, start, column, init, edit);
  }

  // ---- the early abort ----

  ghost predicate RowAtLeast(needle: string, haystack: string, row: nat, bound: int)
    requires row <= |needle|
  {
    forall column :: 0 <= column <= |haystack| ==> bound <= Cell(needle, haystack, row, column)
  }

  /**
   A swap reads two rows back, so the row above must not be more than one behind: that it is not is
   the delete edge of the table.  Hence row minima never fall.
   */
  lemma {:induction false} RowMinimaNeverFall(needle: string, haystack: string, row: nat, bound: int)
    requires row < |needle|
    requires RowAtLeast(needle, haystack, row, bound)
    ensures RowAtLeast(needle, haystack, row + 1, bound)
  {
    var next := row + 1;
    for column := 0 to |haystack| + 1
      invariant forall c :: 0 <= c < column ==> bound <= Cell(needle, haystack, next, c)
    {
      assert bound <= Cell(needle, haystack, row, column);
      if column > 0 {
        assert bound <= Cell(needle, haystack, row, column - 1);
        assert bound <= Cell(needle, haystack, next, column - 1);
        if SwapsAt(needle, haystack, next, column) {
          assert bound <= Cell(needle, haystack, row, column - 2);
        }
      }
    }
  }

  lemma {:induction false} AbandonedRowStaysAbandoned(needle: string, haystack: string, row: nat, last: nat, bound: int)
    requires row <= last <= |needle|
    requires RowAtLeast(needle, haystack, row, bound)
    ensures RowAtLeast(needle, haystack, last, bound)
    decreases last - row
  {
    if row < last {
      RowMinimaNeverFall(needle, haystack, row, bound);
      AbandonedRowStaysAbandoned(needle, haystack, row + 1, last, bound);
    }
  }

  lemma {:induction false} LastRowBoundsEveryFit(needle: string, haystack: string, bound: nat)
    requires RowAtLeast(needle, haystack, |needle|, bound)
    ensures NothingFitsBelow(needle, haystack, bound)
  {
    forall script, start, end | Fits(script, needle, haystack, start, end)
      ensures bound <= Cost(script)
    {
      assert needle[0..|needle|] == needle;
      CellIsLowerBound(needle, haystack, |needle|, start, end, script);
    }
  }

  // ---- the loop ----

  function MinOf(row: seq<nat>): (m: nat)
    requires row != []
    ensures m in row
    ensures forall k :: 0 <= k < |row| ==> m <= row[k]
  {
    if |row| == 1 then row[0] else Min(row[0], MinOf(row[1..]))
  }

  /** The first cells of a row. */
  ghost predicate HoldsCells(values: seq<nat>, needle: string, haystack: string, row: nat)
    requires row <= |needle|
  {
    && |values| <= |haystack| + 1
    && forall column :: 0 <= column < |values| ==> values[column] == Cell(needle, haystack, row, column)
  }

  ghost predicate HoldsRow(values: seq<nat>, needle: string, haystack: string, row: nat)
    requires row <= |needle|
  {
    |values| == |haystack| + 1 && HoldsCells(values, needle, haystack, row)
  }

  lemma {:induction false} HoldsOneMore(values: seq<nat>, needle: string, haystack: string, row: nat, value: nat)
    requires row <= |needle| && |values| <= |haystack| && HoldsCells(values, needle, haystack, row)
    requires value == Cell(needle, haystack, row, |values|)
    ensures HoldsCells(values + [value], needle, haystack, row)
  {
  }

  lemma {:induction false} CellFromRows(needle: string, haystack: string, row: nat, column: nat,
                     beforePrevious: seq<nat>, previous: seq<nat>, left: nat, value: nat)
    requires 0 < row <= |needle| && 0 < column <= |haystack|
    requires HoldsRow(previous, needle, haystack, row - 1)
    requires row > 1 ==> HoldsRow(beforePrevious, needle, haystack, row - 2)
    requires left == Cell(needle, haystack, row, column - 1)
    requires value == Combine(needle[row - 1] == haystack[column - 1], SwapsAt(needle, haystack, row, column),
                              previous[column - 1], previous[column], left,
                              if SwapsAt(needle, haystack, row, column) then beforePrevious[column - 2] else 0)
    ensures value == Cell(needle, haystack, row, column)
  {
  }

  method FillRow(needle: string, haystack: string, row: nat, beforePrevious: array<nat>, previous: array<nat>)
    returns (current: array<nat>)
    requires 0 < row <= |needle|
    requires HoldsRow(previous[..], needle, haystack, row - 1)
    requires row > 1 ==> HoldsRow(beforePrevious[..], needle, haystack, row - 2)
    ensures fresh(current)
    ensures HoldsRow(current[..], needle, haystack, row)
  {
    current := new nat[|haystack| + 1](_ => 0);
    current[0] := row;
    for column := 1 to |haystack| + 1
      invariant HoldsRow(previous[..], needle, haystack, row - 1)
      invariant row > 1 ==> HoldsRow(beforePrevious[..], needle, haystack, row - 2)
      invariant HoldsCells(current[..column], needle, haystack, row)
    {
      var value := FillCell(needle, haystack, row, column, beforePrevious, previous, current[column - 1]);
      HoldsOneMore(current[..column], needle, haystack, row, value);
      ghost var filled := current[..column];
      current[column] := value;
      assert current[..column + 1] == filled + [value];
    }
    assert current[..] == current[..|haystack| + 1];
  }

  method FillCell(needle: string, haystack: string, row: nat, column: nat, beforePrevious: array<nat>, previous: array<nat>,
                  left: nat)
    returns (value: nat)
    requires 0 < row <= |needle| && 0 < column <= |haystack|
    requires HoldsRow(previous[..], needle, haystack, row - 1)
    requires row > 1 ==> HoldsRow(beforePrevious[..], needle, haystack, row - 2)
    requires left == Cell(needle, haystack, row, column - 1)
    ensures value == Cell(needle, haystack, row, column)
  {
    var needleCharacter, haystackCharacter := needle[row - 1], haystack[column - 1];
    var cost := if needleCharacter == haystackCharacter then 0 else 1;
    value := Min(previous[column - 1] + cost, Min(previous[column] + 1, left + 1));
    if row > 1 && column > 1 && needleCharacter == haystack[column - 2] && needle[row - 2] == haystackCharacter {
      value := Min(value, beforePrevious[column - 2] + 1);
    }
    CellFromRows(needle, haystack, row, column, beforePrevious[..], previous[..], left, value);
  }

  /**
   The distance from the needle to the closest stretch of the haystack, or None exactly when that is
   over the budget.
   */
  method ClosestSubstringDistance(needle: string, haystack: string, budget: nat) returns (distance: Option<nat>)
    ensures distance.Some? ==> distance.value <= budget && IsClosest(needle, haystack, distance.value)
    ensures distance.None? ==> NothingFitsBelow(needle, haystack, budget + 1)
  {
    var previous := new nat[|haystack| + 1](_ => 0);
    var beforePrevious := new nat[0];
    for row := 1 to |needle| + 1
      invariant HoldsRow(previous[..], needle, haystack, row - 1)
      invariant row > 1 ==> HoldsRow(beforePrevious[..], needle, haystack, row - 2)
      invariant row > 1 ==> MinOf(previous[..]) <= budget
    {
      var current := FillRow(needle, haystack, row, beforePrevious, previous);
      if MinOf(current[..]) > budget {
        assert RowAtLeast(needle, haystack, row, budget + 1) by {
          forall column | 0 <= column <= |haystack| ensures budget + 1 <= Cell(needle, haystack, row, column) {
            assert current[..][column] == Cell(needle, haystack, row, column);
          }
        }
        AbandonedRowStaysAbandoned(needle, haystack, row, |needle|, budget + 1);
        LastRowBoundsEveryFit(needle, haystack, budget + 1);
        return None;
      }
      beforePrevious, previous := previous, current;
    }
    var best := MinOf(previous[..]);
    LastRowDecides(needle, haystack, previous[..]);
    if needle == "" {
      assert previous[..][0] == 0;
    }
    return Some(best);
  }

  lemma {:induction false} LastRowDecides(needle: string, haystack: string, values: seq<nat>)
    requires HoldsRow(values, needle, haystack, |needle|)
    ensures IsClosest(needle, haystack, MinOf(values))
  {
    var best := MinOf(values);
    forall column | 0 <= column <= |haystack| ensures best <= Cell(needle, haystack, |needle|, column) {
      assert values[column] == Cell(needle, haystack, |needle|, column);
    }
    LastRowBoundsEveryFit(needle, haystack, best);
    var column :| 0 <= column < |values| && values[column] == best;
    var start, script := CellIsAchieved(needle, haystack, |needle|, column);
    assert needle[0..|needle|] == needle;
    assert Fits(script, needle, haystack, start, column) && Cost(script) == best;
  }
}
