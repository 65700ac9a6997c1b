/**
 * The message pager's `update` (`ChannelMessages.update`): the scroll offset
 * is clamped into the range that keeps the viewport full, then the rows are
 * filled with consecutive wrapped lines from that offset, and the last row
 * becomes the "more" marker whenever lines remain below the window.
 */
module MessagePager {
  /** What one row widget of the viewport shows. */
  datatype Row =
    | Line(text: string)  // a wrapped line of the buffer
    | Blank               // a row past the end of the buffer
    | More                // the marker that lines exist below the window

  /** The largest scroll offset that still fills the viewport, or 0 when the buffer is shorter. */
  function MaxOffset(valuesLen: nat, displayLength: nat): (m: nat)
    ensures valuesLen >= displayLength ==> m + displayLength <= valuesLen
    ensures valuesLen < displayLength ==> m == 0
  {
    if valuesLen > displayLength then valuesLen - displayLength else 0
  }

  /** No offset beyond `MaxOffset` still keeps the viewport full. */
  lemma MaxOffsetLargest(valuesLen: nat, displayLength: nat, other: nat)
    requires other + displayLength <= valuesLen
    ensures other <= MaxOffset(valuesLen, displayLength)
  {
  }

  /** The two clamps of `update` on `start_display_at`. */
  function Clamp(start: int, valuesLen: nat, displayLength: nat): (c: int)
    ensures 0 <= c <= MaxOffset(valuesLen, displayLength)
    ensures 0 <= start <= MaxOffset(valuesLen, displayLength) ==> c == start
    ensures start > MaxOffset(valuesLen, displayLength) ==> c == MaxOffset(valuesLen, displayLength)
    ensures start < 0 ==> c == 0
  {
    var upper := if start > valuesLen - displayLength then valuesLen - displayLength else start;
    if upper < 0 then 0 else upper
  }

  /** Clamping twice is clamping once. */
  lemma ClampIdempotent(start: int, valuesLen: nat, displayLength: nat)
    ensures Clamp(Clamp(start, valuesLen, displayLength), valuesLen, displayLength)
         == Clamp(start, valuesLen, displayLength)
  {
  }

  /** The clamped offset is the valid offset nearest to the requested one. */
  lemma ClampNearest(start: int, valuesLen: nat, displayLength: nat, other: int)
    requires 0 <= other <= MaxOffset(valuesLen, displayLength)
    ensures var c := Clamp(start, valuesLen, displayLength);
            (if c <= start then start - c else c - start)
            <= (if other <= start then start - other else other - start)
  {
  }

  /**
   * What the library's `_print_line(row, k)` puts in a row: the line at `k`
   * passed through `display_value`, or nothing when `k` is past the end. A
   * wrapped line is a plain string, which `display_value` shows as itself
   * (`MessageFormat.DisplayValue` on an `OtherValue`).
   */
  function RowFor(values: seq<string>, k: nat): Row
  {
    if k < |values| then Line(values[k]) else Blank
  }

  /** The rows of a viewport of `displayLength` rows showing `values` from offset `start`. */
  function Window(values: seq<string>, start: nat, displayLength: nat): (w: seq<Row>)
    requires displayLength >= 1
    ensures |w| == displayLength
    decreases displayLength
  {
    if displayLength == 1 then
      [if |values| > start + 1 then More else RowFor(values, start)]
    else
      [RowFor(values, start)] + Window(values, start + 1, displayLength - 1)
  }

  /**
   * Row by row: every row but the last prints the line at its offset, and the
   * last row is the marker when lines remain below it, the line otherwise.
   */
  lemma {:induction false} WindowRows(values: seq<string>, start: nat, displayLength: nat)
    requires displayLength >= 1
    ensures var w := Window(values, start, displayLength);
            (forall i :: 0 <= i < displayLength - 1 ==> w[i] == RowFor(values, start + i)) &&
            w[displayLength - 1]
            == if |values| > start + displayLength then More else RowFor(values, start + displayLength - 1)
    decreases displayLength
  {
    if displayLength > 1 {
      var w := Window(values, start, displayLength);
      var rest := Window(values, start + 1, displayLength - 1);
      WindowRows(values, start + 1, displayLength - 1);
      assert w == [RowFor(values, start)] + rest;
      forall i | 0 <= i < displayLength - 1
        ensures w[i] == RowFor(values, start + i)
      {
        if i > 0 {
          assert w[i] == rest[i - 1];
        }
      }
      assert w[displayLength - 1] == rest[displayLength - 2];
    }
  }

  /** Rows that agree with the window row by row are the window. */
  lemma RowsAreWindow(rs: seq<Row>, values: seq<string>, start: nat, displayLength: nat)
    requires displayLength >= 1 && |rs| == displayLength
    requires forall j :: 0 <= j < displayLength - 1 ==> rs[j] == RowFor(values, start + j)
    requires rs[displayLength - 1]
          == if |values| > start + displayLength then More else RowFor(values, start + displayLength - 1)
    ensures rs == Window(values, start, displayLength)
  {
    var w := Window(values, start, displayLength);
    WindowRows(values, start, displayLength);
    forall i | 0 <= i < displayLength
      ensures rs[i] == w[i]
    {
    }
  }

  /** The last row is the marker exactly when lines exist beyond the window. */
  lemma MoreExactlyWhenHidden(values: seq<string>, start: nat, displayLength: nat)
    requires displayLength >= 1
    ensures Window(values, start, displayLength)[displayLength - 1] == More
        <==> |values| > start + displayLength
  {
    WindowRows(values, start, displayLength);
  }

  /** The texts of the rows that show a line, top to bottom. */
  function Texts(rows: seq<Row>): seq<string>
  {
    if rows == [] then []
    else (if rows[0].Line? then [rows[0].text] else []) + Texts(rows[1..])
  }

  /** How many buffer lines a window shows. */
  function Shown(valuesLen: nat, start: nat, displayLength: nat): nat
    requires displayLength >= 1
  {
    if start >= valuesLen then 0
    else if valuesLen > start + displayLength then displayLength - 1
    else valuesLen - start
  }

  /** Texts of a row followed by more rows. */
  lemma TextsPrepend(r: Row, rest: seq<Row>)
    ensures Texts([r] + rest) == (if r.Line? then [r.text] else []) + Texts(rest)
  {
    assert ([r] + rest)[1..] == rest;
  }

  /** A window of several rows is its first row followed by the window one line further down. */
  lemma WindowUnfold(values: seq<string>, start: nat, displayLength: nat)
    requires displayLength > 1
    ensures Window(values, start, displayLength)
         == [RowFor(values, start)] + Window(values, start + 1, displayLength - 1)
  {
  }

  /** A window whose offset is at or past the end shows no line. */
  lemma {:induction false} WindowPastEnd(values: seq<string>, start: nat, displayLength: nat)
    requires displayLength >= 1 && start >= |values|
    ensures Texts(Window(values, start, displayLength)) == []
    decreases displayLength
  {
    if displayLength > 1 {
      WindowUnfold(values, start, displayLength);
      TextsPrepend(RowFor(values, start), Window(values, start + 1, displayLength - 1));
      WindowPastEnd(values, start + 1, displayLength - 1);
    } else {
      var r := if |values| > start + 1 then More else RowFor(values, start);
      assert Window(values, start, displayLength) == [r] + [];
      TextsPrepend(r, []);
    }
  }

  /** The texts of a window that starts on a line: that line, then the texts of the rest. */
  lemma WindowTextsStep(values: seq<string>, start: nat, displayLength: nat)
    requires displayLength > 1 && start < |values|
    ensures Texts(Window(values, start, displayLength))
         == [values[start]] + Texts(Window(values, start + 1, displayLength - 1))
  {
    WindowUnfold(values, start, displayLength);
    TextsPrepend(Line(values[start]), Window(values, start + 1, displayLength - 1));
  }

  /** The texts of a one-row window. */
  lemma WindowTextsSingle(values: seq<string>, start: nat)
    requires start < |values|
    ensures Texts(Window(values, start, 1))
         == if |values| > start + 1 then [] else [values[start]]
  {
    var r := if |values| > start + 1 then More else RowFor(values, start);
    assert Window(values, start, 1) == [r] + [];
    TextsPrepend(r, []);
  }

  lemma SliceCons(values: seq<string>, i: nat, j: nat)
    requires i < j <= |values|
    ensures values[i..j] == [values[i]] + values[i + 1..j]
  {
  }

  lemma SliceOne(values: seq<string>, i: nat)
    requires i < |values|
    ensures values[i..i + 1] == [values[i]]
  {
  }

  /** The window shows the lines from the offset on, in order and with no gaps. */
  lemma {:induction false} WindowTexts(values: seq<string>, start: nat, displayLength: nat)
    requires displayLength >= 1 && start < |values|
    ensures start + Shown(|values|, start, displayLength) <= |values|
    ensures Texts(Window(values, start, displayLength))
         == values[start..start + Shown(|values|, start, displayLength)]
    decreases displayLength
  {
    var n := |values|;
    var shown := Shown(n, start, displayLength);
    var texts := Texts(Window(values, start, displayLength));
    if displayLength == 1 {
      WindowTextsSingle(values, start);
      if n <= start + 1 {
        assert shown == 1;
        SliceOne(values, start);
      } else {
        assert shown == 0 && texts == [];
        assert values[start..start] == [];
      }
    } else {
      WindowTextsStep(values, start, displayLength);
      if start + 1 < n {
        WindowTexts(values, start + 1, displayLength - 1);
        var k := Shown(n, start + 1, displayLength - 1);
        assert shown == 1 + k;
        SliceCons(values, start, start + 1 + k);
        assert texts == [values[start]] + values[start + 1..start + 1 + k];
      } else {
        WindowPastEnd(values, start + 1, displayLength - 1);
        assert shown == 1 && texts == [values[start]] + [];
        SliceOne(values, start);
      }
    }
  }

  /**
   * With a clamped offset, the window holds `min(displayLength, valuesLen - start)`
   * entries: the lines it shows, plus the marker when there is one.
   */
  lemma WindowEntryCount(values: seq<string>, start: nat, displayLength: nat)
    requires displayLength >= 1 && start <= MaxOffset(|values|, displayLength)
    ensures var w := Window(values, start, displayLength);
            |Texts(w)| + (if w[displayLength - 1] == More then 1 else 0)
            == if displayLength <= |values| - start then displayLength else |values| - start
  {
    MoreExactlyWhenHidden(values, start, displayLength);
    if start < |values| {
      WindowTexts(values, start, displayLength);
    } else {
      WindowPastEnd(values, start, displayLength);
    }
  }

  /** A viewport of row widgets over the wrapped lines of the channel's messages. */
  class ChannelMessages {
    /** The wrapped lines, one per terminal row. */
    var values: seq<string>
    /** `start_display_at`: the index of the line in the top row. */
    var startDisplayAt: int
    /** The row widgets, top to bottom. */
    const rows: array<Row>

    /**
     * The viewport invariant: the offset is in range and, when there is a
     * row widget, the rows are the window at that offset. No operation needs
     * it beforehand (`update` recomputes every row); it summarises the state
     * the constructor and `Update` leave behind.
     */
    ghost predicate Valid()
      reads this, rows
    {
      0 <= startDisplayAt <= MaxOffset(|values|, rows.Length) &&
      (rows.Length >= 1 ==> rows[..] == Window(values, startDisplayAt, rows.Length))
    }

    constructor (height: nat)
      ensures values == [] && startDisplayAt == 0
      ensures fresh(rows) && rows.Length == height
      ensures forall i :: 0 <= i < rows.Length ==> rows[i] == Blank
      ensures Valid()
    {
      values := [];
      startDisplayAt := 0;
      rows := new Row[height](_ => Blank);
      new;
      if height >= 1 {
        RowsAreWindow(rows[..], [], 0, height);
      }
    }

    /**
     * `update`: take the freshly wrapped lines, clamp the offset, print the
     * rows from the offset and put the marker in the last row when needed.
     * With no row widget at all, the program fails fetching the last one
     * after the clamps: `ok` is false and the rows are untouched.
     */
    method Update(wrapped: seq<string>) returns (ok: bool)
      modifies this, rows
      ensures ok <==> rows.Length >= 1
      ensures values == wrapped
      ensures startDisplayAt == Clamp(old(startDisplayAt), |wrapped|, rows.Length)
      ensures 0 <= startDisplayAt <= MaxOffset(|wrapped|, rows.Length)
      ensures ok ==> rows[..] == Window(wrapped, startDisplayAt, rows.Length)
      ensures !ok ==> rows[..] == old(rows[..])
      ensures Valid()
    {
      values := wrapped;
      var displayLength := rows.Length;
      var valuesLen := |values|;

      if startDisplayAt > valuesLen - displayLength {
        startDisplayAt := valuesLen - displayLength;
      }
      if startDisplayAt < 0 {
        startDisplayAt := 0;
      }
      assert startDisplayAt == Clamp(old(startDisplayAt), valuesLen, displayLength);
      if displayLength == 0 {
        // `self._my_widgets[-1]` on no widgets raises.
        return false;
      }

      var indexer := startDisplayAt;
      var r := 0;
      while r < displayLength - 1
        modifies rows
        invariant 0 <= r <= displayLength - 1
        invariant indexer == startDisplayAt + r
        invariant forall j :: 0 <= j < r ==> rows[j] == RowFor(values, startDisplayAt + j)
      {
        rows[r] := RowFor(values, indexer);
        indexer := indexer + 1;
        r := r + 1;
      }

      // Now the final row.
      if valuesLen <= indexer + 1 {
        rows[displayLength - 1] := RowFor(values, indexer);
      } else {
        rows[displayLength - 1] := More;
      }
      RowsAreWindow(rows[..], values, startDisplayAt, displayLength);
      ok := true;
    }
  }
}
