/** The text the email sink's writer puts into its buffer for one row.

    `write` appends every field followed by a comma, then deletes the character
    at index `|fields| - 1` of the WHOLE buffer and appends a newline. `WriteSpec`
    states that effect; `IntendedLine` is the comma-joined line without a
    trailing delimiter that the code evidently means to produce. The lemmas
    relate the two and state the properties of each. */
module RowText {

  /** The text the append loop adds for `fields`: each field followed by a comma. */
  function Cells(fields: seq<string>): string
  {
    if fields == [] then "" else fields[0] + "," + Cells(fields[1..])
  }

  /** Total length of the rendered fields. */
  function SumLen(fields: seq<string>): nat
  {
    if fields == [] then 0 else |fields[0]| + SumLen(fields[1..])
  }

  /** `StringBuffer.deleteCharAt(k)` on the text `s`: the character at index `k`
      is removed and every other character keeps its order. */
  function DeleteAt(s: string, k: nat): (r: string)
    requires k < |s|
    ensures |r| == |s| - 1
    ensures forall i :: 0 <= i < k ==> r[i] == s[i]
    ensures forall i :: k <= i < |r| ==> r[i] == s[i + 1]
  {
    s[..k] + s[k + 1..]
  }

  /** Result of one `write`: either the call returned and left `buffer`, or
      `deleteCharAt` threw for `index`, leaving the appended text in `buffer`. */
  datatype WriteResult = Wrote(buffer: string) | OutOfBounds(buffer: string, index: int)

  /** The effect of `write(fields)` on a buffer holding `buffer`, as the code does it. */
  function WriteSpec(buffer: string, fields: seq<string>): WriteResult
  {
    var s := buffer + Cells(fields);
    var k := |fields| - 1;
    if 0 <= k < |s| then Wrote(DeleteAt(s, k) + "\n") else OutOfBounds(s, k)
  }

  /** Fields joined by single commas, no delimiter after the last one. */
  function Join(fields: seq<string>): string
  {
    if |fields| == 0 then ""
    else if |fields| == 1 then fields[0]
    else fields[0] + "," + Join(fields[1..])
  }

  /** The line the writer evidently intends for one row. */
  function IntendedLine(fields: seq<string>): string
  {
    Join(fields) + "\n"
  }

  /** The buffer after the intended encoding of `rows`, one line each. */
  function IntendedBatch(rows: seq<seq<string>>): string
  {
    if rows == [] then "" else IntendedLine(rows[0]) + IntendedBatch(rows[1..])
  }

  /** Splits `s` at every occurrence of `d`; always at least one piece. */
  function SplitOn(s: string, d: char): (r: seq<string>)
    ensures |r| >= 1
    ensures |r| == CountChar(s, d) + 1
    decreases |s|
  {
    if s == [] then [""]
    else
      var rest := SplitOn(s[1..], d);
      if s[0] == d then [""] + rest else [[s[0]] + rest[0]] + rest[1..]
  }

  /** Number of occurrences of `c` in `s`. */
  function CountChar(s: string, c: char): nat
    decreases |s|
  {
    if s == [] then 0 else (if s[0] == c then 1 else 0) + CountChar(s[1..], c)
  }

  /** No field contains the character `c`. */
  predicate Free(fields: seq<string>, c: char)
  {
    forall i :: 0 <= i < |fields| ==> c !in fields[i]
  }

  // ---------------------------------------------------------------------------
  // Facts about the append loop

  lemma {:induction false} CellsLength(fields: seq<string>)
    ensures |Cells(fields)| == SumLen(fields) + |fields|
  {
    if fields != [] {
      CellsLength(fields[1..]);
    }
  }

  /** Appending one more field adds that field and one comma at the end. */
  lemma {:induction false} CellsSnoc(fields: seq<string>, f: string)
    ensures Cells(fields + [f]) == Cells(fields) + f + ","
  {
    if fields == [] {
      assert (fields + [f])[1..] == [];
    } else {
      assert (fields + [f])[0] == fields[0];
      assert (fields + [f])[1..] == fields[1..] + [f];
      CellsSnoc(fields[1..], f);
    }
  }

  /** For a non-empty row the loop's text is the intended line's text plus one comma. */
  lemma {:induction false} CellsJoin(fields: seq<string>)
    requires |fields| >= 1
    ensures Cells(fields) == Join(fields) + ","
  {
    if |fields| == 1 {
      assert fields[1..] == [];
    } else {
      CellsJoin(fields[1..]);
    }
  }

  // ---------------------------------------------------------------------------
  // Properties of `write` as it is written

  /** `write` throws exactly for a row with no fields; the index is then -1 and
      the buffer is left as it was. For n >= 1 fields, n commas were appended, so
      index n - 1 is always in range. */
  lemma WriteFailsIffEmpty(buffer: string, fields: seq<string>)
    ensures WriteSpec(buffer, fields).OutOfBounds? <==> |fields| == 0
    ensures |fields| == 0 ==> WriteSpec(buffer, fields) == OutOfBounds(buffer, -1)
  {
    CellsLength(fields);
  }

  /** Length law: n commas appended, one character deleted, one newline appended. */
  lemma WriteLength(buffer: string, fields: seq<string>)
    requires |fields| >= 1
    ensures WriteSpec(buffer, fields).Wrote?
    ensures |WriteSpec(buffer, fields).buffer| == |buffer| + SumLen(fields) + |fields|
  {
    CellsLength(fields);
  }

  /** Every row with a field is written, and leaves a non-empty buffer that
      ends with a newline. */
  lemma WriteEndsWithNewline(buffer: string, fields: seq<string>)
    requires |fields| >= 1
    ensures WriteSpec(buffer, fields).Wrote?
    ensures var b := WriteSpec(buffer, fields).buffer; |b| >= 1 && b[|b| - 1] == '\n'
  {
    CellsLength(fields);
  }

  /** `write` never clears the buffer: it never gets shorter, and the earlier
      text before index n - 1 is kept as it was. */
  lemma WriteNeverClears(buffer: string, fields: seq<string>)
    ensures |WriteSpec(buffer, fields).buffer| >= |buffer|
    ensures forall i :: 0 <= i < |buffer| && i < |fields| - 1 ==> WriteSpec(buffer, fields).buffer[i] == buffer[i]
  {
    CellsLength(fields);
  }

  /** Exact effect: with s = buffer + Cells(fields) and n = |fields|, every
      character of s except the one at index n - 1 is kept, in order, and a
      newline follows. */
  lemma WriteChars(buffer: string, fields: seq<string>)
    requires |fields| >= 1
    ensures WriteSpec(buffer, fields).Wrote?
    ensures var s, b := buffer + Cells(fields), WriteSpec(buffer, fields).buffer;
            |b| == |s|
            && (forall i :: 0 <= i < |fields| - 1 ==> b[i] == s[i])
            && (forall i :: |fields| - 1 <= i < |s| - 1 ==> b[i] == s[i + 1])
            && b[|s| - 1] == '\n'
  {
    CellsLength(fields);
  }

  /** A row with more fields than the buffer has characters loses a character
      of its own text; the earlier text survives whole. */
  lemma WriteWithinRow(buffer: string, fields: seq<string>)
    requires |fields| > |buffer|
    ensures |Cells(fields)| > |fields| - 1 - |buffer|
    ensures WriteSpec(buffer, fields) == Wrote(buffer + DeleteAt(Cells(fields), |fields| - 1 - |buffer|) + "\n")
  {
    CellsLength(fields);
    var c := Cells(fields);
    var s := buffer + c;
    var k := |fields| - 1;
    var j := k - |buffer|;
    assert s[..k] == buffer + c[..j];
    assert s[k + 1..] == c[j + 1..];
    assert DeleteAt(s, k) == buffer + DeleteAt(c, j);
  }

  /** A row with at most as many fields as the buffer has characters deletes
      the character at index n - 1 of the earlier text and is appended whole,
      trailing comma included. */
  lemma WriteIntoEarlier(buffer: string, fields: seq<string>)
    requires 1 <= |fields| <= |buffer|
    ensures WriteSpec(buffer, fields) == Wrote(DeleteAt(buffer, |fields| - 1) + Cells(fields) + "\n")
  {
    DeleteAtAppend(buffer, Cells(fields), |fields| - 1);
  }

  /** Deleting inside the left part of a concatenation leaves the right part intact. */
  lemma DeleteAtAppend(a: string, b: string, k: nat)
    requires k < |a|
    ensures DeleteAt(a + b, k) == DeleteAt(a, k) + b
  {
    assert (a + b)[..k] == a[..k];
    assert (a + b)[k + 1..] == a[k + 1..] + b;
  }

  /** Removing index i or index j (i <= j) gives the same text exactly when the
      characters from i to j are all equal to their right neighbours. */
  lemma DeleteAtSame(s: string, i: nat, j: nat)
    requires i <= j < |s|
    ensures DeleteAt(s, i) == DeleteAt(s, j) <==> forall k :: i <= k < j ==> s[k] == s[k + 1]
  {
    if forall k :: i <= k < j ==> s[k] == s[k + 1] {
      var a, b := DeleteAt(s, i), DeleteAt(s, j);
      assert forall m :: 0 <= m < |a| ==> a[m] == b[m];
    }
    if DeleteAt(s, i) == DeleteAt(s, j) {
      forall k | i <= k < j ensures s[k] == s[k + 1] {
        assert DeleteAt(s, i)[k] == s[k + 1];
        assert DeleteAt(s, j)[k] == s[k];
      }
    }
  }

  /** Neighbours equal from i to the end, with last character c: all are c. */
  lemma {:induction false} RunToEnd(s: string, i: nat, c: char)
    requires i < |s| && s[|s| - 1] == c
    requires forall k :: i <= k < |s| - 1 ==> s[k] == s[k + 1]
    ensures forall k :: i <= k < |s| ==> s[k] == c
    decreases |s| - i
  {
    if i < |s| - 1 {
      RunToEnd(s, i + 1, c);
      assert s[i] == s[i + 1];
    }
  }

  /** The code produces the intended line exactly when, in s = buffer + Cells(fields),
      every character from index n - 1 to the end is a comma (so deleting index
      n - 1 is the same as deleting the trailing comma). */
  lemma AgreesWithIntendedIff(buffer: string, fields: seq<string>)
    requires |fields| >= 1
    ensures WriteSpec(buffer, fields) == Wrote(buffer + IntendedLine(fields)) <==>
      forall k :: |fields| - 1 <= k < |buffer + Cells(fields)| ==> (buffer + Cells(fields))[k] == ','
  {
    CellsLength(fields);
    CellsJoin(fields);
    var s := buffer + Cells(fields);
    var n := |fields|;
    assert s[|s| - 1] == ',';
    assert buffer + Join(fields) == DeleteAt(s, |s| - 1);
    var actual := DeleteAt(s, n - 1);
    var intended := DeleteAt(s, |s| - 1);
    assert WriteSpec(buffer, fields) == Wrote(actual + "\n");
    assert buffer + IntendedLine(fields) == intended + "\n";
    assert actual + "\n" == intended + "\n" <==> actual == intended by {
      if actual + "\n" == intended + "\n" {
        assert actual == (actual + "\n")[..|actual|];
        assert intended == (intended + "\n")[..|intended|];
      }
    }
    DeleteAtSame(s, n - 1, |s| - 1);
    if forall k :: n - 1 <= k < |s| - 1 ==> s[k] == s[k + 1] {
      RunToEnd(s, n - 1, ',');
    }
  }

  /** The row ["a", "1", "true"] into an empty buffer: the code leaves
      "a,,true,\n" (the "1" at index 2 is deleted), not "a,1,true\n". */
  lemma ExampleRowDiverges()
    ensures WriteSpec("", ["a", "1", "true"]) == Wrote("a,,true,\n")
    ensures IntendedLine(["a", "1", "true"]) == "a,1,true\n"
  {
    var row := ["a", "1", "true"];
    assert row[1..] == ["1", "true"] && row[1..][1..] == ["true"] && row[1..][1..][1..] == [];
    assert Cells(["true"]) == "true,";
    assert Cells(["1", "true"]) == "1,true,";
    assert Cells(row) == "a,1,true,";
    WriteWithinRow("", row);
    var cells := "a,1,true,";
    assert cells[..2] == "a," && cells[3..] == ",true,";
    assert DeleteAt(cells, 2) == "a,,true,";
    assert "" + "a,,true," + "\n" == "a,,true,\n";
    assert Join(row) == "a,1,true";
  }

  /** The line the code leaves for ["a", "1", "true"] does not split back into
      the row: it has four pieces, the second one empty. */
  lemma ExampleSplitBroken()
    ensures SplitOn("a,,true,", ',') == ["a", "", "true", ""]
  {
    var pieces := ["a", "", "true", ""];
    assert pieces[1..] == ["", "true", ""] && pieces[1..][1..] == ["true", ""];
    assert pieces[1..][1..][1..] == [""] && pieces[1..][1..][1..][1..] == [];
    assert Join(["true", ""]) == "true,";
    assert Join(["", "true", ""]) == ",true,";
    assert Join(pieces) == "a,,true,";
    SplitJoin(pieces);
  }

  /** Two rows into an empty buffer: after the first one (see ExampleRowDiverges)
      the second row deletes a comma of the first line, so the buffer holds
      "a,true,\nb,2,false,\n" rather than the intended "a,1,true\nb,2,false\n". */
  lemma ExampleTwoRows()
    ensures WriteSpec("a,,true,\n", ["b", "2", "false"]) == Wrote("a,true,\nb,2,false,\n")
  {
    var row := ["b", "2", "false"];
    assert row[1..] == ["2", "false"] && row[1..][1..] == ["false"] && row[1..][1..][1..] == [];
    assert Cells(["false"]) == "false,";
    assert Cells(["2", "false"]) == "2,false,";
    assert Cells(row) == "b,2,false,";
    WriteIntoEarlier("a,,true,\n", row);
    var first := "a,,true,\n";
    assert first[..2] == "a," && first[3..] == "true,\n";
    assert DeleteAt(first, 2) == "a,true,\n";
    assert "a,true,\n" + "b,2,false," + "\n" == "a,true,\nb,2,false,\n";
  }

  /** The same two rows under the intended encoding. */
  lemma ExampleTwoRowsIntended()
    ensures IntendedBatch([["a", "1", "true"], ["b", "2", "false"]]) == "a,1,true\nb,2,false\n"
  {
    var row1, row2 := ["a", "1", "true"], ["b", "2", "false"];
    assert row1[1..] == ["1", "true"] && row1[1..][1..] == ["true"];
    assert row2[1..] == ["2", "false"] && row2[1..][1..] == ["false"];
    assert Join(row1) == "a,1,true";
    assert Join(row2) == "b,2,false";
    var rows := [row1, row2];
    assert rows[1..] == [row2] && rows[1..][1..] == [];
    assert IntendedBatch(rows[1..]) == "b,2,false\n";
  }

  /** The first row of the line-merging example: a one-field row deletes the
      first character of the whole buffer. */
  lemma ExampleFirstOfMerge()
    ensures WriteSpec("", ["x"]) == Wrote(",\n")
  {
    assert ["x"][1..] == [];
    assert Cells(["x"]) == "x,";
    WriteWithinRow("", ["x"]);
    var cells := "x,";
    assert cells[..0] == "" && cells[1..] == ",";
    assert DeleteAt(cells, 0) == ",";
    assert "" + "," + "\n" == ",\n";
  }

  /** The deleted character can be an earlier line break: after ["x"] (see
      ExampleFirstOfMerge) the row ["p", "q"] deletes the line break, and the
      buffer holds a single line for two rows. */
  lemma ExampleLinesMerge()
    ensures WriteSpec(",\n", ["p", "q"]) == Wrote(",p,q,\n")
    ensures CountChar(",p,q,\n", '\n') == 1
  {
    var row := ["p", "q"];
    assert row[1..] == ["q"] && row[1..][1..] == [];
    assert Cells(row) == "p,q,";
    WriteIntoEarlier(",\n", row);
    var first := ",\n";
    assert first[..1] == "," && first[2..] == "";
    assert DeleteAt(first, 1) == ",";
    assert "," + "p,q," + "\n" == ",p,q,\n";
    CountCharAbsent(",p,q,", '\n');
    CountCharAppend(",p,q,", "\n", '\n');
  }

  // ---------------------------------------------------------------------------
  // Properties of the intended encoding

  lemma {:induction false} CountCharAppend(a: string, b: string, c: char)
    ensures CountChar(a + b, c) == CountChar(a, c) + CountChar(b, c)
    decreases |a|
  {
    if a == [] {
      assert a + b == b;
    } else {
      assert (a + b)[0] == a[0];
      assert (a + b)[1..] == a[1..] + b;
      CountCharAppend(a[1..], b, c);
    }
  }

  lemma {:induction false} CountCharAbsent(s: string, c: char)
    requires c !in s
    ensures CountChar(s, c) == 0
    decreases |s|
  {
    if s != [] {
      assert s == [s[0]] + s[1..];
      CountCharAbsent(s[1..], c);
    }
  }

  /** A non-empty row whose fields hold no comma has exactly n - 1 delimiters,
      hence n fields. */
  lemma {:induction false} JoinDelimiters(fields: seq<string>)
    requires |fields| >= 1 && Free(fields, ',')
    ensures CountChar(Join(fields), ',') == |fields| - 1
  {
    CountCharAbsent(fields[0], ',');
    if |fields| > 1 {
      JoinDelimiters(fields[1..]);
      CountCharAppend(fields[0], ",", ',');
      CountCharAppend(fields[0] + ",", Join(fields[1..]), ',');
    }
  }

  /** Fields free of `c` yield a joined text free of `c`, for any `c` other than the comma. */
  lemma {:induction false} JoinAvoids(fields: seq<string>, c: char)
    requires c != ',' && Free(fields, c)
    ensures CountChar(Join(fields), c) == 0
  {
    if |fields| == 1 {
      CountCharAbsent(fields[0], c);
    } else if |fields| > 1 {
      CountCharAbsent(fields[0], c);
      JoinAvoids(fields[1..], c);
      CountCharAppend(fields[0], ",", c);
      CountCharAppend(fields[0] + ",", Join(fields[1..]), c);
    }
  }

  /** Splitting stops at the first delimiter: a delimiter-free prefix joins the first piece. */
  lemma {:induction false} SplitPrefix(f: string, t: string, d: char)
    requires d !in f
    ensures SplitOn(f + t, d) == [f + SplitOn(t, d)[0]] + SplitOn(t, d)[1..]
    decreases |f|
  {
    if f == [] {
      var x := SplitOn(t, d);
      assert f + t == t;
      assert f + x[0] == x[0];
      assert x == [x[0]] + x[1..];
    } else {
      assert (f + t)[0] == f[0];
      assert (f + t)[1..] == f[1..] + t;
      assert f == [f[0]] + f[1..];
      SplitPrefix(f[1..], t, d);
      assert [f[0]] + (f[1..] + SplitOn(t, d)[0]) == f + SplitOn(t, d)[0];
    }
  }

  /** Round trip: splitting the joined line on commas gives the fields back,
      provided no field contains a comma. */
  lemma {:induction false} SplitJoin(fields: seq<string>)
    requires |fields| >= 1 && Free(fields, ',')
    ensures SplitOn(Join(fields), ',') == fields
  {
    if |fields| == 1 {
      SplitPrefix(fields[0], "", ',');
      assert fields[0] + "" == fields[0];
    } else {
      var rest := Join(fields[1..]);
      SplitJoin(fields[1..]);
      assert ("," + rest)[1..] == rest;
      assert SplitOn("," + rest, ',') == [""] + fields[1..];
      assert Join(fields) == fields[0] + ("," + rest);
      SplitPrefix(fields[0], "," + rest, ',');
      assert fields[0] + "" == fields[0];
    }
  }

  /** The intended line holds exactly one line break, at its end, when no field
      contains a line break. */
  lemma IntendedLineBreaks(fields: seq<string>)
    requires Free(fields, '\n')
    ensures CountChar(IntendedLine(fields), '\n') == 1
    ensures IntendedLine(fields)[|IntendedLine(fields)| - 1] == '\n'
  {
    JoinAvoids(fields, '\n');
    CountCharAppend(Join(fields), "\n", '\n');
  }

  /** N rows encoded as intended give exactly N line breaks. */
  lemma {:induction false} IntendedBatchLines(rows: seq<seq<string>>)
    requires forall r :: 0 <= r < |rows| ==> Free(rows[r], '\n')
    ensures CountChar(IntendedBatch(rows), '\n') == |rows|
  {
    if rows != [] {
      IntendedLineBreaks(rows[0]);
      IntendedBatchLines(rows[1..]);
      CountCharAppend(IntendedLine(rows[0]), IntendedBatch(rows[1..]), '\n');
    }
  }

  /** Appending one more intended row to a batch extends it by that row's line. */
  lemma {:induction false} IntendedBatchSnoc(rows: seq<seq<string>>, fields: seq<string>)
    ensures IntendedBatch(rows + [fields]) == IntendedBatch(rows) + IntendedLine(fields)
  {
    if rows == [] {
      assert ([fields])[1..] == [];
    } else {
      assert (rows + [fields])[0] == rows[0];
      assert (rows + [fields])[1..] == rows[1..] + [fields];
      IntendedBatchSnoc(rows[1..], fields);
    }
  }
}
