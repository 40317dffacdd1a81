/**
  The row helpers of the data processors and the statistics lines they write
  at the end of a processed file, with the proof that the analysis service
  reads those lines back.
 */
module Processors {
  import opened Wrappers
  import opened Text
  import opened AnalysisService

  // ===========================================================================
  // Inserting columns into a row
  // ===========================================================================

  /** The index `list.insert(position, x)` uses: a negative position counts
      from the end, and the result is clamped to `0..|row|`. */
  function InsertIndex(length: nat, position: int): (k: nat)
    ensures k <= length
    ensures 0 <= position <= length ==> k == position
  {
    if position < 0 then (if length + position < 0 then 0 else length + position)
    else if position > length then length
    else position
  }

  /** `row.insert(position, x)`. */
  function InsertAt(row: seq<string>, position: int, x: string): (r: seq<string>)
    ensures |r| == |row| + 1
    ensures multiset(r) == multiset(row) + multiset{x}
  {
    var k := InsertIndex(|row|, position);
    assert row == row[..k] + row[k..];
    row[..k] + [x] + row[k..]
  }

  /** `s` read backwards. */
  function Reversed(s: seq<string>): (r: seq<string>)
    ensures |r| == |s|
  {
    if s == [] then [] else [s[|s| - 1]] + Reversed(s[..|s| - 1])
  }

  /** The row after inserting each of `cols`, in order, at `position`. */
  function InsertAll(row: seq<string>, position: int, cols: seq<string>): seq<string>
  {
    if cols == [] then row else InsertAt(InsertAll(row, position, cols[..|cols| - 1]), position, cols[|cols| - 1])
  }

  /** Inserting a single column is one `insert`. */
  lemma InsertAllOne(row: seq<string>, position: int, x: string)
    ensures InsertAll(row, position, [x]) == InsertAt(row, position, x)
  {
    assert [x][..0] == [];
  }

  /** `agregar_columnas`: every new column is inserted at the same position of
      the same row, so the row grows by the new columns, keeps everything
      before the position, and for a position inside the row holds the new
      columns there in reverse order. */
  method InsertColumns(row: seq<string>, newColumns: seq<string>, position: int) returns (r: seq<string>)
    ensures |r| == |row| + |newColumns|
    ensures multiset(r) == multiset(row) + multiset(newColumns)
    ensures 0 <= position <= |row| ==> r == row[..position] + Reversed(newColumns) + row[position..]
    ensures r == InsertAll(row, position, newColumns)
  {
    r := row;
    var i := 0;
    while i < |newColumns|
      invariant 0 <= i <= |newColumns|
      invariant |r| == |row| + i
      invariant multiset(r) == multiset(row) + multiset(newColumns[..i])
      invariant 0 <= position <= |row| ==> r == row[..position] + Reversed(newColumns[..i]) + row[position..]
      invariant r == InsertAll(row, position, newColumns[..i])
    {
      InsertedStep(row, newColumns, i, position, r);
      assert newColumns[..i + 1][..i] == newColumns[..i];
      r := InsertAt(r, position, newColumns[i]);
      i := i + 1;
    }
    assert newColumns[..i] == newColumns;
  }

  /** One more insertion at a position inside the row puts the new column in
      front of those inserted before it. */
  lemma InsertedStep(row: seq<string>, newColumns: seq<string>, i: nat, position: int, r: seq<string>)
    requires i < |newColumns|
    requires multiset(r) == multiset(row) + multiset(newColumns[..i])
    requires 0 <= position <= |row| ==> r == row[..position] + Reversed(newColumns[..i]) + row[position..]
    ensures multiset(InsertAt(r, position, newColumns[i])) == multiset(row) + multiset(newColumns[..i + 1])
    ensures 0 <= position <= |row| ==>
              InsertAt(r, position, newColumns[i]) == row[..position] + Reversed(newColumns[..i + 1]) + row[position..]
  {
    var x := newColumns[i];
    assert newColumns[..i + 1] == newColumns[..i] + [x];
    if 0 <= position <= |row| {
      ReversedSnoc(newColumns[..i], x);
      InsertInside(row[..position], Reversed(newColumns[..i]), row[position..], x);
    }
  }

  /** Reading `s + [x]` backwards starts with `x`. */
  lemma ReversedSnoc(s: seq<string>, x: string)
    ensures Reversed(s + [x]) == [x] + Reversed(s)
  {
    assert (s + [x])[..|s|] == s;
  }

  /** Inserting right after `pre` puts the column between `pre` and the rest. */
  lemma InsertInside(pre: seq<string>, mid: seq<string>, post: seq<string>, x: string)
    ensures InsertAt(pre + mid + post, |pre|, x) == pre + ([x] + mid) + post
  {
    var r := pre + mid + post;
    assert r[..|pre|] == pre;
    assert r[|pre|..] == mid + post;
  }

  // ===========================================================================
  // Adjusting a row
  // ===========================================================================

  /** An item that is only whitespace becomes empty; any other item is kept as it is. */
  function AdjustItem(item: string): (r: string)
    ensures r == [] <==> Strip(item) == []
    ensures r != [] ==> r == item
  {
    if Strip(item) != [] then item else []
  }

  function AdjustedItems(items: seq<string>): (r: seq<string>)
    ensures |r| == |items|
  {
    seq(|items|, i requires 0 <= i < |items| => AdjustItem(items[i]))
  }

  /** Adjusting one more item appends its adjusted form. */
  lemma AdjustedStep(items: seq<string>, i: nat)
    requires i < |items|
    ensures AdjustedItems(items[..i + 1]) == AdjustedItems(items[..i]) + [AdjustItem(items[i])]
  {
  }

  /** `ajustar_fila`: the adjusted items joined by `;`. */
  method AdjustRow(items: seq<string>) returns (line: string)
    ensures line == Join(AdjustedItems(items), ";")
  {
    var kept: seq<string> := [];
    var i := 0;
    while i < |items|
      invariant 0 <= i <= |items|
      invariant kept == AdjustedItems(items[..i])
    {
      var x := if Strip(items[i]) != [] then items[i] else "";
      AdjustedStep(items, i);
      kept := kept + [x];
      i := i + 1;
    }
    assert items[..i] == items;
    line := Join(kept, ";");
  }

  /** Splitting an adjusted row on `;` gives one field per item: the item, or
      empty for a blank item, when no item holds `;`. */
  lemma AdjustRowFields(items: seq<string>)
    requires items != [] && forall i :: 0 <= i < |items| ==> ';' !in items[i]
    ensures var fields := Split(Join(AdjustedItems(items), ";"), ";");
      |fields| == |items| &&
      forall i :: 0 <= i < |items| ==>
        (fields[i] == [] <==> Strip(items[i]) == []) && (fields[i] != [] ==> fields[i] == items[i])
  {
    var adjusted := AdjustedItems(items);
    forall i | 0 <= i < |adjusted| ensures ';' !in adjusted[i] {
    }
    SplitJoinChar(adjusted, ';');
  }

  // ===========================================================================
  // Statistics lines
  // ===========================================================================

  /** The values of a statistics line: those from the third on. */
  function FromThird(values: seq<string>): seq<string>
  {
    if |values| >= 2 then values[2..] else []
  }

  /** `;;LABEL;v2;v3;...` and its newline. */
  function StatsLine(heading: string, values: seq<string>): string
  {
    ";;" + heading + ";" + Join(FromThird(values), ";") + "\n"
  }

  /** `exportar_calculos`: the maximum, minimum and range lines, in this order,
      as the text they add to the output file. */
  function ExportStats(maxima: seq<string>, minima: seq<string>, ranges: seq<string>): string
  {
    StatsLine("MAXIMO", maxima) + StatsLine("MINIMO", minima) + StatsLine("RANGO", ranges)
  }

  /** Values a statistics line carries unchanged: at least one, none holding
      `;` or a newline, and the last not ending in whitespace. */
  predicate Exportable(values: seq<string>)
  {
    values != [] &&
    (forall i :: 0 <= i < |values| ==> ';' !in values[i] && '\n' !in values[i]) &&
    var last := values[|values| - 1]; (last == [] || !IsSpace(last[|last| - 1]))
  }

  /** `Join` ends with the last element, or is empty when that element is. */
  lemma {:induction false} JoinLast(xs: seq<string>, sep: string)
    requires xs != []
    ensures var j := Join(xs, sep); var last := xs[|xs| - 1];
      |j| >= |last| && j[|j| - |last|..] == last
    decreases |xs|
  {
    if |xs| > 1 {
      JoinLast(xs[1..], sep);
    }
  }

  lemma {:induction false} JoinNoChar(xs: seq<string>, sep: string, c: char)
    requires c !in sep && forall i :: 0 <= i < |xs| ==> c !in xs[i]
    ensures c !in Join(xs, sep)
    decreases |xs|
  {
    if |xs| > 1 {
      JoinNoChar(xs[1..], sep, c);
    }
  }

  /** Text that is one line: it ends with its only newline. */
  predicate OneLine(l: string)
  {
    |l| >= 1 && l[|l| - 1] == '\n' && '\n' !in l[..|l| - 1]
  }

  /** A statistics line is one line of text. */
  lemma StatsLineShape(heading: string, values: seq<string>)
    requires '\n' !in heading && Exportable(FromThird(values))
    ensures OneLine(StatsLine(heading, values))
  {
    var line := StatsLine(heading, values);
    JoinNoChar(FromThird(values), ";", '\n');
    assert line[..|line| - 1] == ";;" + heading + ";" + Join(FromThird(values), ";");
  }

  /** One line in front of more text is read as that line, then the rest. */
  lemma ReadOneLine(l: string, rest: string)
    requires OneLine(l)
    ensures ReadLines(l + rest) == [l] + ReadLines(rest)
  {
    var t := l[..|l| - 1];
    assert l == t + "\n";
    assert l + rest == t + "\n" + rest;
    ReadLinesLine(t, rest);
  }

  /** Three lines of text are read as those three lines. */
  lemma ReadLinesOfThree(l1: string, l2: string, l3: string)
    requires OneLine(l1) && OneLine(l2) && OneLine(l3)
    ensures ReadLines(l1 + l2 + l3) == [l1, l2, l3]
  {
    ReadOneLine(l3, []);
    assert l3 + [] == l3;
    assert ReadLines(l3) == [l3];
    ReadOneLine(l2, l3);
    assert ReadLines(l2 + l3) == [l2, l3];
    ReadOneLine(l1, l2 + l3);
    StringAssoc(l1, l2, l3);
  }

  /** Three lines after text that is empty or ends with a newline are read as three more lines. */
  lemma ReadThreeLines(before: string, l1: string, l2: string, l3: string)
    requires before == [] || before[|before| - 1] == '\n'
    requires OneLine(l1) && OneLine(l2) && OneLine(l3)
    ensures ReadLines(before + (l1 + l2 + l3)) == ReadLines(before) + [l1, l2, l3]
  {
    ReadLinesAppend(before, l1 + l2 + l3);
    ReadLinesOfThree(l1, l2, l3);
  }

  /** The stripped line of exportable values, read after its prefix and split
      on `;`, gives back the values written. */
  lemma StatsLineRead(heading: string, values: seq<string>)
    requires Exportable(FromThird(values)) && '\n' !in heading
    ensures StatsValues(StatsLine(heading, values), ";;" + heading + ";") == FromThird(values)
  {
    var vals := FromThird(values);
    var prefix := ";;" + heading + ";";
    var body := Join(vals, ";");
    var text := prefix + body;
    assert StatsLine(heading, values) == text + "\n";
    var last := vals[|vals| - 1];
    JoinLast(vals, ";");
    if last == [] && |vals| > 1 {
      JoinSnoc(vals[..|vals| - 1], last, ";");
      assert vals[..|vals| - 1] + [last] == vals;
    }
    assert !IsSpace(text[|text| - 1]) by {
      if last != [] {
        assert text[|text| - 1] == last[|last| - 1];
      } else if |vals| > 1 {
        assert text[|text| - 1] == ';';
      } else {
        assert body == [];
        assert text[|text| - 1] == ';';
      }
    }
    assert text[0] == ';';
    StripLineEnd(text);
    assert text[|prefix|..] == body;
    SplitJoinChar(vals, ';');
  }

  /** A statistics line starts with the prefix of a heading exactly when it
      was written under that heading. */
  lemma StatsLinePrefix(h1: string, h2: string, values: seq<string>)
    requires ';' !in h1 && ';' !in h2
    ensures StartsWith(StatsLine(h1, values), ";;" + h2 + ";") <==> h1 == h2
  {
    var line := StatsLine(h1, values);
    var p1 := ";;" + h1 + ";";
    var p := ";;" + h2 + ";";
    assert line == p1 + (Join(FromThird(values), ";") + "\n");
    assert forall k :: 0 <= k < |p1| ==> line[k] == p1[k];
    if h1 != h2 {
      if |h1| < |h2| {
        assert line[2 + |h1|] == ';' && p[2 + |h1|] == h2[|h1|];
      } else if |h1| > |h2| {
        assert line[2 + |h2|] == h1[|h2|] && p[2 + |h2|] == ';';
      } else {
        var k :| 0 <= k < |h1| && h1[k] != h2[k];
        assert line[2 + k] == h1[k] && p[2 + k] == h2[k];
      }
    }
  }

  /** The exported text, after text that is empty or ends with a newline, is
      read as the earlier lines and then the three statistics lines. */
  lemma ExportedLines(before: string, maxima: seq<string>, minima: seq<string>, ranges: seq<string>)
    requires before == [] || before[|before| - 1] == '\n'
    requires Exportable(FromThird(maxima)) && Exportable(FromThird(minima)) && Exportable(FromThird(ranges))
    ensures ReadLines(before + ExportStats(maxima, minima, ranges)) ==
              ReadLines(before) + [StatsLine("MAXIMO", maxima), StatsLine("MINIMO", minima), StatsLine("RANGO", ranges)]
  {
    StatsLineShape("MAXIMO", maxima);
    StatsLineShape("MINIMO", minima);
    StatsLineShape("RANGO", ranges);
    ReadThreeLines(before, StatsLine("MAXIMO", maxima), StatsLine("MINIMO", minima), StatsLine("RANGO", ranges));
  }

  /** When the statistics line of a heading is among the last three lines
      and no later or earlier one of them starts with the prefix of the
      calculation, the values of that line are the ones extracted. */
  lemma ExtractAt(lines: seq<string>, calculation: string, m: int, heading: string, values: seq<string>)
    requires |lines| >= 3 && |lines| - 3 <= m < |lines|
    requires Upper(calculation) == heading && '\n' !in heading
    requires lines[m] == StatsLine(heading, values) && Exportable(FromThird(values))
    requires forall j :: |lines| - 3 <= j < |lines| && j != m ==> !StartsWith(lines[j], StatsPrefix(calculation))
    ensures ExtractStats(lines, calculation) == Some(FromThird(values))
  {
    var prefix := StatsPrefix(calculation);
    assert prefix == ";;" + heading + ";";
    assert StartsWith(lines[m], prefix);
    StatsLineRead(heading, values);
  }

  /** Lines that end with the three statistics lines give back the values of
      the calculation asked for. */
  lemma ExtractFromStatsLines(lines: seq<string>, maxima: seq<string>, minima: seq<string>, ranges: seq<string>,
                              calculation: string)
    requires |lines| >= 3
    requires lines[|lines| - 3] == StatsLine("MAXIMO", maxima)
    requires lines[|lines| - 2] == StatsLine("MINIMO", minima)
    requires lines[|lines| - 1] == StatsLine("RANGO", ranges)
    requires Exportable(FromThird(maxima)) && Exportable(FromThird(minima)) && Exportable(FromThird(ranges))
    requires Upper(calculation) == "MAXIMO" || Upper(calculation) == "MINIMO" || Upper(calculation) == "RANGO"
    ensures ExtractStats(lines, calculation) ==
              Some(FromThird(if Upper(calculation) == "MAXIMO" then maxima
                             else if Upper(calculation) == "MINIMO" then minima
                             else ranges))
  {
    var heading := Upper(calculation);
    var n := |lines| - 3;
    StatsLinePrefix("MAXIMO", heading, maxima);
    StatsLinePrefix("MINIMO", heading, minima);
    StatsLinePrefix("RANGO", heading, ranges);
    if heading == "MAXIMO" {
      ExtractAt(lines, calculation, n, heading, maxima);
    } else if heading == "MINIMO" {
      ExtractAt(lines, calculation, n + 1, heading, minima);
    } else {
      ExtractAt(lines, calculation, n + 2, heading, ranges);
    }
  }

  lemma LastThree(xs: seq<string>, a: string, b: string, c: string)
    ensures var ys := xs + [a, b, c]; |ys| >= 3 && ys[|ys| - 3] == a && ys[|ys| - 2] == b && ys[|ys| - 1] == c
  {
  }

  /** The service reads back, from the file the processors wrote, the values
      of the calculation asked for: the maximum, minimum or range line. */
  lemma ExportExtractRoundTrip(before: string, maxima: seq<string>, minima: seq<string>, ranges: seq<string>,
                               calculation: string)
    requires before == [] || before[|before| - 1] == '\n'
    requires Exportable(FromThird(maxima)) && Exportable(FromThird(minima)) && Exportable(FromThird(ranges))
    requires Upper(calculation) == "MAXIMO" || Upper(calculation) == "MINIMO" || Upper(calculation) == "RANGO"
    ensures ExtractStats(ReadLines(before + ExportStats(maxima, minima, ranges)), calculation) ==
              Some(FromThird(if Upper(calculation) == "MAXIMO" then maxima
                             else if Upper(calculation) == "MINIMO" then minima
                             else ranges))
  {
    ExtractAfterLines(ReadLines(before), maxima, minima, ranges, calculation);
    ExportedLines(before, maxima, minima, ranges);
  }

  /** Any lines followed by the three statistics lines give back the values of the calculation asked for. */
  lemma ExtractAfterLines(prev: seq<string>, maxima: seq<string>, minima: seq<string>, ranges: seq<string>,
                          calculation: string)
    requires Exportable(FromThird(maxima)) && Exportable(FromThird(minima)) && Exportable(FromThird(ranges))
    requires Upper(calculation) == "MAXIMO" || Upper(calculation) == "MINIMO" || Upper(calculation) == "RANGO"
    ensures ExtractStats(prev + [StatsLine("MAXIMO", maxima), StatsLine("MINIMO", minima), StatsLine("RANGO", ranges)],
                         calculation) ==
              Some(FromThird(if Upper(calculation) == "MAXIMO" then maxima
                             else if Upper(calculation) == "MINIMO" then minima
                             else ranges))
  {
    var l1, l2, l3 := StatsLine("MAXIMO", maxima), StatsLine("MINIMO", minima), StatsLine("RANGO", ranges);
    LastThree(prev, l1, l2, l3);
    ExtractFromStatsLines(prev + [l1, l2, l3], maxima, minima, ranges, calculation);
  }

  lemma {:induction false} JoinSnoc(xs: seq<string>, x: string, sep: string)
    requires xs != []
    ensures Join(xs + [x], sep) == Join(xs, sep) + sep + x
    decreases |xs|
  {
    if |xs| == 1 {
      assert (xs + [x])[1..] == [x];
    } else {
      assert (xs + [x])[1..] == xs[1..] + [x];
      JoinSnoc(xs[1..], x, sep);
    }
  }
}
