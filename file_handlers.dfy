/**
  The pure parts of reading one section of a raw export: which kind of data
  the section holds, where its processed file goes, how the three header
  lines gain the time column and are cut or padded to one width, and which
  part of a file name is the patient.
 */
module FileHandlers {
  import opened Wrappers
  import opened Text
  import opened Validators
  import opened Processors

  const Kinematic: string := "Cinematica"
  const Kinetic: string := "Cinetica"
  const UnknownFrequency: string := "Desconocida"

  /** The name of the time column inserted into every header. */
  const TimeColumn: string := "Tiempo"

  /** Index at which the time column is inserted. */
  const TimeIndex: int := 2

  // ===========================================================================
  // Kind of data
  // ===========================================================================

  /** `_determinar_frecuencia_por_contenido`: "Model Outputs" in the description
      line means kinematic data and wins over "Force Plate" in the attributes
      line, which means kinetic data; anything else is unknown. */
  function FrequencyByContent(description: string, attributes: string): (r: string)
    ensures r == Kinematic <==> Contains(description, "Model Outputs")
    ensures r == Kinetic <==> !Contains(description, "Model Outputs") && Contains(attributes, "Force Plate")
    ensures r == UnknownFrequency <==> !Contains(description, "Model Outputs") && !Contains(attributes, "Force Plate")
  {
    if Contains(description, "Model Outputs") then Kinematic
    else if Contains(attributes, "Force Plate") then Kinetic
    else UnknownFrequency
  }

  // ===========================================================================
  // Where the processed section goes
  // ===========================================================================

  /** The processed file's name: every `.txt` becomes `_<kind>.txt`, then every
      `.csv` becomes `_<kind>.csv`. */
  function ProcessedName(name: string, frequency: string): string
  {
    ReplaceAll(ReplaceAll(name, ".txt", "_" + frequency + ".txt"), ".csv", "_" + frequency + ".csv")
  }

  /** The processed file's path, as folder names and the file name: the kind
      of data is a folder beside the raw file. */
  function ProcessedPath(parent: seq<string>, name: string, frequency: string): (r: seq<string>)
    ensures |r| == |parent| + 2 && r[..|parent|] == parent && r[|parent|] == frequency
  {
    parent + [frequency, ProcessedName(name, frequency)]
  }

  /** A raw `<stem>.txt` or `<stem>.csv` without other dots becomes
      `<stem>_<kind>.txt` or `<stem>_<kind>.csv`. */
  lemma ProcessedNameOfPlain(stem: string, ext: string, frequency: string)
    requires '.' !in stem && '.' !in frequency && (ext == "txt" || ext == "csv")
    ensures ProcessedName(stem + "." + ext, frequency) == stem + "_" + frequency + "." + ext
  {
    if ext == "txt" {
      ProcessedTxt(stem, frequency);
      assert stem + "." + ext == stem + ".txt";
    } else {
      ProcessedCsv(stem, frequency);
      assert stem + "." + ext == stem + ".csv";
    }
  }

  lemma ProcessedTxt(stem: string, frequency: string)
    requires '.' !in stem && '.' !in frequency
    ensures ProcessedName(stem + ".txt", frequency) == stem + "_" + frequency + ".txt"
  {
    var txtRep := "_" + frequency + ".txt";
    var csvRep := "_" + frequency + ".csv";
    var head := stem + "_" + frequency;
    ReplaceAfterPlain(stem, ".txt", ".txt", txtRep);
    ReplaceWhole(".txt", txtRep);
    var t := ReplaceAll(stem + ".txt", ".txt", txtRep);
    assert t == head + ".txt";
    assert '.' !in head;
    ReplaceAfterPlain(head, ".txt", ".csv", csvRep);
    assert ".txt"[1] != ".csv"[1] && ".txt"[1..] == "txt";
    ReplaceNoMatch(".txt", ".csv", csvRep);
  }

  lemma ProcessedCsv(stem: string, frequency: string)
    requires '.' !in stem && '.' !in frequency
    ensures ProcessedName(stem + ".csv", frequency) == stem + "_" + frequency + ".csv"
  {
    var txtRep := "_" + frequency + ".txt";
    var csvRep := "_" + frequency + ".csv";
    ReplaceAfterPlain(stem, ".csv", ".txt", txtRep);
    assert ".csv"[1] != ".txt"[1] && ".csv"[1..] == "csv";
    ReplaceNoMatch(".csv", ".txt", txtRep);
    ReplaceAfterPlain(stem, ".csv", ".csv", csvRep);
    ReplaceWhole(".csv", csvRep);
  }

  /** A processed file of known kind names the same subject, descriptors and
      attempt as the raw file it came from, when the raw stem ends with its
      attempt number. */
  lemma ProcessedNameIdentity(stem: string, ext: string, description: string, attributes: string,
                              vars: seq<Variable>)
    requires stem != [] && '.' !in stem && IsDigit(stem[|stem| - 1]) && (ext == "txt" || ext == "csv")
    requires FrequencyByContent(description, attributes) != UnknownFrequency
    ensures var frequency := FrequencyByContent(description, attributes);
      FileNameIdentity(ProcessedName(stem + "." + ext, frequency), vars) == FileNameIdentity(stem + "." + ext, vars)
  {
    var frequency := FrequencyByContent(description, attributes);
    assert frequency in ProcessedFolders;
    ProcessedNameOfPlain(stem, ext, frequency);
    BaseNameProcessed(stem, frequency, ext);
    BaseNameRaw(stem, ext);
  }

  // ===========================================================================
  // Header widths
  // ===========================================================================

  /** `adjust_list_length`: the first `target` items, padded with `default`
      when there are fewer. */
  function AdjustListLength(items: seq<string>, target: nat, default: string): (r: seq<string>)
    ensures |r| == target
    ensures forall i :: 0 <= i < target ==> r[i] == if i < |items| then items[i] else default
  {
    if |items| > target then items[..target]
    else if |items| < target then items + seq(target - |items|, _ => default)
    else items
  }

  /** A list already of the target length is left as it is. */
  lemma AdjustListLengthFixed(items: seq<string>, default: string)
    ensures AdjustListLength(items, |items|, default) == items
  {
  }

  /** A header line's fields with `x` inserted at the time index, cut or padded to `width`. */
  function Widened(fields: seq<string>, x: string, width: nat): (r: seq<string>)
    ensures |r| == width
  {
    AdjustListLength(InsertAt(fields, TimeIndex, x), width, "")
  }

  /** The column header gains the time column at index 2 (at the end when
      there are fewer than two columns) and loses nothing. */
  lemma TimedColumns(columns: seq<string>)
    ensures Widened(columns, TimeColumn, |columns| + 1) ==
              if |columns| >= 2 then columns[..2] + [TimeColumn] + columns[2..] else columns + [TimeColumn]
  {
    var inserted := InsertAt(columns, TimeIndex, TimeColumn);
    if |columns| < 2 {
      assert InsertIndex(|columns|, TimeIndex) == |columns|;
      assert columns[..|columns|] == columns;
    }
    assert |inserted| == |columns| + 1;
  }

  /** The header part of `leer_seccion`: the three header lines are split on
      tabs, get the time column (an empty attribute and unit, `Tiempo` as the
      column name) and are cut or padded to the column count plus one. */
  method PrepareHeaders(attributesLine: string, columnsLine: string, unitsLine: string)
    returns (attributes: seq<string>, columns: seq<string>, units: seq<string>)
    ensures var width := |Split(columnsLine, "\t")| + 1;
      |attributes| == width && |columns| == width && |units| == width
    ensures var width := |Split(columnsLine, "\t")| + 1;
      attributes == Widened(Split(attributesLine, "\t"), "", width) &&
      units == Widened(Split(unitsLine, "\t"), "", width)
    ensures var fields := Split(columnsLine, "\t");
      columns == if |fields| >= 2 then fields[..2] + [TimeColumn] + fields[2..] else fields + [TimeColumn]
  {
    var a := Split(attributesLine, "\t");
    var c := Split(columnsLine, "\t");
    var u := Split(unitsLine, "\t");
    var width := |c| + 1;
    var a2 := InsertColumns(a, [""], TimeIndex);
    var c2 := InsertColumns(c, [TimeColumn], TimeIndex);
    var u2 := InsertColumns(u, [""], TimeIndex);
    InsertAllOne(a, TimeIndex, "");
    InsertAllOne(c, TimeIndex, TimeColumn);
    InsertAllOne(u, TimeIndex, "");
    attributes := AdjustListLength(a2, width, "");
    columns := AdjustListLength(c2, width, "");
    units := AdjustListLength(u2, width, "");
    TimedColumns(c);
  }

  // ===========================================================================
  // Patient
  // ===========================================================================

  /** `obtener_nombre_paciente`: the text before the first space. */
  function PatientName(fileName: string): (r: string)
    ensures r <= fileName && ' ' !in r
    ensures |r| < |fileName| ==> fileName[|r|] == ' '
  {
    FirstSplitPiece(fileName, ' ');
    Split(fileName, " ")[0]
  }

  /** The first piece of a split on one character is the text before its first occurrence. */
  lemma FirstSplitPiece(s: string, c: char)
    ensures Split(s, [c])[0] == SplitOnce(s, c)[0]
  {
    var parts := SplitOnce(s, c);
    if |parts| == 1 {
      SplitSingle(s, c);
    } else {
      SplitAfter(parts[0], c, parts[1]);
    }
  }

  /** The patient of a file named after an identity is its subject. */
  lemma PatientOfComposedName(id: FileIdentity, vars: seq<Variable>, ext: string)
    requires WritableIdentity(id, vars)
    ensures PatientName(ComposeFileName(id, ext)) == id.subject
  {
    SubjectIdNoSpace(id.subject);
    assert IsSpace(' ');
    var words := NameWords(id);
    var rest := words[1..];
    assert words == [id.subject] + rest;
    JoinCons(id.subject, rest, " ");
    var name := ComposeFileName(id, ext);
    assert name == id.subject + " " + (Join(rest, " ") + "." + ext);
    SplitAfter(id.subject, ' ', Join(rest, " ") + "." + ext);
  }
}
