/**
  The discrete-analysis view's own logic: reading a summary table's file
  name back into its calculation, data type and sub-values, mapping a
  descriptor shown with its alias back to the descriptor, and the table
  browser's filtering, paging and sorting.
 */
module DiscreteAnalysisView {
  import opened Wrappers
  import opened Text
  import opened Ordering
  import opened StudyService
  import opened AnalysisService

  /** What a file name that cannot be read gives for its calculation and data type. */
  const UnknownField := "Desconocido"

  // ===========================================================================
  // Reading a table file name
  // ===========================================================================

  /** The calculation, the data type (frequency) and the `VI=value` sub-values of a table. */
  datatype ParsedTable = ParsedTable(calculation: string, frequency: string, subValues: seq<string>)

  /** `cur` starts with the study VI name `m` followed by `_`; a missing name never matches. */
  predicate ViPrefixed(cur: string, m: string)
  {
    m != [] && StartsWith(cur, m + "_")
  }

  /** The inner loop over the study VIs: the first VI whose name prefixes the
      part gives `name=rest`; `None` when no VI does. */
  function SubValueOf(cur: string, vis: seq<string>): (r: Option<string>)
    ensures r.None? <==> forall j :: 0 <= j < |vis| ==> !ViPrefixed(cur, vis[j])
    ensures r.Some? ==>
              exists j :: 0 <= j < |vis| && ViPrefixed(cur, vis[j]) &&
                (forall j' :: 0 <= j' < j ==> !ViPrefixed(cur, vis[j'])) &&
                r.value == vis[j] + "=" + cur[|vis[j]| + 1..]
    decreases |vis|
  {
    if vis == [] then None
    else if ViPrefixed(cur, vis[0]) then
      Some(vis[0] + "=" + cur[|vis[0]| + 1..])
    else
      var r := SubValueOf(cur, vis[1..]);
      assert forall j :: 1 <= j < |vis| ==> vis[j] == vis[1..][j - 1];
      if r.Some? then
        var j :| 0 <= j < |vis[1..]| && ViPrefixed(cur, vis[1..][j]) &&
                 (forall j' :: 0 <= j' < j ==> !ViPrefixed(cur, vis[1..][j'])) &&
                 r.value == vis[1..][j] + "=" + cur[|vis[1..][j]| + 1..];
        assert forall j' :: 0 <= j' < j + 1 ==> !ViPrefixed(cur, vis[j']) by {
          forall j' | 0 <= j' < j + 1 ensures !ViPrefixed(cur, vis[j']) {
            if j' > 0 {
              assert vis[j'] == vis[1..][j' - 1];
            }
          }
        }
        r
      else
        r
  }

  /** One `__`-separated part: leading `_` removed, then read as a sub-value;
      an unmatched part is kept as it is unless it is empty. */
  function DecodePart(part: string, vis: seq<string>): seq<string>
  {
    var cur := LStripChar(part, '_');
    match SubValueOf(cur, vis)
    case Some(sv) => [sv]
    case None => if cur != [] then [cur] else []
  }

  function DecodeParts(parts: seq<string>, vis: seq<string>): seq<string>
  {
    if parts == [] then [] else DecodePart(parts[0], vis) + DecodeParts(parts[1..], vis)
  }

  /** `_parse_table_filename`: the name before its last `.`, split on `_`; the
      first two fields are the calculation and the data type, the rest joined
      back with `_` and split on `__` are the encoded sub-values. */
  function TableNameOf(fileName: string, vis: seq<string>): ParsedTable
  {
    var namePart := RSplitOnce(fileName, '.')[0];
    var fields := Split(namePart, "_");
    if |fields| < 2 then ParsedTable(UnknownField, UnknownField, [])
    else
      var encoded := Join(fields[2..], "_");
      var parts := if encoded != [] then Split(encoded, "__") else [];
      ParsedTable(fields[0], fields[1], DecodeParts(parts, vis))
  }

  /** The loop over the study VIs for one encoded part. */
  method MatchVi(cur: string, vis: seq<string>) returns (r: Option<string>)
    ensures r == SubValueOf(cur, vis)
  {
    var j := 0;
    while j < |vis|
      invariant 0 <= j <= |vis|
      invariant SubValueOf(cur, vis[j..]) == SubValueOf(cur, vis)
    {
      var name := vis[j];
      assert vis[j..][0] == name && vis[j..][1..] == vis[j + 1..];
      if name != [] && StartsWith(cur, name + "_") {
        return Some(name + "=" + cur[|name| + 1..]);
      }
      j := j + 1;
    }
    return None;
  }

  lemma ConcatAssoc(a: seq<string>, b: seq<string>, c: seq<string>)
    ensures a + (b + c) == (a + b) + c
  {
  }

  lemma DecodePartsAt(parts: seq<string>, i: nat, vis: seq<string>)
    requires i < |parts|
    ensures DecodeParts(parts[i..], vis) == DecodePart(parts[i], vis) + DecodeParts(parts[i + 1..], vis)
  {
    assert parts[i..][0] == parts[i] && parts[i..][1..] == parts[i + 1..];
  }

  /** The loop of `_parse_table_filename` over the encoded parts. */
  method DecodeAll(parts: seq<string>, vis: seq<string>) returns (out: seq<string>)
    ensures out == DecodeParts(parts, vis)
  {
    out := [];
    var i := 0;
    while i < |parts|
      invariant 0 <= i <= |parts|
      invariant out + DecodeParts(parts[i..], vis) == DecodeParts(parts, vis)
    {
      var cur := LStripChar(parts[i], '_');
      var sv := MatchVi(cur, vis);
      DecodePartsAt(parts, i, vis);
      var decoded := if sv.Some? then [sv.value] else if cur != [] then [cur] else [];
      assert decoded == DecodePart(parts[i], vis);
      ghost var rest := DecodeParts(parts[i + 1..], vis);
      ConcatAssoc(out, decoded, rest);
      out := out + decoded;
      i := i + 1;
    }
    assert parts[i..] == [];
  }

  /** `_parse_table_filename`. */
  method ParseTableFileName(fileName: string, vis: seq<string>) returns (r: ParsedTable)
    ensures r == TableNameOf(fileName, vis)
  {
    var namePart := RSplitOnce(fileName, '.')[0];
    var fields := Split(namePart, "_");
    if |fields| < 2 {
      return ParsedTable(UnknownField, UnknownField, []);
    }
    var encoded := Join(fields[2..], "_");
    var parts := if encoded != [] then Split(encoded, "__") else [];
    var subValues := DecodeAll(parts, vis);
    r := ParsedTable(fields[0], fields[1], subValues);
  }

  // ---------------------------------------------------------------------------
  // The round trip with the table names the analysis service writes
  // ---------------------------------------------------------------------------

  /** A VI name or descriptor value that survives the file-name encoding. */
  predicate PlainName(s: string)
  {
    s != [] && '_' !in s && '=' !in s && ';' !in s
  }

  predicate PlainPairs(pairs: seq<(string, string)>)
  {
    forall i :: 0 <= i < |pairs| ==> PlainName(pairs[i].0) && PlainName(pairs[i].1)
  }

  /** The parts `VI<sep>value` of a group key: `=` in a key, `_` in a safe key. */
  function PairParts(pairs: seq<(string, string)>, sep: string): (r: seq<string>)
    ensures |r| == |pairs|
  {
    if pairs == [] then [] else [pairs[0].0 + sep + pairs[0].1] + PairParts(pairs[1..], sep)
  }

  lemma ReplaceEqualsInPart(n: string, v: string)
    requires PlainName(n) && PlainName(v)
    ensures ReplaceAll(n + "=" + v, "=", "_") == n + "_" + v
  {
    ReplaceCharAppend(n, "=" + v, '=', "_");
    ReplaceCharAppend("=", v, '=', "_");
    ReplaceCharAbsent(n, '=', "_");
    ReplaceCharAbsent(v, '=', "_");
    ReplaceCharOne('=', "_");
    assert n + "=" + v == n + ("=" + v);
  }

  /** Replacing `=` in `x;tail` replaces it in `x` and in `tail`. */
  lemma ReplaceEqualsAcross(x: string, tail: string)
    ensures ReplaceAll(x + ";" + tail, "=", "_") == ReplaceAll(x, "=", "_") + ";" + ReplaceAll(tail, "=", "_")
  {
    assert x + ";" + tail == x + (";" + tail);
    ReplaceCharAppend(x, ";" + tail, '=', "_");
    ReplaceCharAppend(";", tail, '=', "_");
    ReplaceCharAbsent(";", '=', "_");
  }

  lemma PlainPairsTail(pairs: seq<(string, string)>)
    requires PlainPairs(pairs) && pairs != []
    ensures PlainPairs(pairs[1..]) && PlainName(pairs[0].0) && PlainName(pairs[0].1)
  {
    var rest := pairs[1..];
    forall i | 0 <= i < |rest| ensures PlainName(rest[i].0) && PlainName(rest[i].1) {
      assert rest[i] == pairs[i + 1];
    }
  }

  lemma {:induction false} ReplaceEqualsInKey(pairs: seq<(string, string)>)
    requires PlainPairs(pairs)
    ensures ReplaceAll(Join(PairParts(pairs, "="), ";"), "=", "_") == Join(PairParts(pairs, "_"), ";")
    decreases |pairs|
  {
    if pairs != [] {
      var n := pairs[0].0;
      var v := pairs[0].1;
      PlainPairsTail(pairs);
      ReplaceEqualsInPart(n, v);
      if |pairs| > 1 {
        var rest := pairs[1..];
        ReplaceEqualsInKey(rest);
        JoinCons(n + "=" + v, PairParts(rest, "="), ";");
        JoinCons(n + "_" + v, PairParts(rest, "_"), ";");
        ReplaceEqualsAcross(n + "=" + v, Join(PairParts(rest, "="), ";"));
      }
    }
  }

  lemma {:induction false} ReplaceSemicolonsInKey(pairs: seq<(string, string)>)
    requires PlainPairs(pairs)
    ensures ReplaceAll(Join(PairParts(pairs, "_"), ";"), ";", "__") == Join(PairParts(pairs, "_"), "__")
    decreases |pairs|
  {
    if pairs != [] {
      var x := pairs[0].0 + "_" + pairs[0].1;
      assert PlainName(pairs[0].0) && PlainName(pairs[0].1);
      assert ';' !in x;
      ReplaceCharAbsent(x, ';', "__");
      if |pairs| > 1 {
        var rest := pairs[1..];
        PlainPairsTail(pairs);
        ReplaceSemicolonsInKey(rest);
        var tail := Join(PairParts(rest, "_"), ";");
        JoinCons(x, PairParts(rest, "_"), ";");
        JoinCons(x, PairParts(rest, "_"), "__");
        ReplaceAfterPart(x, tail);
      }
    }
  }

  /** Replacing `;` in `x;tail`, where `x` has none, keeps `x` and turns the separator into `__`. */
  lemma ReplaceAfterPart(x: string, tail: string)
    requires ';' !in x
    ensures ReplaceAll(x + ";" + tail, ";", "__") == x + "__" + ReplaceAll(tail, ";", "__")
  {
    ReplaceCharAbsent(x, ';', "__");
    assert x + ";" + tail == x + (";" + tail);
    ReplaceCharAppend(x, ";" + tail, ';', "__");
    ReplaceCharAppend(";", tail, ';', "__");
    ReplaceCharOne(';', "__");
  }

  /** The safe form of a group key is its `VI_value` parts joined by `__`. */
  lemma SafeKeyOfParts(pairs: seq<(string, string)>)
    requires PlainPairs(pairs)
    ensures SafeKey(Join(PairParts(pairs, "="), ";")) == Join(PairParts(pairs, "_"), "__")
  {
    ReplaceEqualsInKey(pairs);
    ReplaceSemicolonsInKey(pairs);
  }

  /** `__` cannot start inside `n_v`, even when `__` follows it. */
  lemma SafePartSepFree(n: string, v: string)
    requires PlainName(n) && PlainName(v)
    ensures SepFree(n + "_" + v, "__")
  {
    var x := n + "_" + v;
    forall k | 0 <= k < |x|
      ensures !("__" <= (x + "__")[k..])
    {
      var y := (x + "__")[k..];
      if k < |n| {
        assert y[0] == n[k];
      } else if k == |n| {
        assert y[1] == v[0];
      } else {
        assert y[0] == v[k - |n| - 1];
      }
    }
  }

  /** A study VI name without `_` that prefixes `n_v` is `n`. */
  lemma PrefixedName(n: string, v: string, m: string)
    requires PlainName(n) && '_' !in m && ViPrefixed(n + "_" + v, m)
    ensures m == n
  {
    var p := n + "_" + v;
    assert p[..|m| + 1] == m + "_";
    assert p[|m|] == '_';
    assert forall k :: 0 <= k < |n| ==> p[k] == n[k] && p[k] != '_';
    assert |m| >= |n|;
    assert p[|n|] == '_';
    assert forall k :: 0 <= k < |m| ==> p[k] == m[k] && p[k] != '_';
    assert |m| == |n|;
    assert m == p[..|n|] == n;
  }

  /** The first study VI that prefixes `n_v` is `n`. */
  lemma SubValueOfSafePart(n: string, v: string, vis: seq<string>)
    requires PlainName(n) && PlainName(v) && n in vis
    requires forall m :: m in vis ==> '_' !in m
    ensures SubValueOf(n + "_" + v, vis) == Some(n + "=" + v)
  {
    var p := n + "_" + v;
    var k :| 0 <= k < |vis| && vis[k] == n;
    assert ViPrefixed(p, vis[k]) by {
      assert p[..|n| + 1] == n + "_";
    }
    var r := SubValueOf(p, vis);
    var j :| 0 <= j < |vis| && ViPrefixed(p, vis[j]) && r.value == vis[j] + "=" + p[|vis[j]| + 1..];
    PrefixedName(n, v, vis[j]);
    assert p[|n| + 1..] == v;
  }

  /** An encoded part `n_v` of a VI of the study decodes to `n=v`. */
  lemma DecodeSafePart(n: string, v: string, vis: seq<string>)
    requires PlainName(n) && PlainName(v) && n in vis
    requires forall m :: m in vis ==> '_' !in m
    ensures DecodePart(n + "_" + v, vis) == [n + "=" + v]
  {
    var p := n + "_" + v;
    assert LStripChar(p, '_') == p by {
      assert p[0] == n[0];
    }
    SubValueOfSafePart(n, v, vis);
  }

  lemma {:induction false} DecodeSafeParts(pairs: seq<(string, string)>, vis: seq<string>)
    requires PlainPairs(pairs)
    requires forall i :: 0 <= i < |pairs| ==> pairs[i].0 in vis
    requires forall m :: m in vis ==> '_' !in m
    ensures DecodeParts(PairParts(pairs, "_"), vis) == PairParts(pairs, "=")
    decreases |pairs|
  {
    if pairs != [] {
      var rest := pairs[1..];
      assert forall i :: 0 <= i < |rest| ==> rest[i] == pairs[i + 1];
      DecodeSafeParts(rest, vis);
      assert PlainName(pairs[0].0) && PlainName(pairs[0].1);
      DecodeSafePart(pairs[0].0, pairs[0].1, vis);
      assert PairParts(pairs, "_")[1..] == PairParts(rest, "_");
    }
  }

  /** Splitting the safe key on `__` gives back its parts. */
  lemma SplitSafeKey(pairs: seq<(string, string)>)
    requires PlainPairs(pairs) && pairs != []
    ensures Split(Join(PairParts(pairs, "_"), "__"), "__") == PairParts(pairs, "_")
  {
    var xs := PairParts(pairs, "_");
    forall i | 0 <= i < |xs| ensures SepFree(xs[i], "__") {
      SafePartAt(pairs, i);
      SafePartSepFree(pairs[i].0, pairs[i].1);
    }
    SplitJoin(xs, "__");
  }

  lemma {:induction false} SafePartAt(pairs: seq<(string, string)>, i: nat)
    requires i < |pairs|
    ensures PairParts(pairs, "_")[i] == pairs[i].0 + "_" + pairs[i].1
    decreases i
  {
    if i > 0 {
      SafePartAt(pairs[1..], i - 1);
    }
  }

  /** The name `calc_freq_...` and the fields it splits into on `_`. */
  lemma TableNameFields(calculation: string, frequency: string, safe: string, ext: string)
    requires '_' !in calculation && '_' !in frequency && '.' !in ext
    ensures RSplitOnce(calculation + "_" + frequency + "_" + safe + "." + ext, '.')[0] ==
              calculation + "_" + frequency + "_" + safe
    ensures Split(calculation + "_" + frequency + "_" + safe, "_") == [calculation, frequency] + Split(safe, "_")
  {
    var stem := calculation + "_" + frequency + "_" + safe;
    RSplitOnceAt(stem, '.', ext);
    assert stem == calculation + ['_'] + (frequency + "_" + safe);
    SplitAfter(calculation, '_', frequency + "_" + safe);
    SplitAfter(frequency, '_', safe);
  }

  /** Reading back the name `{calc}_{freq}_{safe key}.{ext}` of a group's table
      gives the calculation, the data type and the key's `VI=value` parts, when
      none of them holds `_`, `=` or `;`, the extension has no `.`, and every VI
      of the key is a study VI whose name has no `_`. */
  lemma TableNameRoundTrip(calculation: string, frequency: string, pairs: seq<(string, string)>,
                           ext: string, vis: seq<string>)
    requires '_' !in calculation && '_' !in frequency && '.' !in ext
    requires pairs != [] && PlainPairs(pairs)
    requires forall i :: 0 <= i < |pairs| ==> pairs[i].0 in vis
    requires forall m :: m in vis ==> '_' !in m
    ensures TableNameOf(TableFileName(calculation, frequency, Join(PairParts(pairs, "="), ";"), ext), vis) ==
              ParsedTable(calculation, frequency, PairParts(pairs, "="))
  {
    var safe := Join(PairParts(pairs, "_"), "__");
    SafeKeyOfParts(pairs);
    TableNameFields(calculation, frequency, safe, ext);
    var fields := Split(calculation + "_" + frequency + "_" + safe, "_");
    assert fields[2..] == Split(safe, "_");
    JoinSplit(safe, "_");
    SafePartAt(pairs, 0);
    assert safe != [] by {
      if |pairs| > 1 {
        JoinCons(PairParts(pairs, "_")[0], PairParts(pairs, "_")[1..], "__");
        assert [PairParts(pairs, "_")[0]] + PairParts(pairs, "_")[1..] == PairParts(pairs, "_");
      }
    }
    SplitSafeKey(pairs);
    DecodeSafeParts(pairs, vis);
  }

  /** A part with no `_` matches no study VI without `_`. */
  lemma PlainPartUnmatched(key: string, vis: seq<string>)
    requires '_' !in key
    ensures SubValueOf(key, vis).None?
  {
    forall j | 0 <= j < |vis| ensures !ViPrefixed(key, vis[j]) {
      var m := vis[j];
      if |m| + 1 <= |key| {
        assert (m + "_")[|m|] == '_' && key[|m|] != '_';
      }
    }
  }

  /** A key with no `_`, `=` or `;` is its own safe form and splits into itself on `__`. */
  lemma PlainKeySafe(key: string)
    requires '_' !in key && '=' !in key && ';' !in key
    ensures SafeKey(key) == key
    ensures Split(key, "__") == [key]
  {
    ReplaceCharAbsent(key, '=', "_");
    ReplaceCharAbsent(key, ';', "__");
    forall k | 0 <= k < |key| ensures !("__" <= (key + "__")[k..]) {
      assert (key + "__")[k..][0] == key[k];
    }
    SplitFromNoSep(key, "__", []);
    assert [] + key == key;
  }

  /** A table whose key has no `_`, `=` or `;` reads back with that key as its single sub-value. */
  lemma PlainKeyTableName(calculation: string, frequency: string, key: string, ext: string, vis: seq<string>)
    requires '_' !in calculation && '_' !in frequency && '.' !in ext
    requires key != [] && '_' !in key && '=' !in key && ';' !in key
    ensures TableNameOf(TableFileName(calculation, frequency, key, ext), vis) ==
              ParsedTable(calculation, frequency, [key])
  {
    PlainKeySafe(key);
    TableNameFields(calculation, frequency, key, ext);
    SplitSingle(key, '_');
    var fields := Split(calculation + "_" + frequency + "_" + key, "_");
    assert fields == [calculation, frequency, key];
    assert Join(fields[2..], "_") == key;
    assert LStripChar(key, '_') == key;
    PlainPartUnmatched(key, vis);
    assert DecodePart(key, vis) == [key];
    assert DecodeParts([key], vis) == [key] by {
      assert [key][1..] == [];
    }
  }

  /** The table of a study without groups reads back with the single sub-value `SinGrupo`. */
  lemma NoGroupTableName(calculation: string, frequency: string, ext: string, vis: seq<string>)
    requires '_' !in calculation && '_' !in frequency && '.' !in ext
    ensures TableNameOf(TableFileName(calculation, frequency, NoGroupKey, ext), vis) ==
              ParsedTable(calculation, frequency, [NoGroupKey])
  {
    PlainKeyTableName(calculation, frequency, NoGroupKey, ext, vis);
  }

  /** A name with no `_` before its extension cannot be read. */
  lemma ShortTableName(fileName: string, vis: seq<string>)
    requires '_' !in RSplitOnce(fileName, '.')[0]
    ensures TableNameOf(fileName, vis) == ParsedTable(UnknownField, UnknownField, [])
  {
    SplitSingle(RSplitOnce(fileName, '.')[0], '_');
  }

  // ===========================================================================
  // Descriptors shown with their alias
  // ===========================================================================

  /** How the filter lists a descriptor: `D (alias)` when it has a non-empty alias, `D` otherwise. */
  function DescriptorDisplay(d: string, aliases: Aliases): string
  {
    if d in aliases && aliases[d] != [] then d + " (" + aliases[d] + ")" else d
  }

  /** `_get_descriptor_original_value`: `D (A)` read at its last ` (` gives `D`
      when the alias of `D` is exactly `A`; anything else is returned unchanged. */
  function OriginalValue(display: string, aliases: Aliases): (r: string)
    ensures r == display || (r in aliases && display == r + " (" + aliases[r] + ")")
    ensures display == [] ==> r == []
  {
    if display == [] then []
    else if Contains(display, " (") && EndsWith(display, ")") then
      ContainsOccurs(display, " (");
      var i := LastIndexOf(display, " (");
      assert display[i + 1] == " ("[1] && display[|display| - 1] == ')';
      var candidate := display[..i];
      var alias := display[i + 2..|display| - 1];
      if candidate in aliases && aliases[candidate] == alias then
        assert display == display[..i] + display[i..i + 2] + display[i + 2..|display| - 1] + display[|display| - 1..];
        candidate
      else display
    else display
  }

  /** In `d (a)`, no ` (` starts after the one that follows `d` when `a` has none. */
  lemma NoLaterOpening(d: string, a: string, j: int)
    requires !Contains(a, " (") && j > |d|
    ensures !OccursAt(d + " (" + a + ")", " (", j)
  {
    var s := d + " (" + a + ")";
    if j + 2 <= |s| {
      assert s[j..j + 2] == [s[j], s[j + 1]];
      if j == |d| + 1 {
        assert s[j] == '(';
      } else if j + 2 <= |d| + 2 + |a| {
        var k := j - |d| - 2;
        assert s[j] == a[k] && s[j + 1] == a[k + 1];
        assert a[k..k + 2] == [a[k], a[k + 1]];
        ContainsOccurs(a, " (");
        assert !OccursAt(a, " (", k);
      } else {
        assert s[j + 1] == ')';
      }
    }
  }

  /** A descriptor shown with its alias is read back as the descriptor, when
      the alias has no ` (` in it. */
  lemma OriginalOfDisplay(d: string, aliases: Aliases)
    requires d in aliases && aliases[d] != [] && !Contains(aliases[d], " (")
    ensures OriginalValue(DescriptorDisplay(d, aliases), aliases) == d
  {
    var a := aliases[d];
    var s := d + " (" + a + ")";
    assert OccursAt(s, " (", |d|) by {
      assert s[|d|..|d| + 2] == " (";
    }
    ContainsOccurs(s, " (");
    var i := LastIndexOf(s, " (");
    assert i >= |d|;
    forall j | j > |d| ensures !OccursAt(s, " (", j) {
      NoLaterOpening(d, a, j);
    }
    assert i == |d|;
    assert s[..i] == d;
    assert s[i + 2..|s| - 1] == a;
  }

  /** A descriptor without an alias and without ` (` is read back as itself. */
  lemma OriginalOfPlain(d: string, aliases: Aliases)
    requires !(d in aliases && aliases[d] != []) && !Contains(d, " (")
    ensures OriginalValue(DescriptorDisplay(d, aliases), aliases) == d
  {
  }

  // ===========================================================================
  // The table browser
  // ===========================================================================

  /** A listed table: its file name, data type, calculation, parsed sub-values,
      their display text and its modification time. */
  datatype TableInfo = TableInfo(name: string, frequency: string, calculation: string,
                                 subValues: seq<string>, display: string, mtime: int)

  /** The criteria of `apply_filters`: the lower-cased search text, the
      calculation (or `Todos`), the VI mode and the `VI=value` targets. */
  datatype TableFilter = TableFilter(search: string, calculation: string, viMode: string,
                                     target1: Option<string>, target2: Option<string>)

  /** The `VI=value` a VI filter looks for: only when both the VI and the descriptor are chosen. */
  function FilterTarget(viName: string, descriptorDisplay: string, aliases: Aliases): (r: Option<string>)
    ensures r.Some? <==> viName != [] && OriginalValue(descriptorDisplay, aliases) != []
    ensures r.Some? ==> SplitOnce(r.value, '=')[0] == viName || '=' in viName
  {
    var original := OriginalValue(descriptorDisplay, aliases);
    if viName != [] && original != [] then
      if '=' !in viName then
        SplitOnceAt(viName, '=', original);
        Some(viName + "=" + original)
      else Some(viName + "=" + original)
    else None
  }

  predicate SearchMatches(t: TableInfo, search: string)
  {
    search == [] || Contains(Lower(t.name), search) || Contains(Lower(t.calculation), search) ||
    Contains(Lower(t.display), search)
  }

  predicate ViMatches(t: TableInfo, f: TableFilter)
  {
    f.viMode == "No filtrar" ||
    ((f.target1.None? || f.target1.value in t.subValues) &&
     (f.viMode != "2 VIs" || f.target2.None? || f.target2.value in t.subValues))
  }

  /** Whether a table passes all three filters. */
  predicate TableMatches(t: TableInfo, f: TableFilter)
  {
    SearchMatches(t, f.search) && (f.calculation == "Todos" || t.calculation == f.calculation) && ViMatches(t, f)
  }

  /** The tables that pass the filters, in their listed order. */
  function FilteredTables(tables: seq<TableInfo>, f: TableFilter): seq<TableInfo>
  {
    if tables == [] then []
    else
      var last := tables[|tables| - 1];
      FilteredTables(tables[..|tables| - 1], f) + (if TableMatches(last, f) then [last] else [])
  }

  /** The filtered list holds exactly the listed tables that pass the filters, and no more of them. */
  lemma {:induction false} FilteredTablesMeaning(tables: seq<TableInfo>, f: TableFilter)
    ensures |FilteredTables(tables, f)| <= |tables|
    ensures forall t :: t in FilteredTables(tables, f) <==> t in tables && TableMatches(t, f)
    decreases |tables|
  {
    if tables != [] {
      var init := tables[..|tables| - 1];
      FilteredTablesMeaning(init, f);
      assert tables == init + [tables[|tables| - 1]];
    }
  }

  /** `max(1, ceil(n / perPage))` for a positive page size, and 1 otherwise. */
  function PageCount(n: nat, perPage: int): (r: nat)
    ensures r >= 1
    ensures perPage > 0 && n > 0 ==> (r - 1) * perPage < n <= r * perPage
    ensures perPage <= 0 || n == 0 ==> r == 1
  {
    if perPage > 0 then
      var q := (n + perPage - 1) / perPage;
      assert q * perPage <= n + perPage - 1 < q * perPage + perPage;
      if q < 1 then 1 else q
    else 1
  }

  /** The sort key of a text column: `name`, `calc`, `type` or `sub_values_display`. */
  function SortText(t: TableInfo, key: string): string
  {
    if key == "name" then t.name
    else if key == "calc" then t.calculation
    else if key == "type" then t.frequency
    else if key == "sub_values_display" then t.display
    else ""
  }

  /** The order `sort_column` sorts by: modification time for `mtime`, the
      lower-cased text otherwise; `reverse` compares the other way round. */
  function TableLe(key: string, reverse: bool): (TableInfo, TableInfo) -> bool
  {
    if key == "mtime" then
      (a: TableInfo, b: TableInfo) => if reverse then b.mtime <= a.mtime else a.mtime <= b.mtime
    else
      (a: TableInfo, b: TableInfo) =>
        if reverse then LexLe(Lower(SortText(b, key)), Lower(SortText(a, key)))
        else LexLe(Lower(SortText(a, key)), Lower(SortText(b, key)))
  }

  lemma TableLePreorder(key: string, reverse: bool)
    ensures TotalPreorder(TableLe(key, reverse))
  {
    var le := TableLe(key, reverse);
    if key != "mtime" {
      forall a: TableInfo, b: TableInfo ensures le(a, b) || le(b, a) {
        LexLeTotal(Lower(SortText(a, key)), Lower(SortText(b, key)));
      }
      forall a: TableInfo, b: TableInfo, c: TableInfo | le(a, b) && le(b, c) ensures le(a, c) {
        var ka, kb, kc := Lower(SortText(a, key)), Lower(SortText(b, key)), Lower(SortText(c, key));
        if reverse {
          LexLeTransitive(kc, kb, ka);
        } else {
          LexLeTransitive(ka, kb, kc);
        }
      }
    }
  }

  /** The tables sorted on a column: a permutation, ordered by the column. */
  function SortTables(tables: seq<TableInfo>, key: string, reverse: bool): (r: seq<TableInfo>)
    ensures SortedBy(r, TableLe(key, reverse))
    ensures multiset(r) == multiset(tables)
  {
    TableLePreorder(key, reverse);
    SortBy(tables, TableLe(key, reverse))
  }

  /** The loop of `apply_filters`: the tables that pass the filter, in order. */
  method FilterTables(tables: seq<TableInfo>, f: TableFilter) returns (kept: seq<TableInfo>)
    ensures kept == FilteredTables(tables, f)
  {
    kept := [];
    var i := 0;
    while i < |tables|
      invariant 0 <= i <= |tables|
      invariant kept == FilteredTables(tables[..i], f)
    {
      var t := tables[i];
      assert tables[..i + 1][..i] == tables[..i] && tables[..i + 1][i] == t;
      if TableMatches(t, f) {
        kept := kept + [t];
      }
      i := i + 1;
    }
    assert tables[..i] == tables;
  }

  /** The view's list state: every table found, those passing the filters,
      the page shown and the page count. */
  class TableBrowser {
    var allTables: seq<TableInfo>
    var filtered: seq<TableInfo>
    var currentPage: int
    var totalPages: int
    var totalTables: int

    /** The filtered tables are listed tables, the count is theirs, and the
        page shown is one of the pages. */
    predicate Valid()
      reads this
    {
      totalTables == |filtered| && 1 <= currentPage <= totalPages &&
      forall t :: t in filtered ==> t in allTables
    }

    constructor (tables: seq<TableInfo>)
      ensures Valid()
      ensures allTables == tables && filtered == [] && currentPage == 1 && totalPages == 1 && totalTables == 0
    {
      allTables := tables;
      filtered := [];
      currentPage := 1;
      totalPages := 1;
      totalTables := 0;
    }

    /** `apply_filters`: keeps the tables that pass the search, calculation and
        VI filters, counts them, recomputes the pages and goes back to page 1. */
    method ApplyFilters(searchText: string, calculation: string, viMode: string,
                        vi1Name: string, vi1Descriptor: string, vi2Name: string, vi2Descriptor: string,
                        aliases: Aliases, perPage: int)
      modifies this
      ensures Valid()
      ensures allTables == old(allTables)
      ensures filtered == FilteredTables(allTables,
                TableFilter(Lower(searchText), calculation, viMode,
                            FilterTarget(vi1Name, vi1Descriptor, aliases),
                            FilterTarget(vi2Name, vi2Descriptor, aliases)))
      ensures totalTables == |filtered| && totalPages == PageCount(|filtered|, perPage) && currentPage == 1
    {
      var f := TableFilter(Lower(searchText), calculation, viMode,
                           FilterTarget(vi1Name, vi1Descriptor, aliases),
                           FilterTarget(vi2Name, vi2Descriptor, aliases));
      var kept := FilterTables(allTables, f);
      FilteredTablesMeaning(allTables, f);
      filtered := kept;
      totalTables := |kept|;
      totalPages := PageCount(|kept|, perPage);
      currentPage := 1;
    }

    /** `go_to_page`: a page outside `1..totalPages` changes nothing. */
    method GoToPage(page: int)
      requires Valid()
      modifies this
      ensures Valid()
      ensures 1 <= page <= totalPages ==> currentPage == page
      ensures !(1 <= page <= old(totalPages)) ==> currentPage == old(currentPage)
      ensures allTables == old(allTables) && filtered == old(filtered)
      ensures totalPages == old(totalPages) && totalTables == old(totalTables)
    {
      if 1 <= page <= totalPages {
        currentPage := page;
      }
    }

    /** `sort_column`: an empty key changes nothing; otherwise the filtered
        tables are sorted on the column and the first page is shown. */
    method SortColumn(key: string, reverse: bool)
      requires Valid()
      modifies this
      ensures Valid()
      ensures key == [] ==> filtered == old(filtered) && currentPage == old(currentPage)
      ensures key != [] ==> filtered == SortTables(old(filtered), key, reverse) && currentPage == 1
      ensures allTables == old(allTables) && totalPages == old(totalPages) && totalTables == old(totalTables)
    {
      if key == [] {
        return;
      }
      var sorted := SortTables(filtered, key, reverse);
      assert |sorted| == |multiset(sorted)| == |multiset(filtered)| == |filtered|;
      forall t | t in sorted ensures t in allTables {
        assert t in multiset(sorted);
        assert t in multiset(filtered);
      }
      filtered := sorted;
      currentPage := 1;
    }
  }
}
