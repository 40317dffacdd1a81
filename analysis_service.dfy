/**
  The analysis service's string rules: the group key of a processed file and
  the groups of a study, the full keys that contribute to a partial
  selection, the groups offered in the 1-VI and 2-VI modes, the discrete table
  names, the check of an individual-analysis configuration, the column names
  of a processed file and the statistics lines at its end. Directory scans,
  pandas, scipy and the writing of tables and plots are not modelled; the
  scanned file list and the file lines are inputs.
 */
module AnalysisService {
  import opened Wrappers
  import opened Text
  import opened Ordering
  import opened Validators
  import opened FileService
  import opened StudyService

  // ===========================================================================
  // Group keys
  // ===========================================================================

  /** The key of the files of a study without VIs. */
  const NoGroupKey: string := "SinGrupo"

  /** `"VI=value"`, with `Nulo` for an absent value. */
  function GroupPart(viName: string, slot: Option<string>): string
  {
    viName + "=" + SlotText(slot)
  }

  /** The parts of the slots, slot `i` named after VI `i`. */
  function GroupParts(slots: seq<Option<string>>, vars: seq<Variable>): seq<string>
    requires |slots| <= |vars|
  {
    seq(|slots|, i requires 0 <= i < |slots| => GroupPart(vars[i].name, slots[i]))
  }

  /** The group key of a file's descriptor slots: its parts joined by `;`, or
      `SinGrupo` when there are none. `None` is the `IndexError` of a slot that
      has no VI, after which the file is skipped. */
  function GroupKeyOf(slots: seq<Option<string>>, vars: seq<Variable>): Option<string>
  {
    if |slots| > |vars| then None
    else if slots == [] then Some(NoGroupKey)
    else Some(Join(GroupParts(slots, vars), ";"))
  }

  /** Builds the group key part by part, as the body of `_identify_study_groups` does. */
  method BuildGroupKey(slots: seq<Option<string>>, vars: seq<Variable>) returns (key: Option<string>)
    ensures key == GroupKeyOf(slots, vars)
  {
    var parts: seq<string> := [];
    var i := 0;
    while i < |slots|
      invariant 0 <= i <= |slots| && i <= |vars|
      invariant parts == GroupParts(slots[..i], vars)
    {
      if i >= |vars| {
        return None;
      }
      parts := parts + [GroupPart(vars[i].name, slots[i])];
      i := i + 1;
    }
    assert slots[..i] == slots;
    key := if parts == [] then Some(NoGroupKey) else Some(Join(parts, ";"));
  }

  /** Splitting a key on `;` gives back its parts when no VI name and no value holds a `;`. */
  lemma GroupKeySplit(slots: seq<Option<string>>, vars: seq<Variable>)
    requires 0 < |slots| <= |vars|
    requires forall i :: 0 <= i < |slots| ==> ';' !in vars[i].name && ';' !in SlotText(slots[i])
    ensures GroupKeyOf(slots, vars).Some?
    ensures Split(GroupKeyOf(slots, vars).value, ";") == GroupParts(slots, vars)
  {
    var parts := GroupParts(slots, vars);
    forall i | 0 <= i < |parts| ensures ';' !in parts[i] {
      assert parts[i] == vars[i].name + "=" + SlotText(slots[i]);
    }
    SplitJoinChar(parts, ';');
  }

  /** A part reads back as its VI name and its slot text when the name has no `=`. */
  lemma GroupPartRead(viName: string, slot: Option<string>)
    requires '=' !in viName
    ensures SplitOnce(GroupPart(viName, slot), '=') == [viName, SlotText(slot)]
  {
    SplitOnceAt(viName, '=', SlotText(slot));
  }

  /** A slot that can be told apart from the others in a key: a value that is
      not the literal `Nulo` and holds no `;`. */
  predicate SlotReadable(slot: Option<string>)
  {
    slot.Some? ==> slot.value != "Nulo" && ';' !in slot.value
  }

  /** Files with different descriptor slots fall in different groups, when VI
      names hold no `;` or `=` and every value is readable. */
  lemma GroupKeyInjective(s1: seq<Option<string>>, s2: seq<Option<string>>, vars: seq<Variable>)
    requires |s1| == |vars| && |s2| == |vars|
    requires forall i :: 0 <= i < |vars| ==> ';' !in vars[i].name && '=' !in vars[i].name
    requires forall i :: 0 <= i < |vars| ==> SlotReadable(s1[i]) && SlotReadable(s2[i])
    requires GroupKeyOf(s1, vars) == GroupKeyOf(s2, vars)
    ensures s1 == s2
  {
    if |vars| > 0 {
      GroupKeySplit(s1, vars);
      GroupKeySplit(s2, vars);
      var p1 := GroupParts(s1, vars);
      var p2 := GroupParts(s2, vars);
      assert p1 == p2;
      forall i | 0 <= i < |vars| ensures s1[i] == s2[i] {
        GroupPartRead(vars[i].name, s1[i]);
        GroupPartRead(vars[i].name, s2[i]);
        assert p1[i] == GroupPart(vars[i].name, s1[i]) && p2[i] == GroupPart(vars[i].name, s2[i]);
        assert SlotText(s1[i]) == SlotText(s2[i]);
      }
    }
  }

  // ===========================================================================
  // The groups of a study
  // ===========================================================================

  /** The names of the processed files of one data type, as the listing gives
      them: the first page of 10000 files. */
  function ProcessedNames(files: seq<ScannedFile>, frequency: string): seq<string>
  {
    var listed := GetStudyFiles(files, "", Some("Processed"), Some(frequency), 1, 10000).0;
    seq(|listed|, i requires 0 <= i < |listed| => listed[i].name)
  }

  /** The stem of a processed file name up to its first `_frequency`. */
  function BaseKey(fileName: string, frequency: string): string
  {
    Split(Stem(fileName), "_" + frequency)[0]
  }

  /** The base-name map after reading `ps` in order: a later file with the same
      base name replaces the earlier entry. */
  function GroupsByBase(m: map<string, string>, ps: seq<Parsed>, frequency: string, vars: seq<Variable>)
    : map<string, string>
    decreases |ps|
  {
    if ps == [] then m
    else
      var key := GroupKeyOf(ps[0].id.descriptors, vars);
      GroupsByBase(if key.Some? then m[BaseKey(ps[0].fileName, frequency) := key.value] else m,
                   ps[1..], frequency, vars)
  }

  /** The keys of the read files. */
  function GroupKeysOf(ps: seq<Parsed>, vars: seq<Variable>): set<string>
  {
    set p | p in ps && GroupKeyOf(p.id.descriptors, vars).Some? :: GroupKeyOf(p.id.descriptors, vars).value
  }

  /** The base names of the read files that have a key. */
  function BasesOf(ps: seq<Parsed>, frequency: string, vars: seq<Variable>): set<string>
  {
    set p | p in ps && GroupKeyOf(p.id.descriptors, vars).Some? :: BaseKey(p.fileName, frequency)
  }

  /** The set of group keys of a study's processed files of one data type. */
  function StudyGroupKeys(files: seq<ScannedFile>, frequency: string, vars: seq<Variable>): set<string>
  {
    GroupKeysOf(ValidParsed(ProcessedNames(files, frequency), vars), vars)
  }

  lemma GroupsByBaseCons(m: map<string, string>, p: Parsed, ps: seq<Parsed>, frequency: string, vars: seq<Variable>)
    ensures var key := GroupKeyOf(p.id.descriptors, vars);
      GroupsByBase(m, [p] + ps, frequency, vars) ==
      GroupsByBase(if key.Some? then m[BaseKey(p.fileName, frequency) := key.value] else m, ps, frequency, vars)
  {
    assert ([p] + ps)[1..] == ps;
  }

  lemma GroupKeysOfCons(p: Parsed, ps: seq<Parsed>, vars: seq<Variable>)
    ensures var key := GroupKeyOf(p.id.descriptors, vars);
      GroupKeysOf([p] + ps, vars) == (if key.Some? then {key.value} else {}) + GroupKeysOf(ps, vars)
  {
  }

  lemma BasesOfCons(p: Parsed, ps: seq<Parsed>, frequency: string, vars: seq<Variable>)
    ensures var key := GroupKeyOf(p.id.descriptors, vars);
      BasesOf([p] + ps, frequency, vars) ==
      (if key.Some? then {BaseKey(p.fileName, frequency)} else {}) + BasesOf(ps, frequency, vars)
  {
  }

  /** `_identify_study_groups`: reads the listed processed files in order,
      skips the names that do not follow the study's grammar, and records the
      key of each under its base name and in the set of keys. */
  method IdentifyStudyGroups(files: seq<ScannedFile>, frequency: string, vars: seq<Variable>)
    returns (byBase: map<string, string>, keys: set<string>)
    ensures byBase == GroupsByBase(map[], ValidParsed(ProcessedNames(files, frequency), vars), frequency, vars)
    ensures keys == StudyGroupKeys(files, frequency, vars)
  {
    var names := ProcessedNames(files, frequency);
    byBase := map[];
    keys := {};
    if names == [] {
      return;
    }
    GroupsPendingEnds(names, frequency, vars);
    var i := 0;
    while i < |names|
      invariant 0 <= i <= |names|
      invariant GroupsPending(byBase, names, i, frequency, vars) == GroupsPending(map[], names, 0, frequency, vars)
      invariant KeysPending(keys, names, i, vars) == KeysPending({}, names, 0, vars)
    {
      GroupsStep(byBase, names, i, frequency, vars);
      KeysStep(keys, names, i, vars);
      var id := ParseFileName(names[i], vars);
      if id.Some? {
        var key := BuildGroupKey(id.value.descriptors, vars);
        if key.Some? {
          byBase := byBase[BaseKey(names[i], frequency) := key.value];
          keys := keys + {key.value};
        }
      }
      i := i + 1;
    }
    GroupsPendingEnds(names, frequency, vars);
    assert GroupsPending(byBase, names, |names|, frequency, vars) == byBase;
    assert KeysPending(keys, names, |names|, vars) == keys;
  }

  /** The groups still to record into `byBase` once the first `i` names are read. */
  ghost function GroupsPending(byBase: map<string, string>, names: seq<string>, i: nat, frequency: string,
                               vars: seq<Variable>): map<string, string>
    requires i <= |names|
  {
    GroupsByBase(byBase, ValidParsed(names[i..], vars), frequency, vars)
  }

  /** The keys found so far together with those of the names not yet read. */
  ghost function KeysPending(keys: set<string>, names: seq<string>, i: nat, vars: seq<Variable>): set<string>
    requires i <= |names|
  {
    keys + GroupKeysOf(ValidParsed(names[i..], vars), vars)
  }

  lemma GroupsPendingEnds(names: seq<string>, frequency: string, vars: seq<Variable>)
    ensures GroupsPending(map[], names, 0, frequency, vars) == GroupsByBase(map[], ValidParsed(names, vars), frequency, vars)
    ensures KeysPending({}, names, 0, vars) == GroupKeysOf(ValidParsed(names, vars), vars)
    ensures forall m :: GroupsPending(m, names, |names|, frequency, vars) == m
    ensures forall k :: KeysPending(k, names, |names|, vars) == k
  {
    assert names[0..] == names;
    assert names[|names|..] == [];
  }

  /** Reading one more name records its group under its base name, when it has one. */
  lemma GroupsStep(byBase: map<string, string>, names: seq<string>, i: nat, frequency: string, vars: seq<Variable>)
    requires i < |names|
    ensures var id := FileNameIdentity(names[i], vars);
      var key := if id.Some? then GroupKeyOf(id.value.descriptors, vars) else None;
      GroupsPending(byBase, names, i, frequency, vars) ==
        GroupsPending(if key.Some? then byBase[BaseKey(names[i], frequency) := key.value] else byBase,
                      names, i + 1, frequency, vars)
  {
    ValidParsedStep(names, i, vars);
    var rest := ValidParsed(names[i + 1..], vars);
    var id := FileNameIdentity(names[i], vars);
    if id.Some? {
      var p := Parsed(names[i], id.value);
      PendingIsCons(names, i, vars, p, rest);
      GroupsByBaseCons(byBase, p, rest, frequency, vars);
    } else {
      assert ValidParsed(names[i..], vars) == rest;
    }
  }

  /** Reading one more name adds its group key, when it has one. */
  lemma KeysStep(keys: set<string>, names: seq<string>, i: nat, vars: seq<Variable>)
    requires i < |names|
    ensures var id := FileNameIdentity(names[i], vars);
      var key := if id.Some? then GroupKeyOf(id.value.descriptors, vars) else None;
      KeysPending(keys, names, i, vars) ==
        KeysPending(if key.Some? then keys + {key.value} else keys, names, i + 1, vars)
  {
    ValidParsedStep(names, i, vars);
    var rest := ValidParsed(names[i + 1..], vars);
    var id := FileNameIdentity(names[i], vars);
    if id.Some? {
      var p := Parsed(names[i], id.value);
      PendingIsCons(names, i, vars, p, rest);
      GroupKeysOfCons(p, rest, vars);
    } else {
      assert ValidParsed(names[i..], vars) == rest;
    }
  }

  lemma PendingIsCons(names: seq<string>, i: nat, vars: seq<Variable>, p: Parsed, rest: seq<Parsed>)
    requires i < |names|
    requires FileNameIdentity(names[i], vars) == Some(p.id) && p.fileName == names[i]
    requires ValidParsed(names[i..], vars) == [Parsed(names[i], p.id)] + rest
    ensures ValidParsed(names[i..], vars) == [p] + rest
  {
  }

  /** The base-name map has an entry for exactly the base names of the files
      with a key. */
  lemma {:induction false} GroupsByBaseKeys(m: map<string, string>, ps: seq<Parsed>, frequency: string,
                                            vars: seq<Variable>)
    ensures GroupsByBase(m, ps, frequency, vars).Keys == m.Keys + BasesOf(ps, frequency, vars)
    decreases |ps|
  {
    if ps != [] {
      var p := ps[0];
      var key := GroupKeyOf(p.id.descriptors, vars);
      var m' := if key.Some? then m[BaseKey(p.fileName, frequency) := key.value] else m;
      assert ps == [p] + ps[1..];
      GroupsByBaseCons(m, p, ps[1..], frequency, vars);
      BasesOfCons(p, ps[1..], frequency, vars);
      GroupsByBaseKeys(m', ps[1..], frequency, vars);
    }
  }

  /** Every entry of the base-name map is one of the keys: the two results agree. */
  lemma {:induction false} GroupsByBaseValues(m: map<string, string>, ps: seq<Parsed>, frequency: string,
                                              vars: seq<Variable>)
    ensures forall b :: b in GroupsByBase(m, ps, frequency, vars) ==>
              GroupsByBase(m, ps, frequency, vars)[b] in m.Values + GroupKeysOf(ps, vars)
    decreases |ps|
  {
    if ps != [] {
      var p := ps[0];
      var key := GroupKeyOf(p.id.descriptors, vars);
      var m' := if key.Some? then m[BaseKey(p.fileName, frequency) := key.value] else m;
      assert ps == [p] + ps[1..];
      GroupsByBaseCons(m, p, ps[1..], frequency, vars);
      GroupKeysOfCons(p, ps[1..], vars);
      GroupsByBaseValues(m', ps[1..], frequency, vars);
      assert m'.Values <= m.Values + (if key.Some? then {key.value} else {});
    }
  }

  /** A full list of slots of a study with VIs has a key other than `SinGrupo`. */
  lemma FullSlotsKey(slots: seq<Option<string>>, vars: seq<Variable>)
    requires |slots| == |vars| > 0
    ensures GroupKeyOf(slots, vars).Some? && GroupKeyOf(slots, vars).value != NoGroupKey
  {
    var parts := GroupParts(slots, vars);
    var k := Join(parts, ";");
    var n := vars[0].name;
    assert k == parts[0] || k == parts[0] + ";" + Join(parts[1..], ";");
    assert parts[0] == n + "=" + SlotText(slots[0]);
    assert k[|n|] == '=';
    assert '=' !in NoGroupKey;
  }

  /** A file that follows the grammar always has a key (the `IndexError` path
      is never taken), and the key is `SinGrupo` exactly when the study has no VIs. */
  lemma ParsedFileKey(names: seq<string>, vars: seq<Variable>, p: Parsed)
    requires p in ValidParsed(names, vars)
    ensures GroupKeyOf(p.id.descriptors, vars).Some?
    ensures GroupKeyOf(p.id.descriptors, vars).value == NoGroupKey <==> vars == []
  {
    ValidParsedSound(names, vars, p);
    FileNameIdentityProperties(p.fileName, vars);
    assert |p.id.descriptors| == |vars|;
    if vars != [] {
      FullSlotsKey(p.id.descriptors, vars);
    }
  }

  /** A key is in the study's set exactly when some listed processed file that
      follows the grammar has it. */
  lemma StudyGroupKeysMeaning(files: seq<ScannedFile>, frequency: string, vars: seq<Variable>, k: string)
    ensures k in StudyGroupKeys(files, frequency, vars) <==>
      exists n :: n in ProcessedNames(files, frequency) && FileNameIdentity(n, vars).Some? &&
        GroupKeyOf(FileNameIdentity(n, vars).value.descriptors, vars) == Some(k)
  {
    var names := ProcessedNames(files, frequency);
    var ps := ValidParsed(names, vars);
    if k in StudyGroupKeys(files, frequency, vars) {
      var p :| p in ps && GroupKeyOf(p.id.descriptors, vars) == Some(k);
      ValidParsedSound(names, vars, p);
    }
    if exists n :: n in names && FileNameIdentity(n, vars).Some? &&
                   GroupKeyOf(FileNameIdentity(n, vars).value.descriptors, vars) == Some(k) {
      var n :| n in names && FileNameIdentity(n, vars).Some? &&
               GroupKeyOf(FileNameIdentity(n, vars).value.descriptors, vars) == Some(k);
      ValidParsedComplete(names, vars, n);
    }
  }

  // ===========================================================================
  // Full keys contributing to a partial selection
  // ===========================================================================

  /** Every required part is one of the `;`-parts of the key. */
  predicate Covers(key: string, required: seq<string>)
  {
    forall q :: q in required ==> q in Split(key, ";")
  }

  /** `_get_contributing_full_keys`: no keys for an empty requirement; otherwise
      the study's keys that contain every required part, sorted, each once. */
  method ContributingFullKeys(files: seq<ScannedFile>, frequency: string, vars: seq<Variable>,
                              required: seq<string>) returns (r: seq<string>)
    ensures required == [] ==> r == []
    ensures StrictlySorted(r)
    ensures forall k :: k in r <==>
              required != [] && k in StudyGroupKeys(files, frequency, vars) && Covers(k, required)
  {
    if required == [] {
      return [];
    }
    var byBase, keys := IdentifyStudyGroups(files, frequency, vars);
    if keys == {} {
      return [];
    }
    var matching: seq<string> := [];
    var todo := keys;
    while todo != {}
      invariant todo <= keys
      invariant forall k :: k in matching <==> k in keys - todo && Covers(k, required)
      decreases |todo|
    {
      var k :| k in todo;
      todo := todo - {k};
      var parts := Split(k, ";");
      if forall q :: q in required ==> q in parts {
        matching := matching + [k];
      }
    }
    r := SortedSet(set k | k in matching);
  }

  // ===========================================================================
  // The numbered groups of a study
  // ===========================================================================

  /** `aliases.get(value, value)`. */
  function AliasOf(aliases: Aliases, value: string): string
  {
    if value in aliases then aliases[value] else value
  }

  /** `"VI: alias"` for a part `VI=value` split at its first `=`. */
  function PartDisplay(part: string, aliases: Aliases): string
    requires '=' in part
  {
    var pieces := SplitOnce(part, '=');
    pieces[0] + ": " + AliasOf(aliases, pieces[1])
  }

  /** The shown parts of a key; `None` is the `ValueError` of a part without `=`. */
  function PartsDisplay(parts: seq<string>, aliases: Aliases): Option<seq<string>>
  {
    if forall i :: 0 <= i < |parts| ==> '=' in parts[i] then
      Some(seq(|parts|, i requires 0 <= i < |parts| && '=' in parts[i] => PartDisplay(parts[i], aliases)))
    else None
  }

  /** `"Grupo n - VI: alias, ..."` for the key numbered `n = i + 1`, with
      `Grupo General` for `SinGrupo`. */
  function GroupDisplay(i: nat, key: string, aliases: Aliases): Option<string>
  {
    var shown := if key == NoGroupKey then Some([]) else PartsDisplay(Split(key, ";"), aliases);
    if shown.None? then None
    else Some("Grupo " + NatToString(i + 1) + " - " + (if shown.value == [] then "Grupo General" else Join(shown.value, ", ")))
  }

  /** Whether the key can be shown: `SinGrupo`, or every part has a `=`. */
  predicate Displayable(key: string)
  {
    key == NoGroupKey || forall p :: p in Split(key, ";") ==> '=' in p
  }

  /** Python's order of `(display, key)` pairs. */
  predicate PairLe(a: (string, string), b: (string, string))
  {
    LexLess(a.0, b.0) || (a.0 == b.0 && LexLe(a.1, b.1))
  }

  lemma PairLePreorder()
    ensures TotalPreorder(PairLe)
  {
    forall a: (string, string), b: (string, string) ensures PairLe(a, b) || PairLe(b, a) {
      LexLessTotal(a.0, b.0);
      LexLeTotal(a.1, b.1);
    }
    forall a: (string, string), b: (string, string), c: (string, string) | PairLe(a, b) && PairLe(b, c)
      ensures PairLe(a, c)
    {
      if a.0 != b.0 && b.0 != c.0 {
        LexLessTransitive(a.0, b.0, c.0);
      } else if a.0 == b.0 && b.0 == c.0 {
        LexLessIrreflexive(a.0);
        LexLeTransitive(a.1, b.1, c.1);
      }
    }
  }

  /** The `(display, key)` pairs of the sorted keys, numbered from 1. */
  function NumberedGroups(sorted: seq<string>, aliases: Aliases): Option<seq<(string, string)>>
  {
    if forall i :: 0 <= i < |sorted| ==> GroupDisplay(i, sorted[i], aliases).Some? then
      Some(seq(|sorted|, i requires 0 <= i < |sorted| && GroupDisplay(i, sorted[i], aliases).Some? =>
                            (GroupDisplay(i, sorted[i], aliases).value, sorted[i])))
    else None
  }

  /** A key can be numbered and shown exactly when it is displayable. */
  lemma GroupDisplaySome(i: nat, key: string, aliases: Aliases)
    ensures GroupDisplay(i, key, aliases).Some? <==> Displayable(key)
  {
    if key != NoGroupKey {
      var parts := Split(key, ";");
      assert (forall j :: 0 <= j < |parts| ==> '=' in parts[j]) <==> (forall q :: q in parts ==> '=' in q);
    }
  }

  /** The numbered pairs carry the sorted keys, one pair per key, in order. */
  lemma NumberedKeys(sorted: seq<string>, aliases: Aliases)
    requires NumberedGroups(sorted, aliases).Some?
    ensures var ns := NumberedGroups(sorted, aliases).value;
      |ns| == |sorted| && (forall i :: 0 <= i < |ns| ==> ns[i].1 == sorted[i]) &&
      (forall k :: k in sorted <==> exists e :: e in ns && e.1 == k)
  {
    var ns := NumberedGroups(sorted, aliases).value;
    forall k ensures k in sorted <==> exists e :: e in ns && e.1 == k {
      if k in sorted {
        var i :| 0 <= i < |sorted| && sorted[i] == k;
        assert ns[i] in ns;
      }
      if exists e :: e in ns && e.1 == k {
        var e :| e in ns && e.1 == k;
        var i :| 0 <= i < |ns| && ns[i] == e;
      }
    }
  }

  /** Each numbered pair shows its key under the number of the key's place in the sorted keys. */
  lemma NumberedDisplays(sorted: seq<string>, aliases: Aliases)
    requires NumberedGroups(sorted, aliases).Some?
    ensures forall e :: e in NumberedGroups(sorted, aliases).value ==>
              exists i :: 0 <= i < |sorted| && sorted[i] == e.1 && GroupDisplay(i, e.1, aliases) == Some(e.0)
  {
    var ns := NumberedGroups(sorted, aliases).value;
    forall e | e in ns
      ensures exists i :: 0 <= i < |sorted| && sorted[i] == e.1 && GroupDisplay(i, e.1, aliases) == Some(e.0)
    {
      var i :| 0 <= i < |ns| && ns[i] == e;
      assert sorted[i] == e.1 && GroupDisplay(i, e.1, aliases) == Some(e.0);
    }
  }

  /** The numbering fails exactly when some key is not displayable. */
  lemma NumberedGroupsSome(sorted: seq<string>, aliases: Aliases)
    ensures NumberedGroups(sorted, aliases).Some? <==> forall k :: k in sorted ==> Displayable(k)
  {
    forall i | 0 <= i < |sorted| {
      GroupDisplaySome(i, sorted[i], aliases);
    }
    if forall k :: k in sorted ==> Displayable(k) {
      forall i | 0 <= i < |sorted| ensures GroupDisplay(i, sorted[i], aliases).Some? {
        assert sorted[i] in sorted;
      }
    }
  }

  /** The numbered, sorted `(display, key)` pairs of keys already in increasing order. */
  function GroupsOfSorted(sorted: seq<string>, aliases: Aliases): (r: seq<(string, string)>)
    ensures SortedBy(r, PairLe)
    ensures (forall k :: k in sorted ==> Displayable(k)) ==>
              |r| == |sorted| && (forall k :: k in sorted <==> exists e :: e in r && e.1 == k) &&
              forall e :: e in r ==> exists i :: 0 <= i < |sorted| && sorted[i] == e.1 &&
                                              GroupDisplay(i, e.1, aliases) == Some(e.0)
    ensures !(forall k :: k in sorted ==> Displayable(k)) ==> r == []
  {
    PairLePreorder();
    NumberedGroupsSome(sorted, aliases);
    var numbered := NumberedGroups(sorted, aliases);
    if numbered.None? then []
    else
      NumberedKeys(sorted, aliases);
      NumberedDisplays(sorted, aliases);
      SortByMembers(numbered.value, PairLe);
      SortBy(numbered.value, PairLe)
  }

  /** `get_discrete_analysis_groups`: the keys in increasing order are numbered
      from 1 and shown with aliases, and the `(display, key)` pairs are sorted;
      a key that cannot be shown gives no groups at all. */
  function DiscreteGroups(keys: set<string>, aliases: Aliases): (r: seq<(string, string)>)
    ensures SortedBy(r, PairLe)
    ensures (forall k :: k in keys ==> Displayable(k)) ==>
              |r| == |keys| && forall k :: k in keys <==> exists e :: e in r && e.1 == k
    ensures (forall k :: k in keys ==> Displayable(k)) ==>
              forall e :: e in r ==> exists i :: 0 <= i < |SortedSet(keys)| && SortedSet(keys)[i] == e.1 &&
                                              GroupDisplay(i, e.1, aliases) == Some(e.0)
    ensures !(forall k :: k in keys ==> Displayable(k)) ==> r == []
  {
    SortedSetDisplayable(keys);
    GroupsOfSorted(SortedSet(keys), aliases)
  }

  lemma SortedSetDisplayable(keys: set<string>)
    ensures (forall k :: k in keys ==> Displayable(k)) <==> (forall k :: k in SortedSet(keys) ==> Displayable(k))
  {
  }

  /** The keys of the groups, in the order of the groups. */
  function KeyOrder(groups: seq<(string, string)>): seq<string>
  {
    seq(|groups|, i requires 0 <= i < |groups| => groups[i].1)
  }

  // ===========================================================================
  // The 1-VI mode
  // ===========================================================================

  /** The first of the parts that starts with `prefix`. */
  function FirstWithPrefix(parts: seq<string>, prefix: string): (r: Option<string>)
    ensures r.Some? ==> r.value in parts && StartsWith(r.value, prefix)
    ensures r.None? ==> forall p :: p in parts ==> !StartsWith(p, prefix)
    decreases |parts|
  {
    if parts == [] then None
    else if StartsWith(parts[0], prefix) then Some(parts[0])
    else FirstWithPrefix(parts[1..], prefix)
  }

  /** Scans the parts of a key for the first one of the primary VI, stopping there. */
  method FindPrefixed(parts: seq<string>, prefix: string) returns (r: Option<string>)
    ensures r == FirstWithPrefix(parts, prefix)
  {
    var j := 0;
    while j < |parts|
      invariant 0 <= j <= |parts|
      invariant FirstWithPrefix(parts[j..], prefix) == FirstWithPrefix(parts, prefix)
    {
      assert parts[j..][0] == parts[j] && parts[j..][1..] == parts[j + 1..];
      if StartsWith(parts[j], prefix) {
        return Some(parts[j]);
      }
      j := j + 1;
    }
    return None;
  }

  /** A part that starts with `VI=` has a `=`. */
  lemma PrefixedHasEq(part: string, primary: string)
    requires StartsWith(part, primary + "=")
    ensures '=' in part
  {
    assert part[|primary|] == (primary + "=")[|primary|] == '=';
  }

  /** `"primary: alias"` for a part of the primary VI, read after its first `=`. */
  function OneViDisplay(primary: string, part: string, aliases: Aliases): string
    requires '=' in part
  {
    primary + ": " + AliasOf(aliases, SplitOnce(part, '=')[1])
  }

  /** The part of the primary VI in a key, if any. */
  function PrimaryPart(key: string, primary: string): Option<string>
  {
    FirstWithPrefix(Split(key, ";"), primary + "=")
  }

  /** The display of a key in the 1-VI mode, if it has a part of the primary VI. */
  function KeyDisplay(key: string, primary: string, aliases: Aliases): Option<string>
  {
    var part := PrimaryPart(key, primary);
    if part.None? then None
    else
      PrefixedHasEq(part.value, primary);
      Some(OneViDisplay(primary, part.value, aliases))
  }

  /** The shown names of the entries. */
  function Displays(entries: seq<(string, string)>): set<string>
  {
    set e | e in entries :: e.1
  }

  /** The `{partial key: display}` entries of the 1-VI mode after reading `keys`
      in order: a key's primary part is added unless its display is already there. */
  function OneViEntries(keys: seq<string>, primary: string, aliases: Aliases): seq<(string, string)>
    decreases |keys|
  {
    if keys == [] then []
    else
      var prev := OneViEntries(keys[..|keys| - 1], primary, aliases);
      var key := keys[|keys| - 1];
      var d := KeyDisplay(key, primary, aliases);
      if d.None? || d.value in Displays(prev) then prev
      else prev + [(PrimaryPart(key, primary).value, d.value)]
  }

  /** The 1-VI branch of `get_filtered_discrete_analysis_groups`, before the final sort. */
  method OneViGroups(keys: seq<string>, primary: string, aliases: Aliases) returns (entries: seq<(string, string)>)
    ensures entries == OneViEntries(keys, primary, aliases)
  {
    entries := [];
    var i := 0;
    while i < |keys|
      invariant 0 <= i <= |keys|
      invariant entries == OneViEntries(keys[..i], primary, aliases)
    {
      OneViEntriesStep(keys, i, primary, aliases);
      var parts := Split(keys[i], ";");
      var part := FindPrefixed(parts, primary + "=");
      if part.Some? {
        PrefixedHasEq(part.value, primary);
        var d := OneViDisplay(primary, part.value, aliases);
        if d !in Displays(entries) {
          entries := entries + [(part.value, d)];
        }
      }
      i := i + 1;
    }
    assert keys[..i] == keys;
  }

  /** Reading one more key adds its entry unless its display is already shown. */
  lemma OneViEntriesStep(keys: seq<string>, i: nat, primary: string, aliases: Aliases)
    requires i < |keys|
    ensures var prev := OneViEntries(keys[..i], primary, aliases);
      var d := KeyDisplay(keys[i], primary, aliases);
      OneViEntries(keys[..i + 1], primary, aliases) ==
        if d.None? || d.value in Displays(prev) then prev
        else prev + [(PrimaryPart(keys[i], primary).value, d.value)]
  {
    assert keys[..i + 1][..i] == keys[..i] && keys[..i + 1][i] == keys[i];
  }

  /** No display appears twice. */
  predicate DistinctDisplays(entries: seq<(string, string)>)
  {
    forall a, b :: 0 <= a < b < |entries| ==> entries[a].1 != entries[b].1
  }

  /** No display appears twice among the 1-VI entries. */
  lemma {:induction false} OneViDistinct(keys: seq<string>, primary: string, aliases: Aliases)
    ensures DistinctDisplays(OneViEntries(keys, primary, aliases))
    decreases |keys|
  {
    if keys != [] {
      var prev := OneViEntries(keys[..|keys| - 1], primary, aliases);
      OneViDistinct(keys[..|keys| - 1], primary, aliases);
      var r := OneViEntries(keys, primary, aliases);
      var key := keys[|keys| - 1];
      var d := KeyDisplay(key, primary, aliases);
      if d.Some? && d.value !in Displays(prev) {
        var x := (PrimaryPart(key, primary).value, d.value);
        assert r == prev + [x];
        forall a, b | 0 <= a < b < |r| ensures r[a].1 != r[b].1 {
          assert r[a] == prev[a];
          if b == |prev| {
            assert prev[a] in prev;
            assert r[b] == x;
          } else {
            assert r[b] == prev[b];
          }
        }
      } else {
        assert r == prev;
      }
    }
  }

  /** Each 1-VI entry is the primary part of some key with its display, and no
      earlier key shows the same way: the first key found wins. */
  lemma {:induction false} OneViSource(keys: seq<string>, primary: string, aliases: Aliases, e: (string, string))
    requires e in OneViEntries(keys, primary, aliases)
    ensures exists j :: 0 <= j < |keys| && PrimaryPart(keys[j], primary) == Some(e.0) &&
              KeyDisplay(keys[j], primary, aliases) == Some(e.1) &&
              forall j' :: 0 <= j' < j ==> KeyDisplay(keys[j'], primary, aliases) != Some(e.1)
    decreases |keys|
  {
    var n := |keys| - 1;
    var init := keys[..n];
    var prev := OneViEntries(init, primary, aliases);
    assert forall j :: 0 <= j < n ==> init[j] == keys[j];
    if e in prev {
      OneViSource(init, primary, aliases, e);
      var j :| 0 <= j < |init| && PrimaryPart(init[j], primary) == Some(e.0) &&
               KeyDisplay(init[j], primary, aliases) == Some(e.1) &&
               forall j' :: 0 <= j' < j ==> KeyDisplay(init[j'], primary, aliases) != Some(e.1);
      assert PrimaryPart(keys[j], primary) == Some(e.0);
    } else {
      var key := keys[n];
      var d := KeyDisplay(key, primary, aliases);
      assert d.Some? && d.value !in Displays(prev) && e == (PrimaryPart(key, primary).value, d.value);
      forall j' | 0 <= j' < n ensures KeyDisplay(keys[j'], primary, aliases) != Some(e.1) {
        if KeyDisplay(keys[j'], primary, aliases).Some? {
          OneViShown(init, primary, aliases, j');
        }
      }
    }
  }

  /** The displays offered after reading `keys` in the 1-VI mode. */
  ghost function ShownAfter(keys: seq<string>, primary: string, aliases: Aliases): set<string>
  {
    Displays(OneViEntries(keys, primary, aliases))
  }

  /** The display of every key that has a primary part is among the 1-VI entries. */
  lemma {:induction false} OneViShown(keys: seq<string>, primary: string, aliases: Aliases, j: nat)
    requires j < |keys| && KeyDisplay(keys[j], primary, aliases).Some?
    ensures KeyDisplay(keys[j], primary, aliases).value in ShownAfter(keys, primary, aliases)
    decreases |keys|
  {
    var n := |keys| - 1;
    var last := KeyDisplay(keys[n], primary, aliases);
    OneViDisplaysStep(keys, primary, aliases);
    if j < n {
      assert keys[..n][j] == keys[j];
      OneViShown(keys[..n], primary, aliases, j);
    } else {
      assert last.value in (if last.Some? then {last.value} else {});
    }
  }

  /** Reading one more key adds its display, if it has one, to the displays shown. */
  lemma OneViDisplaysStep(keys: seq<string>, primary: string, aliases: Aliases)
    requires keys != []
    ensures var d := KeyDisplay(keys[|keys| - 1], primary, aliases);
      ShownAfter(keys, primary, aliases) ==
      ShownAfter(keys[..|keys| - 1], primary, aliases) + (if d.Some? then {d.value} else {})
  {
    var prev := OneViEntries(keys[..|keys| - 1], primary, aliases);
    var key := keys[|keys| - 1];
    var d := KeyDisplay(key, primary, aliases);
    if d.Some? && d.value !in Displays(prev) {
      DisplaysSnoc(prev, (PrimaryPart(key, primary).value, d.value));
    }
  }

  lemma DisplaysSnoc(entries: seq<(string, string)>, x: (string, string))
    ensures Displays(entries + [x]) == Displays(entries) + {x.1}
  {
    assert x in entries + [x];
    forall e | e in entries + [x] ensures e in entries || e == x {
    }
  }

  // ===========================================================================
  // The 2-VI mode
  // ===========================================================================

  /** `[p for p in parts if p != fixed]`. */
  function OtherParts(parts: seq<string>, fixed: string): (r: seq<string>)
    ensures forall p :: p in r <==> p in parts && p != fixed
    decreases |parts|
  {
    if parts == [] then []
    else (if parts[0] != fixed then [parts[0]] else []) + OtherParts(parts[1..], fixed)
  }

  /** The display of a key in the 2-VI mode: the key has the fixed pair and
      exactly one other part, which splits on `=` into exactly two pieces (the
      other case is the `ValueError` that skips the key). */
  function TwoViDisplay(key: string, fixedPair: string, aliases: Aliases): (r: Option<string>)
    ensures r.Some? ==>
      var parts := Split(key, ";");
      fixedPair in parts &&
      exists other :: other in parts && other != fixedPair &&
        (forall p :: p in parts ==> p == fixedPair || p == other) &&
        |Split(other, "=")| == 2 &&
        r.value == Split(other, "=")[0] + ": " + AliasOf(aliases, Split(other, "=")[1])
  {
    var parts := Split(key, ";");
    if fixedPair !in parts then None
    else
      var others := OtherParts(parts, fixedPair);
      if |others| != 1 then None
      else
        var pieces := Split(others[0], "=");
        if |pieces| != 2 then None
        else
          OnlyOtherPart(parts, fixedPair);
          Some(pieces[0] + ": " + AliasOf(aliases, pieces[1]))
  }

  /** When one part differs from the fixed pair, every part is the fixed pair or that one. */
  lemma OnlyOtherPart(parts: seq<string>, fixedPair: string)
    requires |OtherParts(parts, fixedPair)| == 1
    ensures var other := OtherParts(parts, fixedPair)[0];
      other in parts && other != fixedPair && forall p :: p in parts ==> p == fixedPair || p == other
  {
    var others := OtherParts(parts, fixedPair);
    assert others[0] in others;
    forall p | p in parts ensures p == fixedPair || p == others[0] {
      if p != fixedPair {
        assert p in others;
      }
    }
  }

  /** The `{full key: display}` entries of the 2-VI mode after reading `keys` in order. */
  function TwoViEntries(keys: seq<string>, fixedPair: string, aliases: Aliases): seq<(string, string)>
    decreases |keys|
  {
    if keys == [] then []
    else
      var prev := TwoViEntries(keys[..|keys| - 1], fixedPair, aliases);
      var d := TwoViDisplay(keys[|keys| - 1], fixedPair, aliases);
      if d.None? then prev else prev + [(keys[|keys| - 1], d.value)]
  }

  /** The 2-VI branch of `get_filtered_discrete_analysis_groups`, before the final sort. */
  method TwoViGroups(keys: seq<string>, fixedPair: string, aliases: Aliases) returns (entries: seq<(string, string)>)
    ensures entries == TwoViEntries(keys, fixedPair, aliases)
  {
    entries := [];
    var i := 0;
    while i < |keys|
      invariant 0 <= i <= |keys|
      invariant entries == TwoViEntries(keys[..i], fixedPair, aliases)
    {
      assert keys[..i + 1][..i] == keys[..i] && keys[..i + 1][i] == keys[i];
      var parts := Split(keys[i], ";");
      if fixedPair in parts {
        var others := OtherParts(parts, fixedPair);
        if |others| == 1 {
          var pieces := Split(others[0], "=");
          if |pieces| == 2 {
            entries := entries + [(keys[i], pieces[0] + ": " + AliasOf(aliases, pieces[1]))];
          }
        }
      }
      i := i + 1;
    }
    assert keys[..i] == keys;
  }

  /** The 2-VI entries are exactly the keys that have a 2-VI display, each with it. */
  lemma {:induction false} TwoViEntriesMeaning(keys: seq<string>, fixedPair: string, aliases: Aliases)
    ensures forall e :: e in TwoViEntries(keys, fixedPair, aliases) <==>
              e.0 in keys && TwoViDisplay(e.0, fixedPair, aliases) == Some(e.1)
    decreases |keys|
  {
    if keys != [] {
      var n := |keys| - 1;
      TwoViEntriesMeaning(keys[..n], fixedPair, aliases);
      assert keys == keys[..n] + [keys[n]];
      forall k: string ensures k in keys <==> k in keys[..n] || k == keys[n] {
      }
    }
  }

  // ===========================================================================
  // The filtered groups
  // ===========================================================================

  /** Python's truth value of an optional text argument. */
  predicate Given(s: Option<string>)
  {
    s.Some? && s.value != []
  }

  /** Order by display. */
  predicate DisplayLe(a: (string, string), b: (string, string))
  {
    LexLe(a.1, b.1)
  }

  lemma DisplayLePreorder()
    ensures TotalPreorder(DisplayLe)
  {
    forall a: (string, string), b: (string, string) ensures DisplayLe(a, b) || DisplayLe(b, a) {
      LexLeTotal(a.1, b.1);
    }
    forall a: (string, string), b: (string, string), c: (string, string) | DisplayLe(a, b) && DisplayLe(b, c)
      ensures DisplayLe(a, c)
    {
      LexLeTransitive(a.1, b.1, c.1);
    }
  }

  /** `sorted(entries, key=display)`: stable, so equal displays keep their order. */
  function SortByDisplay(entries: seq<(string, string)>): (r: seq<(string, string)>)
    ensures SortedBy(r, DisplayLe)
    ensures multiset(r) == multiset(entries)
  {
    DisplayLePreorder();
    SortBy(entries, DisplayLe)
  }

  /** The keys of a study's groups in the order of the numbered groups. */
  function GroupOrder(files: seq<ScannedFile>, frequency: string, vars: seq<Variable>, aliases: Aliases): seq<string>
  {
    KeyOrder(DiscreteGroups(StudyGroupKeys(files, frequency, vars), aliases))
  }

  /** `get_filtered_discrete_analysis_groups`: the 1-VI entries when the mode is
      `1VI` with a primary VI, the 2-VI entries of the fixed pair when the mode
      is `2VIs` with a fixed VI and value, and nothing otherwise; sorted by
      display, keeping the reading order among equal displays. */
  method FilteredDiscreteGroups(files: seq<ScannedFile>, frequency: string, vars: seq<Variable>, aliases: Aliases,
                                mode: string, primary: Option<string>, fixedVi: Option<string>,
                                fixedValue: Option<string>) returns (r: seq<(string, string)>)
    ensures SortedBy(r, DisplayLe)
    ensures mode == "1VI" && Given(primary) ==>
              var entries := OneViEntries(GroupOrder(files, frequency, vars, aliases), primary.value, aliases);
              multiset(r) == multiset(entries) && r == SortByDisplay(entries)
    ensures !(mode == "1VI" && Given(primary)) && mode == "2VIs" && Given(fixedVi) && Given(fixedValue) ==>
              var entries := TwoViEntries(GroupOrder(files, frequency, vars, aliases),
                                          fixedVi.value + "=" + fixedValue.value, aliases);
              multiset(r) == multiset(entries) && r == SortByDisplay(entries)
    ensures !(mode == "1VI" && Given(primary)) && !(mode == "2VIs" && Given(fixedVi) && Given(fixedValue)) ==>
              r == []
  {
    var byBase, keys := IdentifyStudyGroups(files, frequency, vars);
    var order := KeyOrder(DiscreteGroups(keys, aliases));
    var entries: seq<(string, string)> := [];
    if mode == "1VI" && Given(primary) {
      entries := OneViGroups(order, primary.value, aliases);
    } else if mode == "2VIs" && Given(fixedVi) && Given(fixedValue) {
      entries := TwoViGroups(order, fixedVi.value + "=" + fixedValue.value, aliases);
    }
    r := SortByDisplay(entries);
  }

  // ===========================================================================
  // Discrete table names
  // ===========================================================================

  /** The group key made safe for a file name: `=` becomes `_`, then `;` becomes `__`. */
  function SafeKey(key: string): string
  {
    ReplaceAll(ReplaceAll(key, "=", "_"), ";", "__")
  }

  /** `{calculation}_{frequency}_{safe key}.{ext}`, the file name of a discrete table. */
  function TableFileName(calculation: string, frequency: string, key: string, ext: string): string
  {
    calculation + "_" + frequency + "_" + SafeKey(key) + "." + ext
  }

  // ===========================================================================
  // The configuration of an individual analysis
  // ===========================================================================

  /** The keys an individual-analysis configuration must have. */
  const RequiredConfigKeys: set<string> :=
    {"name", "frequency", "calculation", "column", "groups", "parametric", "paired"}

  /** The characters an analysis name may not contain. */
  const ForbiddenNameChars: string := "<>:\"/\\|?*"

  /** The keys present in the configuration, its name and its groups. */
  datatype AnalysisConfig = AnalysisConfig(keys: set<string>, name: string, groups: seq<string>)

  datatype ConfigError = ConfigIncomplete | TooFewGroups | BlankAnalysisName | ForbiddenCharacters

  datatype ConfigCheck = ConfigRejected(error: ConfigError) | ConfigAccepted(analysisName: string)

  /** Whether the stripped analysis name is free of the forbidden characters. */
  predicate NameCharsOk(name: string)
  {
    forall c :: c in name ==> c !in ForbiddenNameChars
  }

  /** The validation at the start of `perform_individual_analysis`: the checks
      run in this order and the first that fails decides the `ValueError`; an
      accepted configuration yields the stripped name. */
  function CheckIndividualConfig(cfg: AnalysisConfig): (r: ConfigCheck)
    ensures r.ConfigAccepted? <==>
              RequiredConfigKeys <= cfg.keys && |cfg.groups| >= 2 && Strip(cfg.name) != [] && NameCharsOk(Strip(cfg.name))
    ensures r.ConfigAccepted? ==> r.analysisName == Strip(cfg.name) && r.analysisName != []
    ensures r == ConfigRejected(ConfigIncomplete) <==> !(RequiredConfigKeys <= cfg.keys)
    ensures r == ConfigRejected(TooFewGroups) <==> RequiredConfigKeys <= cfg.keys && |cfg.groups| < 2
    ensures r == ConfigRejected(BlankAnalysisName) <==>
              RequiredConfigKeys <= cfg.keys && |cfg.groups| >= 2 && Strip(cfg.name) == []
  {
    if !(RequiredConfigKeys <= cfg.keys) then ConfigRejected(ConfigIncomplete)
    else if |cfg.groups| < 2 then ConfigRejected(TooFewGroups)
    else if cfg.name == [] || Strip(cfg.name) == [] then ConfigRejected(BlankAnalysisName)
    else
      var name := Strip(cfg.name);
      if exists c :: c in ForbiddenNameChars && c in name then ConfigRejected(ForbiddenCharacters)
      else ConfigAccepted(name)
  }

  // ===========================================================================
  // Column names of a processed file
  // ===========================================================================

  /** The stripped header name of column `i`; from the fourth column on, the
      text after its first `:` (stripped again); `Unnamed_i` when empty. */
  function CleanColumnName(i: nat, raw: string): (r: string)
    ensures r != []
  {
    var s := Strip(raw);
    var t := if i >= 3 && ':' in s then Strip(SplitOnce(s, ':')[1]) else s;
    if t == [] then "Unnamed_" + NatToString(i) else t
  }

  function CleanedNames(raw: seq<string>): seq<string>
  {
    seq(|raw|, i requires 0 <= i < |raw| => CleanColumnName(i, raw[i]))
  }

  /** How many times `x` occurs in `s`. */
  function Occurrences(s: seq<string>, x: string): nat
  {
    if s == [] then 0
    else Occurrences(s[..|s| - 1], x) + (if s[|s| - 1] == x then 1 else 0)
  }

  lemma OccurrencesStep(s: seq<string>, i: nat)
    requires i < |s|
    ensures forall c :: Occurrences(s[..i + 1], c) == Occurrences(s[..i], c) + (if c == s[i] then 1 else 0)
  {
    assert s[..i + 1][..i] == s[..i];
  }

  /** The `counts` map of the column loop after the names in `seen`: each name
      seen maps to its number of repeats so far. */
  ghost predicate CountsMatch(counts: map<string, nat>, seen: seq<string>)
  {
    (forall c :: c in counts <==> Occurrences(seen, c) > 0) &&
    (forall c :: c in counts ==> counts[c] + 1 == Occurrences(seen, c))
  }

  /** Column `i` keeps its cleaned name the first time it appears, and the
      `k`-th repeat of a cleaned name becomes `name_k`. */
  function RepeatName(cleaned: seq<string>, i: nat): string
    requires i < |cleaned|
  {
    var k := Occurrences(cleaned[..i], cleaned[i]);
    if k == 0 then cleaned[i] else cleaned[i] + "_" + NatToString(k)
  }

  /** The column names for `width` data columns: the repeat-numbered header
      names, cut to the width, then `Data_Col_i` for every missing column `i`. */
  function ColumnNames(raw: seq<string>, width: nat): (r: seq<string>)
    ensures |r| == width
    ensures forall i :: 0 <= i < width ==> r[i] != []
  {
    var cleaned := CleanedNames(raw);
    seq(width, i requires 0 <= i < width =>
      if i < |raw| then RepeatName(cleaned, i) else "Data_Col_" + NatToString(i))
  }

  /** The repeat names of the first `n` columns. */
  function RepeatNames(cleaned: seq<string>, n: nat): (r: seq<string>)
    requires n <= |cleaned|
    ensures |r| == n
  {
    if n == 0 then [] else RepeatNames(cleaned, n - 1) + [RepeatName(cleaned, n - 1)]
  }

  lemma {:induction false} RepeatNamesIndex(cleaned: seq<string>, n: nat)
    requires n <= |cleaned|
    ensures forall j :: 0 <= j < n ==> RepeatNames(cleaned, n)[j] == RepeatName(cleaned, j)
  {
    if n > 0 {
      RepeatNamesIndex(cleaned, n - 1);
    }
  }

  /** The `counts` map of the column loop after the names in `seen`, built as the loop builds it:
      a name enters with 0 and goes up by one at each repeat. */
  ghost function CountsOf(seen: seq<string>): map<string, nat>
    decreases |seen|
  {
    if seen == [] then map[]
    else
      var prev := CountsOf(seen[..|seen| - 1]);
      var c := seen[|seen| - 1];
      if c in prev then prev[c := prev[c] + 1] else prev[c := 0]
  }

  /** The loop's map holds exactly the names seen so far, each with its number of repeats. */
  lemma {:induction false} CountsOfMatch(seen: seq<string>)
    ensures CountsMatch(CountsOf(seen), seen)
    decreases |seen|
  {
    if seen != [] {
      var n := |seen| - 1;
      CountsOfMatch(seen[..n]);
      OccurrencesStep(seen, n);
      assert seen[..n + 1] == seen;
    }
  }

  /** A step of the column loop on the counts: a name enters with 0 and goes up by one at each repeat. */
  lemma CountsStep(cleaned: seq<string>, i: nat)
    requires i < |cleaned|
    ensures var counts := CountsOf(cleaned[..i]);
      var c := cleaned[i];
      CountsOf(cleaned[..i + 1]) == if c in counts then counts[c := counts[c] + 1] else counts[c := 0]
  {
    assert cleaned[..i + 1][..i] == cleaned[..i] && cleaned[..i + 1][i] == cleaned[i];
  }

  /** A step of the column loop on the names: a name seen before gets its
      raised count as a suffix, a new one is kept as it is. */
  lemma RepeatStep(cleaned: seq<string>, i: nat)
    requires i < |cleaned|
    ensures var counts := CountsOf(cleaned[..i]);
      var c := cleaned[i];
      RepeatNames(cleaned, i + 1) ==
        RepeatNames(cleaned, i) + [if c in counts then c + "_" + NatToString(counts[c] + 1) else c]
  {
    var counts := CountsOf(cleaned[..i]);
    var c := cleaned[i];
    CountsOfMatch(cleaned[..i]);
    var k := Occurrences(cleaned[..i], c);
    assert c in counts <==> k > 0;
    if c in counts {
      assert counts[c] + 1 == k;
      assert RepeatName(cleaned, i) == c + "_" + NatToString(counts[c] + 1);
    } else {
      assert RepeatName(cleaned, i) == c;
    }
  }

  /** The header loop of `_read_processed_file_data`: each name cleaned, then
      numbered by its `counts` entry when it was seen before. */
  method NumberColumns(raw: seq<string>) returns (names: seq<string>)
    ensures names == RepeatNames(CleanedNames(raw), |raw|)
  {
    ghost var cleaned := CleanedNames(raw);
    var counts: map<string, nat> := map[];
    names := [];
    var i := 0;
    while i < |raw|
      invariant 0 <= i <= |raw|
      invariant names == RepeatNames(cleaned, i)
      invariant counts == CountsOf(cleaned[..i])
    {
      var c := CleanColumnName(i, raw[i]);
      var unique;
      unique, counts := NumberColumn(cleaned, i, c, counts);
      names := names + [unique];
      i := i + 1;
    }
  }

  /** One step of the header loop: the name of column `i` and the counts after it. */
  method NumberColumn(ghost cleaned: seq<string>, i: nat, c: string, counts: map<string, nat>)
    returns (unique: string, after: map<string, nat>)
    requires i < |cleaned| && c == cleaned[i] && counts == CountsOf(cleaned[..i])
    ensures after == CountsOf(cleaned[..i + 1])
    ensures RepeatNames(cleaned, i + 1) == RepeatNames(cleaned, i) + [unique]
  {
    CountsStep(cleaned, i);
    RepeatStep(cleaned, i);
    if c in counts {
      after := counts[c := counts[c] + 1];
      unique := c + "_" + NatToString(after[c]);
    } else {
      after := counts[c := 0];
      unique := c;
    }
  }

  /** Cuts the names to `width`, or pads them with `Data_Col_i` for each missing column `i`. */
  method FitColumns(named: seq<string>, width: nat) returns (names: seq<string>)
    ensures |names| == width
    ensures forall k :: 0 <= k < width ==>
              names[k] == if k < |named| then named[k] else "Data_Col_" + NatToString(k)
  {
    if |named| > width {
      names := named[..width];
    } else {
      names := named;
      var j := |named|;
      while j < width
        invariant |named| <= j <= width && |names| == j
        invariant forall k :: 0 <= k < j ==>
                    names[k] == if k < |named| then named[k] else "Data_Col_" + NatToString(k)
      {
        names := names + ["Data_Col_" + NatToString(j)];
        j := j + 1;
      }
    }
  }

  /** The column names `_read_processed_file_data` hands to the CSV reader. */
  method SanitiseColumns(raw: seq<string>, width: nat) returns (names: seq<string>)
    ensures names == ColumnNames(raw, width)
  {
    var named := NumberColumns(raw);
    RepeatNamesIndex(CleanedNames(raw), |raw|);
    names := FitColumns(named, width);
  }

  // ===========================================================================
  // Statistics lines of a processed file
  // ===========================================================================

  /** `;;CALC;`, the start of the statistics line of a calculation. */
  function StatsPrefix(calculation: string): string
  {
    ";;" + Upper(calculation) + ";"
  }

  /** The values of a statistics line: the stripped line after the prefix, split on `;`. */
  function StatsValues(line: string, prefix: string): seq<string>
  {
    var s := Strip(line);
    Split(if |prefix| <= |s| then s[|prefix|..] else [], ";")
  }

  /** The index of the last line that starts with `prefix`. */
  function LastStartingWith(lines: seq<string>, prefix: string): (r: Option<nat>)
    ensures r.Some? ==> r.value < |lines| && StartsWith(lines[r.value], prefix) &&
                        forall j :: r.value < j < |lines| ==> !StartsWith(lines[j], prefix)
    ensures r.None? ==> forall j :: 0 <= j < |lines| ==> !StartsWith(lines[j], prefix)
    decreases |lines|
  {
    if lines == [] then None
    else if StartsWith(lines[|lines| - 1], prefix) then Some(|lines| - 1)
    else LastStartingWith(lines[..|lines| - 1], prefix)
  }

  /** `_extract_stats_from_processed_file`: among the last three lines, read
      from the last, the first that starts with the prefix of the calculation
      gives the values; a file of fewer than three lines, or no such line, gives `None`. */
  function ExtractStats(lines: seq<string>, calculation: string): (r: Option<seq<string>>)
    ensures |lines| < 3 ==> r.None?
    ensures |lines| >= 3 ==>
              (r.Some? <==> exists j :: |lines| - 3 <= j < |lines| && StartsWith(lines[j], StatsPrefix(calculation)))
    ensures r.Some? ==>
              exists j :: |lines| - 3 <= j < |lines| && StartsWith(lines[j], StatsPrefix(calculation)) &&
                (forall j' :: j < j' < |lines| ==> !StartsWith(lines[j'], StatsPrefix(calculation))) &&
                r.value == StatsValues(lines[j], StatsPrefix(calculation))
  {
    if |lines| < 3 then None
    else
      var n := |lines| - 3;
      var tail := lines[n..];
      var prefix := StatsPrefix(calculation);
      var found := LastStartingWith(tail, prefix);
      assert forall j :: n <= j < |lines| ==> lines[j] == tail[j - n];
      if found.None? then None
      else
        assert lines[n + found.value] == tail[found.value];
        Some(StatsValues(tail[found.value], prefix))
  }
}
