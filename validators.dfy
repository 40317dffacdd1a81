/**
  The three validators of a study: the study form with its independent
  variables (VIs), the naming convention of a data file, and the per-subject
  rules a batch of files must respect for each VI.
 */
module Validators {
  import opened Wrappers
  import opened Text
  import opened Ordering

  // ===========================================================================
  // The study form
  // ===========================================================================

  /** A flag of a VI as it arrives: a boolean, or some other value. A missing
      flag reads as `FlagBool(false)`. */
  datatype Flag = FlagBool(b: bool) | FlagOther

  /** One entry of a VI's descriptor list: text, or some other value. */
  datatype RawDescriptor = DescText(text: string) | DescOther

  /** A VI's descriptor list; a missing list reads as `DescList([])`. */
  datatype RawDescriptors = DescList(items: seq<RawDescriptor>) | DescNotList

  /** One VI as it arrives: a dictionary (missing name reads as "") or some other value. */
  datatype RawVariable =
    | VarDict(name: string, descriptors: RawDescriptors, allowsCombination: Flag, isMandatory: Flag)
    | VarOther

  /** The VI list; a missing list reads as `VarList([])`. */
  datatype RawVariables = VarList(items: seq<RawVariable>) | VarsNotList

  /** The study form; a missing text field reads as "". */
  datatype StudyForm = StudyForm(name: string, numSubjects: string, attemptsCount: string, variables: RawVariables)

  datatype CountField = Subjects | Attempts

  /** One constructor per message of the validator, carrying what the message names. */
  datatype StudyError =
    | NameRequired
    | NameTooShort
    | CountRequired(field: CountField)
    | CountNotInteger(field: CountField)
    | CountNotPositive(field: CountField)
    | VariablesNotList
    | NoVariables
    | VariableNotDict(position: nat)
    | VariableNameEmpty(position: nat)
    | VariableNameDuplicate(vi: string)
    | DescriptorsNotList(vi: string)
    | TooFewDescriptors(vi: string)
    | DescriptorNotText(vi: string)
    | DescriptorEmpty(vi: string)
    | DescriptorHasSpace(vi: string, descriptor: string)
    | DescriptorIsNulo(vi: string, descriptor: string)
    | DescriptorDuplicate(vi: string, descriptor: string)
    | AllowsCombinationNotBool(vi: string)
    | MandatoryNotBool(vi: string)
    | MandatoryWithoutCombination(vi: string)

  // ---------------------------------------------------------------------------
  // What a valid form is
  // ---------------------------------------------------------------------------

  /** A count field holds a positive integer. */
  predicate ValidCount(s: string)
  {
    ParseInt(s).Some? && ParseInt(s).value > 0
  }

  /** The cleaned form of a descriptor entry. */
  function CleanDescriptor(d: RawDescriptor): string
  {
    match d
    case DescText(t) => Strip(t)
    case DescOther => ""
  }

  /** A cleaned descriptor is non-empty, has no space and is not "nulo" in any case. */
  predicate CleanOk(c: string)
  {
    c != [] && ' ' !in c && Lower(c) != "nulo"
  }

  /** A descriptor entry is text whose cleaned form is acceptable. */
  predicate DescriptorOk(d: RawDescriptor)
  {
    d.DescText? && CleanOk(Strip(d.text))
  }

  /** The first `j` entries are acceptable and their cleaned forms pairwise distinct. */
  ghost predicate EntriesOk(items: seq<RawDescriptor>, j: nat)
    requires j <= |items|
  {
    (forall k :: 0 <= k < j ==> DescriptorOk(items[k])) &&
    (forall k, l :: 0 <= k < l < j ==> CleanDescriptor(items[k]) != CleanDescriptor(items[l]))
  }

  /** A list of at least two entries, all acceptable and distinct once cleaned. */
  ghost predicate ValidDescriptors(ds: RawDescriptors)
  {
    ds.DescList? && |ds.items| >= 2 && EntriesOk(ds.items, |ds.items|)
  }

  /** The cleaned name of a VI entry. */
  function VarName(v: RawVariable): string
  {
    if v.VarDict? then Strip(v.name) else ""
  }

  ghost predicate ValidVariable(v: RawVariable)
  {
    v.VarDict? && Strip(v.name) != [] && ValidDescriptors(v.descriptors) &&
    v.allowsCombination.FlagBool? && v.isMandatory.FlagBool? &&
    (v.isMandatory.b ==> v.allowsCombination.b)
  }

  /** The first `i` VIs are valid and carry distinct names. */
  ghost predicate PrefixValid(items: seq<RawVariable>, i: nat)
    requires i <= |items|
  {
    (forall k :: 0 <= k < i ==> ValidVariable(items[k])) &&
    (forall k, l :: 0 <= k < l < i ==> VarName(items[k]) != VarName(items[l]))
  }

  ghost predicate ValidVariables(vs: RawVariables)
  {
    vs.VarList? && |vs.items| > 0 && PrefixValid(vs.items, |vs.items|)
  }

  /** The name and both counts pass. */
  predicate FieldsOk(d: StudyForm)
  {
    |Strip(d.name)| >= 3 && ValidCount(d.numSubjects) && ValidCount(d.attemptsCount)
  }

  /** What the form validator accepts. */
  ghost predicate WellFormedStudy(d: StudyForm)
  {
    FieldsOk(d) && ValidVariables(d.variables)
  }

  // ---------------------------------------------------------------------------
  // Which defect an error names
  // ---------------------------------------------------------------------------

  /** The error for a count field, checked in the order: missing, not an integer, not positive. */
  function CountError(s: string, f: CountField): (r: Option<StudyError>)
    ensures r.None? <==> ValidCount(s)
  {
    if s == "" then Some(CountRequired(f))
    else match ParseInt(s)
      case None => Some(CountNotInteger(f))
      case Some(n) => if n <= 0 then Some(CountNotPositive(f)) else None
  }

  /** The error for one descriptor entry, given the cleaned entries before it:
      not text, empty, with a space, "nulo", or a repeat. */
  function EntryError(vi: string, d: RawDescriptor, seen: set<string>): (r: Option<StudyError>)
    ensures r.None? <==> DescriptorOk(d) && CleanDescriptor(d) !in seen
    ensures r.Some? ==> EntryDefect(d, seen, vi, r.value)
  {
    if d.DescOther? then Some(DescriptorNotText(vi))
    else
      var c := Strip(d.text);
      if c == [] then Some(DescriptorEmpty(vi))
      else if ' ' in c then Some(DescriptorHasSpace(vi, c))
      else if Lower(c) == "nulo" then Some(DescriptorIsNulo(vi, c))
      else if c in seen then Some(DescriptorDuplicate(vi, c))
      else None
  }

  /** `e` names a defect of the entry `d` of the VI called `vi`, given the cleaned entries before it. */
  ghost predicate EntryDefect(d: RawDescriptor, seen: set<string>, vi: string, e: StudyError)
  {
    if e.DescriptorNotText? then e.vi == vi && d.DescOther?
    else if e.DescriptorEmpty? then e.vi == vi && d.DescText? && Strip(d.text) == []
    else if e.DescriptorHasSpace? then
      e.vi == vi && d.DescText? && e.descriptor == Strip(d.text) && e.descriptor != [] && ' ' in e.descriptor
    else if e.DescriptorIsNulo? then
      e.vi == vi && d.DescText? && e.descriptor == Strip(d.text) && Lower(e.descriptor) == "nulo"
    else if e.DescriptorDuplicate? then
      e.vi == vi && DescriptorOk(d) && e.descriptor == CleanDescriptor(d) && e.descriptor in seen
    else false
  }

  /** The cleaned forms of the first `j` entries. */
  function CleanedPrefix(items: seq<RawDescriptor>, j: nat): set<string>
    requires j <= |items|
  {
    set k | 0 <= k < j :: CleanDescriptor(items[k])
  }

  /** `e` names a defect of the descriptor list `ds` of the VI called `vi`: the
      list itself, or its first defective entry. */
  ghost predicate DescriptorDefect(ds: RawDescriptors, vi: string, e: StudyError)
  {
    if e.DescriptorsNotList? then e.vi == vi && ds.DescNotList?
    else if e.TooFewDescriptors? then e.vi == vi && ds.DescList? && |ds.items| < 2
    else ds.DescList? && |ds.items| >= 2 && FirstEntryError(ds.items, vi, e)
  }

  /** `e` names a defect of some entry, and every entry before it is acceptable. */
  ghost predicate FirstEntryError(items: seq<RawDescriptor>, vi: string, e: StudyError)
  {
    exists j :: 0 <= j < |items| && (forall k :: 0 <= k < j ==> DescriptorOk(items[k])) &&
      EntryDefect(items[j], CleanedPrefix(items, j), vi, e)
  }

  /** The VI is a dictionary whose cleaned name is non-empty and not among `names`. */
  ghost predicate NameFresh(v: RawVariable, names: set<string>)
  {
    v.VarDict? && Strip(v.name) != [] && Strip(v.name) !in names
  }

  /** `e` names a defect of the VI `v` at 1-based position `pos`, given the names of the VIs before it. */
  ghost predicate VariableDefect(v: RawVariable, names: set<string>, pos: nat, e: StudyError)
  {
    if e.VariableNotDict? then e.position == pos && v.VarOther?
    else if e.VariableNameEmpty? then e.position == pos && v.VarDict? && Strip(v.name) == []
    else if e.VariableNameDuplicate? then v.VarDict? && e.vi == Strip(v.name) && e.vi != [] && e.vi in names
    else if e.AllowsCombinationNotBool? then
      NameFresh(v, names) && e.vi == VarName(v) && ValidDescriptors(v.descriptors) && v.allowsCombination.FlagOther?
    else if e.MandatoryNotBool? then
      NameFresh(v, names) && e.vi == VarName(v) && ValidDescriptors(v.descriptors) &&
      v.allowsCombination.FlagBool? && v.isMandatory.FlagOther?
    else if e.MandatoryWithoutCombination? then
      NameFresh(v, names) && e.vi == VarName(v) && ValidDescriptors(v.descriptors) &&
      v.allowsCombination.FlagBool? && v.isMandatory.FlagBool? && v.isMandatory.b && !v.allowsCombination.b
    else NameFresh(v, names) && DescriptorDefect(v.descriptors, VarName(v), e)
  }

  /** The cleaned names of the first `i` VIs. */
  function NamesPrefix(items: seq<RawVariable>, i: nat): set<string>
    requires i <= |items|
  {
    set k | 0 <= k < i :: VarName(items[k])
  }

  /** `e` reports the first defective VI: every VI before it is valid. */
  ghost predicate VariableErrorJustified(items: seq<RawVariable>, e: StudyError)
  {
    exists i :: 0 <= i < |items| && PrefixValid(items, i) && VariableDefect(items[i], NamesPrefix(items, i), i + 1, e)
  }

  // ---------------------------------------------------------------------------
  // The validator
  // ---------------------------------------------------------------------------

  /** Checks one VI's descriptor list, stopping at the first defective entry. */
  method CheckDescriptors(vi: string, ds: RawDescriptors) returns (err: Option<StudyError>)
    ensures err.None? <==> ValidDescriptors(ds)
    ensures err.Some? ==> DescriptorDefect(ds, vi, err.value)
  {
    if ds.DescNotList? {
      return Some(DescriptorsNotList(vi));
    }
    if |ds.items| < 2 {
      return Some(TooFewDescriptors(vi));
    }
    err := ScanEntries(vi, ds.items);
  }

  /** The loop over the entries of a list of two or more, stopping at the first defective one. */
  method ScanEntries(vi: string, items: seq<RawDescriptor>) returns (err: Option<StudyError>)
    requires |items| >= 2
    ensures err.None? <==> EntriesOk(items, |items|)
    ensures err.Some? ==> !err.value.DescriptorsNotList? && !err.value.TooFewDescriptors? &&
                          FirstEntryError(items, vi, err.value)
  {
    var seen: set<string> := {};
    var j := 0;
    while j < |items|
      invariant 0 <= j <= |items|
      invariant seen == CleanedPrefix(items, j)
      invariant EntriesOk(items, j)
    {
      var e := EntryError(vi, items[j], seen);
      if e.Some? {
        FirstEntryDefect(vi, items, j, e.value);
        return e;
      }
      EntryAccepted(items, j);
      CleanedPrefixStep(items, j);
      seen := seen + {CleanDescriptor(items[j])};
      j := j + 1;
    }
    return None;
  }

  /** An entry error after acceptable entries is the defect of the whole list,
      and the list is not valid. */
  lemma FirstEntryDefect(vi: string, items: seq<RawDescriptor>, j: nat, e: StudyError)
    requires 2 <= |items| && j < |items|
    requires EntriesOk(items, j)
    requires EntryError(vi, items[j], CleanedPrefix(items, j)) == Some(e)
    ensures !e.DescriptorsNotList? && !e.TooFewDescriptors? && FirstEntryError(items, vi, e)
    ensures !EntriesOk(items, |items|)
  {
    var seen := CleanedPrefix(items, j);
    assert EntryDefect(items[j], seen, vi, e);
    assert 0 <= j < |items| && (forall k :: 0 <= k < j ==> DescriptorOk(items[k])) && EntryDefect(items[j], seen, vi, e);
    if DescriptorOk(items[j]) {
      var k :| 0 <= k < j && CleanDescriptor(items[k]) == CleanDescriptor(items[j]);
      assert 0 <= k < j < |items|;
    } else {
      assert !DescriptorOk(items[j]);
    }
  }

  /** An accepted entry keeps the entries read so far acceptable and distinct. */
  lemma EntryAccepted(items: seq<RawDescriptor>, j: nat)
    requires j < |items|
    requires EntriesOk(items, j) && DescriptorOk(items[j])
    requires CleanDescriptor(items[j]) !in CleanedPrefix(items, j)
    ensures EntriesOk(items, j + 1)
  {
    forall k, l | 0 <= k < l < j + 1 ensures CleanDescriptor(items[k]) != CleanDescriptor(items[l]) {
      if l == j {
        assert CleanDescriptor(items[k]) in CleanedPrefix(items, j);
      }
    }
  }

  /** The cleaned entries grow by one entry at a time. */
  lemma CleanedPrefixStep(items: seq<RawDescriptor>, j: nat)
    requires j < |items|
    ensures CleanedPrefix(items, j + 1) == CleanedPrefix(items, j) + {CleanDescriptor(items[j])}
  {
  }

  lemma PrefixValidStep(items: seq<RawVariable>, i: nat)
    requires i < |items| && PrefixValid(items, i)
    requires ValidVariable(items[i]) && VarName(items[i]) !in NamesPrefix(items, i)
    ensures PrefixValid(items, i + 1)
  {
    forall k | 0 <= k < i + 1 ensures ValidVariable(items[k]) {
      if k < i {
        assert ValidVariable(items[k]);
      }
    }
    forall k, l | 0 <= k < l < i + 1 ensures VarName(items[k]) != VarName(items[l]) {
      if l == i {
        assert VarName(items[k]) in NamesPrefix(items, i);
      }
    }
  }

  /** A defect of a fresh-named VI's descriptor list is a defect of the VI. */
  lemma DescriptorErrorOfVariable(v: RawVariable, names: set<string>, pos: nat, e: StudyError)
    requires NameFresh(v, names) && DescriptorDefect(v.descriptors, VarName(v), e)
    ensures VariableDefect(v, names, pos, e)
  {
    if !e.DescriptorsNotList? && !e.TooFewDescriptors? {
      var j :| 0 <= j < |v.descriptors.items| &&
        EntryDefect(v.descriptors.items[j], CleanedPrefix(v.descriptors.items, j), VarName(v), e);
      assert e.DescriptorNotText? || e.DescriptorEmpty? || e.DescriptorHasSpace? ||
             e.DescriptorIsNulo? || e.DescriptorDuplicate?;
    }
  }

  /** Checks one VI at 1-based position `pos`: its name, its descriptors, then its flags. */
  method CheckVariable(v: RawVariable, names: set<string>, pos: nat) returns (err: Option<StudyError>)
    ensures err.None? <==> ValidVariable(v) && VarName(v) !in names
    ensures err.Some? ==> VariableDefect(v, names, pos, err.value)
  {
    if v.VarOther? {
      return Some(VariableNotDict(pos));
    }
    var viName := Strip(v.name);
    if viName == [] {
      return Some(VariableNameEmpty(pos));
    }
    if viName in names {
      return Some(VariableNameDuplicate(viName));
    }
    err := CheckDescriptors(viName, v.descriptors);
    if err.Some? {
      DescriptorErrorOfVariable(v, names, pos, err.value);
      return;
    }
    if v.allowsCombination.FlagOther? {
      return Some(AllowsCombinationNotBool(viName));
    }
    if v.isMandatory.FlagOther? {
      return Some(MandatoryNotBool(viName));
    }
    if v.isMandatory.b && !v.allowsCombination.b {
      return Some(MandatoryWithoutCombination(viName));
    }
    return None;
  }

  /** Validates a study form, reporting the first defect in the order the
      fields are read: name, subject count, attempt count, the VI list, then
      each VI in turn (its name, its descriptors, its flags). */
  method ValidateStudyIvData(d: StudyForm) returns (err: Option<StudyError>)
    ensures err.None? <==> WellFormedStudy(d)
    ensures Strip(d.name) == [] ==> err == Some(NameRequired)
    ensures 0 < |Strip(d.name)| < 3 ==> err == Some(NameTooShort)
    ensures |Strip(d.name)| >= 3 && !ValidCount(d.numSubjects) ==> err == CountError(d.numSubjects, Subjects)
    ensures |Strip(d.name)| >= 3 && ValidCount(d.numSubjects) && !ValidCount(d.attemptsCount) ==>
              err == CountError(d.attemptsCount, Attempts)
    ensures FieldsOk(d) && d.variables.VarsNotList? ==> err == Some(VariablesNotList)
    ensures FieldsOk(d) && d.variables == VarList([]) ==> err == Some(NoVariables)
    ensures FieldsOk(d) && d.variables.VarList? && d.variables.items != [] && err.Some? ==>
              VariableErrorJustified(d.variables.items, err.value)
  {
    var name := Strip(d.name);
    if name == [] {
      return Some(NameRequired);
    }
    if |name| < 3 {
      return Some(NameTooShort);
    }
    err := CountError(d.numSubjects, Subjects);
    if err.Some? {
      return;
    }
    err := CountError(d.attemptsCount, Attempts);
    if err.Some? {
      return;
    }
    if d.variables.VarsNotList? {
      return Some(VariablesNotList);
    }
    var items := d.variables.items;
    if items == [] {
      return Some(NoVariables);
    }
    var names: set<string> := {};
    var i := 0;
    while i < |items|
      invariant 0 <= i <= |items|
      invariant names == NamesPrefix(items, i)
      invariant PrefixValid(items, i)
    {
      err := CheckVariable(items[i], names, i + 1);
      if err.Some? {
        if ValidVariable(items[i]) {
          var k :| 0 <= k < i && VarName(items[k]) == VarName(items[i]);
          assert !PrefixValid(items, |items|);
        }
        return;
      }
      PrefixValidStep(items, i);
      assert NamesPrefix(items, i + 1) == names + {VarName(items[i])};
      names := names + {VarName(items[i])};
      i := i + 1;
    }
    return None;
  }

  // ===========================================================================
  // The file naming convention
  // ===========================================================================

  /** A VI of a stored study, after normalisation. */
  datatype Variable = Variable(name: string, descriptors: seq<string>, allowsCombination: bool, isMandatory: bool)

  /** What a valid file name tells: the subject, one slot per VI (`None` for
      "Nulo") and the attempt number. */
  datatype FileIdentity = FileIdentity(subject: string, descriptors: seq<Option<string>>, attempt: nat)

  /** Folder names a processed file carries as a `_<folder>` suffix. */
  const ProcessedFolders: seq<string> := ["Cinematica", "Cinetica", "Electromiografica"]

  /** The stem of the file name without a `_<folder>` suffix. */
  function BaseName(fileName: string): string
  {
    var stem := Stem(fileName);
    var parts := RSplitOnce(stem, '_');
    if |parts| == 2 && parts[1] in ProcessedFolders then parts[0] else stem
  }

  /** The first `k` characters are letters and the rest are digits. */
  predicate LettersThenDigits(s: string, k: int)
    requires 0 <= k <= |s|
  {
    (forall i :: 0 <= i < k ==> IsAsciiLetter(s[i])) && (forall i :: k <= i < |s| ==> IsDigit(s[i]))
  }

  /** The subject pattern: one or more ASCII letters followed by one or more digits. */
  predicate IsSubjectId(s: string)
  {
    exists k :: 0 < k < |s| && LettersThenDigits(s, k)
  }

  /** The value of one descriptor slot: `Some(None)` for "Nulo", `Some(Some(part))`
      for a descriptor of the VI, `None` for anything else. */
  function SlotValue(part: string, v: Variable): Option<Option<string>>
  {
    if part == "Nulo" then Some(None)
    else if part in v.descriptors then Some(Some(part))
    else None
  }

  /** The slots the words between the subject and the attempt give, one per VI,
      or `None` when one of them is neither "Nulo" nor a descriptor of its VI. */
  function SlotsOf(middle: seq<string>, vars: seq<Variable>): Option<seq<Option<string>>>
    requires |middle| == |vars|
  {
    if forall i :: 0 <= i < |vars| ==> SlotValue(middle[i], vars[i]).Some? then
      Some(seq(|vars|, i requires 0 <= i < |vars| => SlotValue(middle[i], vars[i]).value))
    else None
  }

  /** The identity the words of a base name carry, or `None` when they break
      the convention `<subject> <slot per VI> <attempt>`. */
  function IdentityOfBase(base: string, vars: seq<Variable>): Option<FileIdentity>
  {
    var parts := Words(base);
    if |parts| < 2 || !IsSubjectId(parts[0]) then None
    else
      var last := parts[|parts| - 1];
      if !IsDigits(last) || DigitsValue(last) == 0 || |parts| - 2 != |vars| then None
      else match SlotsOf(parts[1..|parts| - 1], vars)
        case None => None
        case Some(slots) =>
          if |vars| > 0 && forall i :: 0 <= i < |vars| ==> slots[i].None? then None
          else Some(FileIdentity(parts[0], slots, DigitsValue(last)))
  }

  /** The identity a file name carries, or `None` when the name breaks the
      convention `<subject> <slot per VI> <attempt>[_<folder>].<ext>`. */
  function FileNameIdentity(fileName: string, vars: seq<Variable>): Option<FileIdentity>
  {
    IdentityOfBase(BaseName(fileName), vars)
  }

  /** What an accepted name yields: a subject of the expected pattern, a positive
      attempt, one slot per VI holding "Nulo" or one of that VI's descriptors,
      and at least one slot that is not "Nulo" when the study has VIs. A name
      whose word count is not the number of VIs plus two is rejected. */
  lemma FileNameIdentityProperties(fileName: string, vars: seq<Variable>)
    ensures var r := FileNameIdentity(fileName, vars);
      r.Some? ==>
        IsSubjectId(r.value.subject) && r.value.attempt > 0 && |r.value.descriptors| == |vars| &&
        (forall i :: 0 <= i < |vars| && r.value.descriptors[i].Some? ==> r.value.descriptors[i].value in vars[i].descriptors) &&
        (|vars| > 0 ==> exists i :: 0 <= i < |vars| && r.value.descriptors[i].Some?)
    ensures |Words(BaseName(fileName))| != |vars| + 2 ==> FileNameIdentity(fileName, vars).None?
  {
    var base := BaseName(fileName);
    var r := IdentityOfBase(base, vars);
    if r.Some? {
      var parts := Words(base);
      assert |parts| >= 2 && IsSubjectId(parts[0]);
      var last := parts[|parts| - 1];
      assert IsDigits(last) && DigitsValue(last) != 0 && |parts| - 2 == |vars|;
      var middle := parts[1..|parts| - 1];
      var slots := SlotsOf(middle, vars);
      assert slots.Some?;
      assert r.value == FileIdentity(parts[0], slots.value, DigitsValue(last));
      SlotsOfDescriptors(middle, vars);
      if |vars| > 0 {
        assert !(forall i :: 0 <= i < |vars| ==> slots.value[i].None?);
      }
    }
  }

  /** Slots read from the middle words hold "Nulo" or a descriptor of their VI. */
  lemma SlotsOfDescriptors(middle: seq<string>, vars: seq<Variable>)
    requires |middle| == |vars|
    ensures var r := SlotsOf(middle, vars);
      r.Some? ==> (|r.value| == |vars| &&
        forall i :: 0 <= i < |vars| && r.value[i].Some? ==> r.value[i].value in vars[i].descriptors)
  {
    var r := SlotsOf(middle, vars);
    if r.Some? {
      forall i | 0 <= i < |vars| && r.value[i].Some? ensures r.value[i].value in vars[i].descriptors {
        assert SlotValue(middle[i], vars[i]).Some?;
      }
    }
  }

  /** Reads the descriptor slots one by one, stopping at the first bad one. */
  method ReadSlots(middle: seq<string>, vars: seq<Variable>) returns (r: Option<seq<Option<string>>>, hasValue: bool)
    requires |middle| == |vars|
    ensures r == SlotsOf(middle, vars)
    ensures r.Some? ==> (hasValue <==> exists i :: 0 <= i < |vars| && r.value[i].Some?)
  {
    var slots: seq<Option<string>> := [];
    hasValue := false;
    var i := 0;
    while i < |middle|
      invariant 0 <= i <= |middle|
      invariant |slots| == i
      invariant forall k :: 0 <= k < i ==> SlotValue(middle[k], vars[k]) == Some(slots[k])
      invariant hasValue <==> exists k :: 0 <= k < i && slots[k].Some?
    {
      var part := middle[i];
      if part == "Nulo" {
        slots := slots + [None];
      } else if part in vars[i].descriptors {
        slots := slots + [Some(part)];
        hasValue := true;
      } else {
        assert SlotValue(middle[i], vars[i]).None?;
        return None, hasValue;
      }
      i := i + 1;
    }
    assert slots == seq(|vars|, k requires 0 <= k < |vars| => SlotValue(middle[k], vars[k]).value);
    return Some(slots), hasValue;
  }

  /** Reads a file name: subject, attempt, then the slots. */
  method ParseFileName(fileName: string, vars: seq<Variable>) returns (r: Option<FileIdentity>)
    ensures r == FileNameIdentity(fileName, vars)
  {
    var parts := Words(BaseName(fileName));
    if |parts| < 2 {
      return None;
    }
    var subject := parts[0];
    if !IsSubjectId(subject) {
      return None;
    }
    var last := parts[|parts| - 1];
    if !IsDigits(last) {
      return None;
    }
    var attempt := DigitsValue(last);
    if attempt <= 0 {
      return None;
    }
    var middle := parts[1..|parts| - 1];
    if |middle| != |vars| {
      return None;
    }
    var slots, hasValue := ReadSlots(middle, vars);
    if slots.None? {
      return None;
    }
    if !hasValue && |vars| > 0 {
      return None;
    }
    return Some(FileIdentity(subject, slots.value, attempt));
  }

  // ---------------------------------------------------------------------------
  // Composing a name that reads back
  // ---------------------------------------------------------------------------

  function SlotText(slot: Option<string>): string
  {
    match slot
    case None => "Nulo"
    case Some(d) => d
  }

  /** The space-separated words of a file name for `id`. */
  function NameWords(id: FileIdentity): seq<string>
  {
    [id.subject] + seq(|id.descriptors|, i requires 0 <= i < |id.descriptors| => SlotText(id.descriptors[i]))
    + [NatToString(id.attempt)]
  }

  /** The raw file name of `id` with extension `ext`. */
  function ComposeFileName(id: FileIdentity, ext: string): string
  {
    Join(NameWords(id), " ") + "." + ext
  }

  /** An identity every part of which can be written into a name and read back. */
  ghost predicate WritableIdentity(id: FileIdentity, vars: seq<Variable>)
  {
    IsSubjectId(id.subject) && id.attempt > 0 && |id.descriptors| == |vars| &&
    (forall i :: 0 <= i < |vars| && id.descriptors[i].Some? ==>
       var d := id.descriptors[i].value;
       d in vars[i].descriptors && d != [] && d != "Nulo" && !HasSpace(d)) &&
    (|vars| > 0 ==> exists i :: 0 <= i < |vars| && id.descriptors[i].Some?)
  }

  lemma SubjectIdNoSpace(s: string)
    requires IsSubjectId(s)
    ensures s != [] && !HasSpace(s)
  {
    var k :| 0 < k < |s| && LettersThenDigits(s, k);
    forall i | 0 <= i < |s| ensures !IsSpace(s[i]) {
      if i < k {
        assert IsAsciiLetter(s[i]);
      } else {
        assert IsDigit(s[i]);
      }
    }
  }

  lemma NatToStringNoSpace(n: nat)
    ensures NatToString(n) != [] && !HasSpace(NatToString(n))
    ensures IsDigit(NatToString(n)[|NatToString(n)| - 1])
  {
    var s := NatToString(n);
    forall i | 0 <= i < |s| ensures !IsSpace(s[i]) {
      assert IsDigit(s[i]);
    }
  }

  /** A stem whose text after the last `_` is not a folder name is its own base name. */
  lemma BaseNameOfStem(name: string, stem: string)
    requires Stem(name) == stem
    requires var parts := RSplitOnce(stem, '_'); |parts| == 2 ==> parts[1] !in ProcessedFolders
    ensures BaseName(name) == stem
  {
  }

  /** A name that ends in a digit before its extension has no folder suffix. */
  lemma BaseNameRaw(w: string, ext: string)
    requires w != [] && IsDigit(w[|w| - 1]) && ext != [] && '.' !in ext
    ensures BaseName(w + "." + ext) == w
  {
    StemOfExtension(w, ext);
    var parts := RSplitOnce(w, '_');
    if |parts| == 2 {
      RSplitOnceLast(w, '_');
      assert parts[1] !in ProcessedFolders by {
        if parts[1] != [] {
          assert !IsDigit('a');
        }
      }
    }
    BaseNameOfStem(w + "." + ext, w);
  }

  /** The folder suffix of a processed file's name is dropped. */
  lemma BaseNameProcessed(w: string, f: string, ext: string)
    requires w != [] && f in ProcessedFolders && ext != [] && '.' !in ext
    ensures BaseName(w + "_" + f + "." + ext) == w
  {
    var stem := w + "_" + f;
    assert '.' !in f && '_' !in f;
    StemOfExtension(stem, ext);
    assert stem == w + ['_'] + f;
    RSplitOnceAt(w, '_', f);
  }

  /** A name composed from a writable identity reads back as that identity,
      with or without the `_<folder>` suffix of a processed file. */
  lemma ParseComposedName(id: FileIdentity, vars: seq<Variable>, ext: string)
    requires WritableIdentity(id, vars) && ext != [] && '.' !in ext
    ensures FileNameIdentity(ComposeFileName(id, ext), vars) == Some(id)
    ensures forall f :: f in ProcessedFolders ==>
              FileNameIdentity(Join(NameWords(id), " ") + "_" + f + "." + ext, vars) == Some(id)
  {
    var w := Join(NameWords(id), " ");
    NameWordsRead(id, vars);
    BaseNameRaw(w, ext);
    forall f | f in ProcessedFolders
      ensures FileNameIdentity(w + "_" + f + "." + ext, vars) == Some(id)
    {
      BaseNameProcessed(w, f, ext);
    }
  }

  /** The words of a writable identity, joined by spaces, read back as it; the
      joined text ends in a digit of the attempt number. */
  lemma NameWordsRead(id: FileIdentity, vars: seq<Variable>)
    requires WritableIdentity(id, vars)
    ensures var w := Join(NameWords(id), " ");
      w != [] && IsDigit(w[|w| - 1]) && IdentityOfBase(w, vars) == Some(id)
  {
    var ws := NameWords(id);
    var n := |vars|;
    NameWordsPlain(id, vars);
    WordsJoin(ws);
    var w := Join(ws, " ");
    JoinLast(ws, " ");
    NatToStringValue(id.attempt);
    var middle := ws[1..|ws| - 1];
    MiddleSlots(id, vars);
    var parts := Words(w);
    assert parts[1..|parts| - 1] == middle;
    if n > 0 {
      var k :| 0 <= k < n && id.descriptors[k].Some?;
    }
  }

  /** Every word of a writable identity's name is non-empty and has no space. */
  lemma NameWordsPlain(id: FileIdentity, vars: seq<Variable>)
    requires WritableIdentity(id, vars)
    ensures forall i :: 0 <= i < |NameWords(id)| ==> NameWords(id)[i] != [] && !HasSpace(NameWords(id)[i])
  {
    var ws := NameWords(id);
    SubjectIdNoSpace(id.subject);
    NatToStringNoSpace(id.attempt);
    forall i | 0 <= i < |ws| ensures ws[i] != [] && !HasSpace(ws[i]) {
      if 0 < i < |ws| - 1 {
        var slot := id.descriptors[i - 1];
        assert ws[i] == SlotText(slot);
        if slot.None? {
          assert ws[i] == "Nulo";
          assert !IsSpace(ws[i][0]) && !IsSpace(ws[i][1]) && !IsSpace(ws[i][2]) && !IsSpace(ws[i][3]);
        }
      }
    }
  }

  /** The middle words of a writable identity's name read back as its descriptor slots. */
  lemma MiddleSlots(id: FileIdentity, vars: seq<Variable>)
    requires WritableIdentity(id, vars)
    ensures |NameWords(id)| == |vars| + 2
    ensures SlotsOf(NameWords(id)[1..|vars| + 1], vars) == Some(id.descriptors)
  {
    var n := |vars|;
    var middle := NameWords(id)[1..n + 1];
    forall i | 0 <= i < n ensures middle[i] == SlotText(id.descriptors[i]) {
    }
    SlotsOfTexts(middle, id.descriptors, vars);
  }

  /** Words that spell the slots, each a descriptor of its VI or "Nulo", read back as those slots. */
  lemma SlotsOfTexts(middle: seq<string>, slots: seq<Option<string>>, vars: seq<Variable>)
    requires |middle| == |slots| == |vars|
    requires forall i :: 0 <= i < |vars| ==> middle[i] == SlotText(slots[i])
    requires forall i :: 0 <= i < |vars| && slots[i].Some? ==>
               slots[i].value in vars[i].descriptors && slots[i].value != "Nulo"
    ensures SlotsOf(middle, vars) == Some(slots)
  {
    var n := |vars|;
    forall i | 0 <= i < n ensures SlotValue(middle[i], vars[i]) == Some(slots[i]) {
    }
    assert seq(n, i requires 0 <= i < n => SlotValue(middle[i], vars[i]).value) == slots;
  }

  /** The last character of a join is that of the last element when it is non-empty. */
  lemma {:induction false} JoinLast(xs: seq<string>, sep: string)
    requires |xs| > 0 && xs[|xs| - 1] != []
    ensures Join(xs, sep) != []
    ensures Join(xs, sep)[|Join(xs, sep)| - 1] == xs[|xs| - 1][|xs[|xs| - 1]| - 1]
    decreases |xs|
  {
    if |xs| > 1 {
      JoinLast(xs[1..], sep);
    }
  }

  // ===========================================================================
  // The VI rules over a batch of files
  // ===========================================================================

  /** A file about to be added: its subject and its descriptor slots. */
  datatype NewFile = NewFile(subject: string, descriptors: seq<Option<string>>)

  /** The descriptor slots of each subject's files. */
  type FilesBySubject = map<string, seq<seq<Option<string>>>>

  function FilesOf(files: FilesBySubject, subject: string): seq<seq<Option<string>>>
  {
    if subject in files then files[subject] else []
  }

  function AddFile(files: FilesBySubject, f: NewFile): FilesBySubject
  {
    files[f.subject := FilesOf(files, f.subject) + [f.descriptors]]
  }

  /** The stored files with the batch appended, file by file. */
  function MergeBatch(files: FilesBySubject, batch: seq<NewFile>): FilesBySubject
    decreases |batch|
  {
    if batch == [] then files else MergeBatch(AddFile(files, batch[0]), batch[1..])
  }

  /** The slots of the batch's files for `subject`, in batch order. */
  function BatchFilesOf(batch: seq<NewFile>, subject: string): seq<seq<Option<string>>>
    decreases |batch|
  {
    if batch == [] then []
    else (if batch[0].subject == subject then [batch[0].descriptors] else []) + BatchFilesOf(batch[1..], subject)
  }

  function BatchSubjects(batch: seq<NewFile>): set<string>
  {
    set k | 0 <= k < |batch| :: batch[k].subject
  }

  lemma BatchSubjectsCons(batch: seq<NewFile>)
    requires batch != []
    ensures BatchSubjects(batch) == {batch[0].subject} + BatchSubjects(batch[1..])
  {
    forall s ensures s in BatchSubjects(batch) <==> s in {batch[0].subject} + BatchSubjects(batch[1..]) {
      if s in BatchSubjects(batch) {
        var k :| 0 <= k < |batch| && batch[k].subject == s;
        if k > 0 {
          assert batch[1..][k - 1].subject == s;
        }
      }
      if s in BatchSubjects(batch[1..]) {
        var k :| 0 <= k < |batch[1..]| && batch[1..][k].subject == s;
        assert batch[k + 1].subject == s;
      }
    }
  }

  /** Merging adds exactly the batch's subjects to the stored ones. */
  lemma {:induction false} MergeBatchKeys(files: FilesBySubject, batch: seq<NewFile>)
    ensures MergeBatch(files, batch).Keys == files.Keys + BatchSubjects(batch)
    decreases |batch|
  {
    if batch != [] {
      MergeBatchKeys(AddFile(files, batch[0]), batch[1..]);
      BatchSubjectsCons(batch);
    }
  }

  /** Merging keeps every stored file of a subject and adds the batch's files
      for that subject after them, in batch order. */
  lemma {:induction false} MergeBatchContents(files: FilesBySubject, batch: seq<NewFile>, s: string)
    requires s in MergeBatch(files, batch)
    ensures MergeBatch(files, batch)[s] == FilesOf(files, s) + BatchFilesOf(batch, s)
    decreases |batch|
  {
    if batch == [] {
      assert BatchFilesOf(batch, s) == [];
    } else {
      var f := batch[0];
      var files' := AddFile(files, f);
      assert MergeBatch(files, batch) == MergeBatch(files', batch[1..]);
      MergeBatchContents(files', batch[1..], s);
      if s == f.subject {
        assert FilesOf(files', s) == FilesOf(files, s) + [f.descriptors];
        assert BatchFilesOf(batch, s) == [f.descriptors] + BatchFilesOf(batch[1..], s);
      } else {
        assert FilesOf(files', s) == FilesOf(files, s);
        assert BatchFilesOf(batch, s) == BatchFilesOf(batch[1..], s);
      }
    }
  }

  /** The non-"Nulo" values the files give for the VI at `idx`; files whose slot list is too short give none. */
  function UsedValues(lists: seq<seq<Option<string>>>, idx: nat): set<string>
  {
    set k | 0 <= k < |lists| && idx < |lists[k]| && lists[k][idx].Some? :: lists[k][idx].value
  }

  /** The descriptors a VI defines, without empty ones. */
  function DefinedDescriptors(v: Variable): set<string>
  {
    set d | d in v.descriptors && d != []
  }

  /** A broken VI rule for one subject. */
  datatype RuleError =
    | MultipleFixedValues(index: nat, vi: string, subject: string, values: seq<string>)
    | MissingMandatory(index: nat, vi: string, subject: string, missing: seq<string>)

  /** The rule the VI at `idx` imposes on one subject's files: a VI that does
      not allow combination takes one value (or "Nulo") per subject; a
      mandatory VI that allows combination needs every descriptor present. */
  function RuleCheck(idx: nat, v: Variable, subject: string, lists: seq<seq<Option<string>>>): (r: Option<RuleError>)
    ensures r.Some? ==> r.value.index == idx && r.value.subject == subject && r.value.vi == v.name
  {
    if lists == [] then None
    else
      var used := UsedValues(lists, idx);
      if !v.allowsCombination && |used| > 1 then
        Some(MultipleFixedValues(idx, v.name, subject, SortedSet(used)))
      else if v.allowsCombination && v.isMandatory && !(DefinedDescriptors(v) <= used) then
        Some(MissingMandatory(idx, v.name, subject, SortedSet(DefinedDescriptors(v) - used)))
      else None
  }

  /** A subject with files breaks the fixed-value rule exactly when its files
      give two or more values, and the mandatory rule exactly when a defined
      descriptor is missing; the error lists those values, sorted, each once. */
  lemma RuleCheckMeaning(idx: nat, v: Variable, subject: string, lists: seq<seq<Option<string>>>)
    ensures var r := RuleCheck(idx, v, subject, lists);
      (r.Some? && r.value.MultipleFixedValues? <==>
         lists != [] && !v.allowsCombination && |UsedValues(lists, idx)| > 1) &&
      (r.Some? && r.value.MissingMandatory? <==>
         lists != [] && v.allowsCombination && v.isMandatory && !(DefinedDescriptors(v) <= UsedValues(lists, idx))) &&
      (r.Some? && r.value.MultipleFixedValues? ==>
         StrictlySorted(r.value.values) && forall x :: x in r.value.values <==> x in UsedValues(lists, idx)) &&
      (r.Some? && r.value.MissingMandatory? ==>
         StrictlySorted(r.value.missing) &&
         forall x :: x in r.value.missing <==> x in DefinedDescriptors(v) && x !in UsedValues(lists, idx))
  {
  }

  /** Checks the rule of one VI for one subject's files. */
  method CheckRule(idx: nat, v: Variable, subject: string, lists: seq<seq<Option<string>>>) returns (e: Option<RuleError>)
    ensures e == RuleCheck(idx, v, subject, lists)
  {
    if lists == [] {
      return None;
    }
    var used := CollectUsed(lists, idx);
    if !v.allowsCombination && |used| > 1 {
      return Some(MultipleFixedValues(idx, v.name, subject, SortedSet(used)));
    }
    if v.allowsCombination && v.isMandatory && !(DefinedDescriptors(v) <= used) {
      return Some(MissingMandatory(idx, v.name, subject, SortedSet(DefinedDescriptors(v) - used)));
    }
    return None;
  }

  /** Errors come by VI, then by subject in increasing order. */
  predicate ErrorBefore(a: RuleError, b: RuleError)
  {
    a.index < b.index || (a.index == b.index && LexLess(a.subject, b.subject))
  }

  /** Collects the values the files give for the VI at `idx`. */
  method CollectUsed(lists: seq<seq<Option<string>>>, idx: nat) returns (used: set<string>)
    ensures used == UsedValues(lists, idx)
  {
    used := {};
    var k := 0;
    while k < |lists|
      invariant 0 <= k <= |lists|
      invariant used == UsedValues(lists[..k], idx)
    {
      if idx < |lists[k]| && lists[k][idx].Some? {
        used := used + {lists[k][idx].value};
      }
      k := k + 1;
      assert lists[..k][..k - 1] == lists[..k - 1];
    }
    assert lists[..k] == lists;
  }

  /** Errors about subjects earlier in a sorted list come before the subject at `j`. */
  lemma EarlierSubjects(subjects: seq<string>, j: nat, found: seq<RuleError>)
    requires StrictlySorted(subjects) && j < |subjects|
    requires forall e :: e in found ==> e.subject in subjects[..j]
    ensures forall a :: 0 <= a < |found| ==> LexLess(found[a].subject, subjects[j])
  {
    forall a | 0 <= a < |found| ensures LexLess(found[a].subject, subjects[j]) {
      assert found[a] in found;
      var j' :| 0 <= j' < j && subjects[j'] == found[a].subject;
    }
  }

  /** Checks the rule of the VI at `idx` for each subject, in the given (sorted) order. */
  method CheckSubjects(idx: nat, v: Variable, subjects: seq<string>, files: FilesBySubject)
    returns (found: seq<RuleError>)
    requires StrictlySorted(subjects)
    requires forall s :: s in subjects ==> s in files
    ensures forall e :: e in found ==>
              e.subject in subjects && RuleCheck(idx, v, e.subject, files[e.subject]) == Some(e)
    ensures forall s :: s in subjects && RuleCheck(idx, v, s, files[s]).Some? ==>
              RuleCheck(idx, v, s, files[s]).value in found
    ensures forall a, b :: 0 <= a < b < |found| ==> LexLess(found[a].subject, found[b].subject)
  {
    found := [];
    var j := 0;
    while j < |subjects|
      invariant 0 <= j <= |subjects|
      invariant forall e :: e in found ==>
                  e.subject in subjects[..j] && RuleCheck(idx, v, e.subject, files[e.subject]) == Some(e)
      invariant forall s :: s in subjects[..j] && RuleCheck(idx, v, s, files[s]).Some? ==>
                  RuleCheck(idx, v, s, files[s]).value in found
      invariant forall a, b :: 0 <= a < b < |found| ==> LexLess(found[a].subject, found[b].subject)
    {
      var s := subjects[j];
      assert subjects[..j + 1] == subjects[..j] + [s];
      var e := CheckRule(idx, v, s, files[s]);
      if e.Some? {
        EarlierSubjects(subjects, j, found);
        found := found + [e.value];
      }
      j := j + 1;
    }
    assert subjects[..j] == subjects;
  }

  /** Checks every VI rule for every subject of the study once the batch is
      added, and lists each broken rule once, by VI and then by subject. */
  method ValidateFilesForViRules(batch: seq<NewFile>, existing: FilesBySubject, vars: seq<Variable>)
    returns (errs: seq<RuleError>)
    ensures vars == [] ==> errs == []
    ensures forall e :: e in errs ==>
              e.index < |vars| && e.subject in MergeBatch(existing, batch) &&
              RuleCheck(e.index, vars[e.index], e.subject, MergeBatch(existing, batch)[e.subject]) == Some(e)
    ensures forall i, s ::
              (0 <= i < |vars| && s in MergeBatch(existing, batch) &&
               RuleCheck(i, vars[i], s, MergeBatch(existing, batch)[s]).Some?) ==>
              RuleCheck(i, vars[i], s, MergeBatch(existing, batch)[s]).value in errs
    ensures forall a, b :: 0 <= a < b < |errs| ==> ErrorBefore(errs[a], errs[b])
  {
    if vars == [] {
      return [];
    }
    var files := MergeFiles(existing, batch);
    var subjects := SortedSet(files.Keys);
    errs := [];
    var i := 0;
    while i < |vars|
      invariant 0 <= i <= |vars|
      invariant ErrorsSound(errs, i, vars, files)
      invariant ErrorsComplete(errs, i, vars, files)
      invariant ErrorsOrdered(errs)
    {
      var found := CheckSubjects(i, vars[i], subjects, files);
      ErrorsStep(errs, found, i, vars, files, subjects);
      errs := errs + found;
      i := i + 1;
    }
  }

  /** Adds the files of a batch one by one. */
  method MergeFiles(existing: FilesBySubject, batch: seq<NewFile>) returns (files: FilesBySubject)
    ensures files == MergeBatch(existing, batch)
  {
    files := existing;
    var k := 0;
    while k < |batch|
      invariant 0 <= k <= |batch|
      invariant MergeBatch(files, batch[k..]) == MergeBatch(existing, batch)
    {
      assert batch[k..][1..] == batch[k + 1..];
      files := AddFile(files, batch[k]);
      k := k + 1;
    }
    assert batch[k..] == [];
  }

  /** Every error reported is a broken rule of one of the first `i` VIs. */
  ghost predicate ErrorsSound(errs: seq<RuleError>, i: nat, vars: seq<Variable>, files: FilesBySubject)
    requires i <= |vars|
  {
    forall e :: e in errs ==>
      e.index < i && e.subject in files && RuleCheck(e.index, vars[e.index], e.subject, files[e.subject]) == Some(e)
  }

  /** Every broken rule of the first `i` VIs is reported. */
  ghost predicate ErrorsComplete(errs: seq<RuleError>, i: nat, vars: seq<Variable>, files: FilesBySubject)
    requires i <= |vars|
  {
    forall i', s :: 0 <= i' < i && s in files && RuleCheck(i', vars[i'], s, files[s]).Some? ==>
      RuleCheck(i', vars[i'], s, files[s]).value in errs
  }

  ghost predicate ErrorsOrdered(errs: seq<RuleError>)
  {
    forall a, b :: 0 <= a < b < |errs| ==> ErrorBefore(errs[a], errs[b])
  }

  /** Appending the errors of the VI at `i`, ordered by subject, keeps the report sound, complete and ordered. */
  lemma ErrorsStep(errs: seq<RuleError>, found: seq<RuleError>, i: nat, vars: seq<Variable>, files: FilesBySubject,
                   subjects: seq<string>)
    requires i < |vars|
    requires ErrorsSound(errs, i, vars, files) && ErrorsComplete(errs, i, vars, files) && ErrorsOrdered(errs)
    requires forall s :: s in files <==> s in subjects
    requires forall e :: e in found ==>
               e.subject in subjects && RuleCheck(i, vars[i], e.subject, files[e.subject]) == Some(e)
    requires forall s :: s in subjects && RuleCheck(i, vars[i], s, files[s]).Some? ==>
               RuleCheck(i, vars[i], s, files[s]).value in found
    requires forall a, b :: 0 <= a < b < |found| ==> LexLess(found[a].subject, found[b].subject)
    ensures ErrorsSound(errs + found, i + 1, vars, files)
    ensures ErrorsComplete(errs + found, i + 1, vars, files)
    ensures ErrorsOrdered(errs + found)
  {
    forall e | e in found ensures e.index == i {
      assert RuleCheck(i, vars[i], e.subject, files[e.subject]) == Some(e);
    }
    var r := errs + found;
    forall a, b | 0 <= a < b < |r| ensures ErrorBefore(r[a], r[b]) {
      if b < |errs| {
        assert r[a] == errs[a] && r[b] == errs[b];
      } else if a < |errs| {
        assert r[a] == errs[a] && r[a] in errs;
        assert r[b] == found[b - |errs|] && r[b] in found;
      } else {
        assert r[a] == found[a - |errs|] && r[b] == found[b - |errs|];
        assert r[a] in found;
      }
    }
  }
}
