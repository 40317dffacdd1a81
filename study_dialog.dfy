/**
  What the study dialog's "save" does with the form before it reaches the
  service: on create it collects the VIs typed in, on edit it rebuilds them by
  position from the stored ones with the edited names; it then runs the form
  validator and, on edit, refuses counts below what the stored files already
  use. Message boxes are the error outcomes.
 */
module StudyDialog {
  import opened Wrappers
  import opened Text
  import opened Validators
  import opened FileService
  import opened StudyService

  /** One VI block of the dialog as typed: name, descriptor entries and both check boxes. */
  datatype UiVariable = UiVariable(name: string, descriptors: seq<string>, allowsCombination: bool, isMandatory: bool)

  /** Create mode holds the typed VI blocks. Edit mode holds the (possibly
      edited) VI names, the stored VIs, the names of the study's processed
      files and the stored aliases. */
  datatype SaveMode =
    | Create(ui: seq<UiVariable>)
    | Edit(uiNames: seq<string>, original: seq<Variable>, fileNames: seq<string>, aliases: Aliases)

  /** What is handed to the service. */
  datatype StudyData = StudyData(name: string, numSubjects: string, attemptsCount: string,
                                 variables: seq<Variable>, aliases: Aliases)

  datatype SaveOutcome =
    | VariableCountChanged
    | VariableUnusable(position: nat)
    | Invalid(error: StudyError)
    | SubjectsBelowCurrent(requested: nat, current: nat)
    | AttemptsBelowCurrent(requested: nat, current: nat)
    | Saved(data: StudyData)

  // ===========================================================================
  // Create mode
  // ===========================================================================

  /** The descriptor entries stripped, empty ones dropped, in order. */
  function StrippedDescriptors(ds: seq<string>): (r: seq<string>)
    ensures |r| <= |ds|
    decreases |ds|
  {
    if ds == [] then []
    else (if Strip(ds[0]) != [] then [Strip(ds[0])] else []) + StrippedDescriptors(ds[1..])
  }

  /** The kept descriptors are exactly the non-empty stripped entries. */
  lemma {:induction false} StrippedDescriptorsMeaning(ds: seq<string>, x: string)
    ensures x in StrippedDescriptors(ds) <==> x != [] && exists d :: d in ds && Strip(d) == x
    decreases |ds|
  {
    if ds != [] {
      StrippedDescriptorsMeaning(ds[1..], x);
      if x != [] && Strip(ds[0]) != x {
        if exists d :: d in ds && Strip(d) == x {
          var d :| d in ds && Strip(d) == x;
          assert d in ds[1..];
        }
      }
    }
  }

  /** The VI a typed block gives: stripped name, kept descriptors, and the
      mandatory box cleared when combination is not allowed. */
  function CollectVariable(u: UiVariable): Variable
  {
    Variable(Strip(u.name), StrippedDescriptors(u.descriptors), u.allowsCombination,
             u.allowsCombination && u.isMandatory)
  }

  /** A block is kept when its name and at least one descriptor survive stripping. */
  predicate Kept(u: UiVariable)
  {
    Strip(u.name) != [] && StrippedDescriptors(u.descriptors) != []
  }

  /** The collected VIs of the first blocks, in order. */
  function Collected(ui: seq<UiVariable>): (r: seq<Variable>)
    ensures |r| <= |ui|
  {
    if ui == [] then []
    else Collected(ui[..|ui| - 1]) +
         (if Kept(ui[|ui| - 1]) then [CollectVariable(ui[|ui| - 1])] else [])
  }

  /** Every collected VI comes from a kept block and every kept block gives one;
      each has a name, at least one descriptor, and is mandatory only when it
      allows combination. */
  lemma {:induction false} CollectedMeaning(ui: seq<UiVariable>, v: Variable)
    ensures v in Collected(ui) <==> exists u :: u in ui && Kept(u) && CollectVariable(u) == v
    ensures v in Collected(ui) ==>
              v.name != [] && v.descriptors != [] && (v.isMandatory ==> v.allowsCombination)
  {
    if ui != [] {
      var init := ui[..|ui| - 1];
      var last := ui[|ui| - 1];
      CollectedMeaning(init, v);
      assert ui == init + [last];
      var tail := if Kept(last) then [CollectVariable(last)] else [];
      assert Collected(ui) == Collected(init) + tail;
      if v in Collected(init) {
        var u :| u in init && Kept(u) && CollectVariable(u) == v;
        assert u in ui;
      } else if v in tail {
        assert last in ui;
      } else {
        forall u | u in ui ensures !(Kept(u) && CollectVariable(u) == v) {
          if u != last {
            assert u in init;
          }
        }
      }
    }
  }

  /** Collects the VIs of the typed blocks. */
  method CollectCreate(ui: seq<UiVariable>) returns (vars: seq<Variable>)
    ensures vars == Collected(ui)
  {
    vars := [];
    var i := 0;
    while i < |ui|
      invariant 0 <= i <= |ui|
      invariant vars == Collected(ui[..i])
    {
      assert ui[..i + 1][..i] == ui[..i];
      var u := ui[i];
      var descriptors := StrippedDescriptors(u.descriptors);
      var name := Strip(u.name);
      var mandatory := u.isMandatory;
      if !u.allowsCombination {
        mandatory := false;
      }
      if name != [] && descriptors != [] {
        vars := vars + [Variable(name, descriptors, u.allowsCombination, mandatory)];
      }
      i := i + 1;
    }
    assert ui[..i] == ui;
  }

  // ===========================================================================
  // Edit mode
  // ===========================================================================

  /** VI i can be rebuilt when its edited name is not empty and the stored VI has descriptors. */
  predicate Rebuildable(name: string, o: Variable)
  {
    Strip(name) != [] && o.descriptors != []
  }

  /** The rebuilt VI: the edited name with the stored descriptors and flags. */
  function Rebuilt(name: string, o: Variable): Variable
  {
    Variable(Strip(name), o.descriptors, o.allowsCombination, o.isMandatory)
  }

  /** Every VI of the edited list can be rebuilt. */
  predicate AllRebuildable(names: seq<string>, original: seq<Variable>)
  {
    |names| == |original| && forall k :: 0 <= k < |original| ==> Rebuildable(names[k], original[k])
  }

  /** The rebuilt list, position by position. */
  function RebuiltAll(names: seq<string>, original: seq<Variable>): (r: seq<Variable>)
    requires |names| == |original|
    ensures |r| == |original| && forall k :: 0 <= k < |original| ==> r[k] == Rebuilt(names[k], original[k])
  {
    seq(|original|, k requires 0 <= k < |original| => Rebuilt(names[k], original[k]))
  }

  /** Counts that the stored files fit in. */
  predicate CountsCoverFiles(subjects: string, attempts: string, fileNames: seq<string>, original: seq<Variable>)
  {
    var stored := AttemptsOf(fileNames, original);
    DigitsOrZero(subjects) >= |stored.Keys| &&
    forall s :: s in stored ==> |stored[s]| <= DigitsOrZero(attempts)
  }

  /** Rebuilds the VIs by position. `failedAt` is the 1-based position of the
      first VI that cannot be rebuilt, 0 when all can. */
  method RebuildEdit(names: seq<string>, original: seq<Variable>) returns (vars: seq<Variable>, failedAt: nat)
    requires |names| == |original|
    ensures failedAt <= |names|
    ensures failedAt == 0 ==>
              |vars| == |names| &&
              forall k :: 0 <= k < |names| ==> Rebuildable(names[k], original[k]) && vars[k] == Rebuilt(names[k], original[k])
    ensures failedAt > 0 ==>
              !Rebuildable(names[failedAt - 1], original[failedAt - 1]) &&
              forall k :: 0 <= k < failedAt - 1 ==> Rebuildable(names[k], original[k])
  {
    vars := [];
    var i := 0;
    while i < |names|
      invariant 0 <= i <= |names| && |vars| == i
      invariant forall k :: 0 <= k < i ==> Rebuildable(names[k], original[k]) && vars[k] == Rebuilt(names[k], original[k])
    {
      var name := Strip(names[i]);
      var o := original[i];
      if name != [] && o.descriptors != [] {
        vars := vars + [Variable(name, o.descriptors, o.allowsCombination, o.isMandatory)];
      } else {
        return vars, i + 1;
      }
      i := i + 1;
    }
    return vars, 0;
  }

  // ===========================================================================
  // Validation and limits
  // ===========================================================================

  function DescriptorEntries(ds: seq<string>): (r: seq<RawDescriptor>)
    ensures |r| == |ds| && forall j :: 0 <= j < |ds| ==> r[j] == DescText(ds[j])
  {
    seq(|ds|, j requires 0 <= j < |ds| => DescText(ds[j]))
  }

  /** The form the validator sees for a list of VIs. */
  function FormOf(name: string, numSubjects: string, attemptsCount: string, vars: seq<Variable>): (f: StudyForm)
    ensures f.name == name && f.numSubjects == numSubjects && f.attemptsCount == attemptsCount
    ensures f.variables.VarList? && |f.variables.items| == |vars|
    ensures forall k :: 0 <= k < |vars| ==>
              f.variables.items[k] == VarDict(vars[k].name, DescList(DescriptorEntries(vars[k].descriptors)),
                                              FlagBool(vars[k].allowsCombination), FlagBool(vars[k].isMandatory))
  {
    StudyForm(name, numSubjects, attemptsCount,
      VarList(seq(|vars|, k requires 0 <= k < |vars| =>
        VarDict(vars[k].name, DescList(DescriptorEntries(vars[k].descriptors)),
                FlagBool(vars[k].allowsCombination), FlagBool(vars[k].isMandatory)))))
  }

  /** `int(s) if s.isdigit() else 0`. */
  function DigitsOrZero(s: string): (n: nat)
    ensures !IsDigits(s) ==> n == 0
    ensures IsDigits(s) ==> ParseInt(s) == Some(n as int)
  {
    if IsDigits(s) then
      StripDigits(s);
      PlainDigitsGrouped(s);
      DigitsValue(s)
    else 0
  }

  lemma StripDigits(s: string)
    requires IsDigits(s)
    ensures Strip(s) == s && !(s[0] == '-' || s[0] == '+')
  {
    assert IsDigit(s[0]) && IsDigit(s[|s| - 1]);
    StripNoSpace(s);
  }

  /** The largest number of attempts of one subject, as the details report it. */
  ghost predicate IsMaxAttempts(attempts: AttemptsBySubject, m: nat)
  {
    (forall s :: s in attempts ==> |attempts[s]| <= m) &&
    (attempts == map[] ==> m == 0) &&
    (attempts != map[] ==> exists s :: s in attempts && |attempts[s]| == m)
  }

  // ===========================================================================
  // save
  // ===========================================================================

  /** The save button. Name and counts are stripped first. */
  method Save(name: string, numSubjects: string, attemptsCount: string, mode: SaveMode) returns (outcome: SaveOutcome)
    ensures mode.Create? ==>
              !outcome.VariableCountChanged? && !outcome.VariableUnusable? &&
              !outcome.SubjectsBelowCurrent? && !outcome.AttemptsBelowCurrent?
    ensures mode.Create? ==>
              var form := FormOf(Strip(name), Strip(numSubjects), Strip(attemptsCount), Collected(mode.ui));
              (outcome.Saved? <==> WellFormedStudy(form)) &&
              (outcome.Saved? ==> outcome.data == StudyData(Strip(name), Strip(numSubjects), Strip(attemptsCount),
                                                            Collected(mode.ui), map[]))
    ensures mode.Edit? ==> (outcome == VariableCountChanged <==> |mode.uiNames| != |mode.original|)
    ensures mode.Edit? && outcome.VariableUnusable? ==>
              |mode.uiNames| == |mode.original| && 1 <= outcome.position <= |mode.uiNames| &&
              !Rebuildable(mode.uiNames[outcome.position - 1], mode.original[outcome.position - 1]) &&
              forall k :: 0 <= k < outcome.position - 1 ==> Rebuildable(mode.uiNames[k], mode.original[k])
    ensures mode.Edit? && outcome.Invalid? ==>
              AllRebuildable(mode.uiNames, mode.original) &&
              !WellFormedStudy(FormOf(Strip(name), Strip(numSubjects), Strip(attemptsCount),
                                      RebuiltAll(mode.uiNames, mode.original)))
    ensures mode.Edit? && (outcome.SubjectsBelowCurrent? || outcome.AttemptsBelowCurrent?) ==>
              AllRebuildable(mode.uiNames, mode.original) &&
              WellFormedStudy(FormOf(Strip(name), Strip(numSubjects), Strip(attemptsCount),
                                     RebuiltAll(mode.uiNames, mode.original)))
    ensures mode.Edit? && outcome.AttemptsBelowCurrent? ==>
              DigitsOrZero(Strip(numSubjects)) >= |AttemptsOf(mode.fileNames, mode.original).Keys|
    ensures (mode.Edit? && AllRebuildable(mode.uiNames, mode.original) &&
             WellFormedStudy(FormOf(Strip(name), Strip(numSubjects), Strip(attemptsCount),
                                    RebuiltAll(mode.uiNames, mode.original))) &&
             CountsCoverFiles(Strip(numSubjects), Strip(attemptsCount), mode.fileNames, mode.original)) ==>
              outcome.Saved?
    ensures mode.Edit? && outcome.SubjectsBelowCurrent? ==>
              outcome.requested == DigitsOrZero(Strip(numSubjects)) &&
              outcome.current == |AttemptsOf(mode.fileNames, mode.original).Keys| &&
              outcome.requested < outcome.current
    ensures mode.Edit? && outcome.AttemptsBelowCurrent? ==>
              outcome.requested == DigitsOrZero(Strip(attemptsCount)) &&
              IsMaxAttempts(AttemptsOf(mode.fileNames, mode.original), outcome.current) &&
              outcome.requested < outcome.current
    ensures mode.Edit? && outcome.Saved? ==>
              |mode.uiNames| == |mode.original| &&
              outcome.data == StudyData(Strip(name), Strip(numSubjects), Strip(attemptsCount),
                                        RebuiltAll(mode.uiNames, mode.original), mode.aliases)
    ensures mode.Edit? && outcome.Saved? ==>
              |mode.uiNames| == |mode.original| &&
              |outcome.data.variables| == |mode.original| &&
              (forall k :: 0 <= k < |mode.original| ==>
                 outcome.data.variables[k] == Rebuilt(mode.uiNames[k], mode.original[k])) &&
              WellFormedStudy(FormOf(Strip(name), Strip(numSubjects), Strip(attemptsCount), outcome.data.variables)) &&
              outcome.data.aliases == mode.aliases &&
              DigitsOrZero(Strip(numSubjects)) >= |AttemptsOf(mode.fileNames, mode.original).Keys| &&
              (forall s :: s in AttemptsOf(mode.fileNames, mode.original) ==>
                 |AttemptsOf(mode.fileNames, mode.original)[s]| <= DigitsOrZero(Strip(attemptsCount)))
  {
    var n := Strip(name);
    var subjects := Strip(numSubjects);
    var attempts := Strip(attemptsCount);
    if mode.Create? {
      outcome := SaveCreate(n, subjects, attempts, mode.ui);
    } else {
      outcome := SaveEdit(n, subjects, attempts, mode.uiNames, mode.original, mode.fileNames, mode.aliases);
    }
  }

  /** Save in create mode: collect the typed VIs, then validate. */
  method SaveCreate(n: string, subjects: string, attempts: string, ui: seq<UiVariable>) returns (outcome: SaveOutcome)
    ensures outcome.Invalid? || outcome.Saved?
    ensures outcome.Saved? <==> WellFormedStudy(FormOf(n, subjects, attempts, Collected(ui)))
    ensures outcome.Saved? ==> outcome.data == StudyData(n, subjects, attempts, Collected(ui), map[])
  {
    var vars := CollectCreate(ui);
    var err := ValidateStudyIvData(FormOf(n, subjects, attempts, vars));
    if err.Some? {
      return Invalid(err.value);
    }
    return Saved(StudyData(n, subjects, attempts, vars, map[]));
  }

  /** Save in edit mode: rebuild the VIs by position, validate, then refuse
      counts below what the stored files use. */
  method SaveEdit(n: string, subjects: string, attempts: string, uiNames: seq<string>, original: seq<Variable>,
                  fileNames: seq<string>, aliases: Aliases) returns (outcome: SaveOutcome)
    ensures outcome == VariableCountChanged <==> |uiNames| != |original|
    ensures outcome.VariableUnusable? ==>
              |uiNames| == |original| && 1 <= outcome.position <= |uiNames| &&
              !Rebuildable(uiNames[outcome.position - 1], original[outcome.position - 1]) &&
              forall k :: 0 <= k < outcome.position - 1 ==> Rebuildable(uiNames[k], original[k])
    ensures outcome.Invalid? ==>
              AllRebuildable(uiNames, original) &&
              !WellFormedStudy(FormOf(n, subjects, attempts, RebuiltAll(uiNames, original)))
    ensures outcome.SubjectsBelowCurrent? || outcome.AttemptsBelowCurrent? ==>
              AllRebuildable(uiNames, original) &&
              WellFormedStudy(FormOf(n, subjects, attempts, RebuiltAll(uiNames, original)))
    ensures outcome.AttemptsBelowCurrent? ==> DigitsOrZero(subjects) >= |AttemptsOf(fileNames, original).Keys|
    ensures (AllRebuildable(uiNames, original) &&
             WellFormedStudy(FormOf(n, subjects, attempts, RebuiltAll(uiNames, original))) &&
             CountsCoverFiles(subjects, attempts, fileNames, original)) ==> outcome.Saved?
    ensures outcome.SubjectsBelowCurrent? ==>
              outcome.requested == DigitsOrZero(subjects) &&
              outcome.current == |AttemptsOf(fileNames, original).Keys| &&
              outcome.requested < outcome.current
    ensures outcome.AttemptsBelowCurrent? ==>
              outcome.requested == DigitsOrZero(attempts) &&
              IsMaxAttempts(AttemptsOf(fileNames, original), outcome.current) &&
              outcome.requested < outcome.current
    ensures outcome.Saved? ==>
              |uiNames| == |original| &&
              outcome.data == StudyData(n, subjects, attempts, RebuiltAll(uiNames, original), aliases)
    ensures outcome.Saved? ==>
              |uiNames| == |original| &&
              |outcome.data.variables| == |original| &&
              (forall k :: 0 <= k < |original| ==> outcome.data.variables[k] == Rebuilt(uiNames[k], original[k])) &&
              WellFormedStudy(FormOf(n, subjects, attempts, outcome.data.variables)) &&
              outcome.data.aliases == aliases &&
              DigitsOrZero(subjects) >= |AttemptsOf(fileNames, original).Keys| &&
              (forall s :: s in AttemptsOf(fileNames, original) ==>
                 |AttemptsOf(fileNames, original)[s]| <= DigitsOrZero(attempts))
  {
    if |uiNames| != |original| {
      return VariableCountChanged;
    }
    var vars, failedAt := RebuildEdit(uiNames, original);
    if failedAt > 0 {
      return VariableUnusable(failedAt);
    }
    assert vars == RebuiltAll(uiNames, original);
    var err := ValidateStudyIvData(FormOf(n, subjects, attempts, vars));
    if err.Some? {
      return Invalid(err.value);
    }
    var newSubjects := DigitsOrZero(subjects);
    var newAttempts := DigitsOrZero(attempts);
    var fileAttempts, actualSubjects, maxAttemptsFound := StudyFileDetails(fileNames, original);
    if newSubjects < actualSubjects {
      return SubjectsBelowCurrent(newSubjects, actualSubjects);
    }
    if newAttempts < maxAttemptsFound {
      return AttemptsBelowCurrent(newAttempts, maxAttemptsFound);
    }
    return Saved(StudyData(n, subjects, attempts, vars, aliases));
  }
}
