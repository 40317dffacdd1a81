/**
  The file service of a study: listing its files with search, type and
  frequency filters and pages, the subject/attempt bookkeeping taken from the
  names of the processed files, and the checks a batch of new files must
  pass before any of them is processed. The directory scans are inputs: the
  listing takes the scanned records, the checks take the scanned file names.
 */
module FileService {
  import opened Wrappers
  import opened Text
  import opened Validators

  // ===========================================================================
  // Listing: filter and paginate
  // ===========================================================================

  /** One scanned file of the study listing. */
  datatype ScannedFile = ScannedFile(patient: string, name: string, kind: string, frequency: string)

  /** A choice filter is off when it is missing, empty or "Todos". */
  predicate FilterActive(choice: Option<string>)
  {
    choice.Some? && choice.value != [] && choice.value != "Todos"
  }

  /** Whether a file passes the search text (case-insensitive, on name or patient)
      and the type and frequency filters. An empty search text is no filter. */
  predicate Keep(f: ScannedFile, search: string, kind: Option<string>, frequency: Option<string>)
  {
    (search == [] || Contains(Lower(f.name), Lower(search)) || Contains(Lower(f.patient), Lower(search))) &&
    (!FilterActive(kind) || f.kind == kind.value) &&
    (!FilterActive(frequency) || f.frequency == frequency.value)
  }

  /** The files that pass the filters, in scan order. */
  function FilterFiles(files: seq<ScannedFile>, search: string, kind: Option<string>, frequency: Option<string>)
    : (r: seq<ScannedFile>)
    ensures |r| <= |files|
    ensures forall f :: f in r <==> f in files && Keep(f, search, kind, frequency)
    decreases |files|
  {
    if files == [] then []
    else
      (if Keep(files[0], search, kind, frequency) then [files[0]] else []) +
      FilterFiles(files[1..], search, kind, frequency)
  }

  /** With every filter off, nothing is filtered out. */
  lemma {:induction false} FilterFilesOff(files: seq<ScannedFile>)
    ensures FilterFiles(files, "", None, None) == files
    decreases |files|
  {
    if files != [] {
      FilterFilesOff(files[1..]);
      assert files == [files[0]] + files[1..];
    }
  }

  /** A Python slice bound: negative counts from the end, then clamp to the list. */
  function SliceBound(i: int, len: nat): (r: nat)
    ensures r <= len
    ensures 0 <= i <= len ==> r == i
  {
    if i < 0 then (if len + i < 0 then 0 else len + i)
    else if i > len then len
    else i
  }

  /** Python's `xs[start:end]`. */
  function PySlice<T>(xs: seq<T>, start: int, end: int): (r: seq<T>)
    ensures |r| <= |xs|
  {
    var s := SliceBound(start, |xs|);
    var e := SliceBound(end, |xs|);
    if s < e then xs[s..e] else []
  }

  /** Where a page starts: a page below 1 counts as the first. */
  function PageStart(page: int, perPage: int): (s: int)
    ensures perPage >= 0 ==> s >= 0
    ensures page <= 1 ==> s == 0
  {
    var p := if page < 1 then 1 else page;
    (p - 1) * perPage
  }

  /** The page of a filtered list. */
  function PageOf<T>(xs: seq<T>, page: int, perPage: int): seq<T>
  {
    var s := PageStart(page, perPage);
    PySlice(xs, s, s + perPage)
  }

  /** For a positive page size the page is the window `[(p-1)*n, p*n)` of the
      list, cut at its end, and never longer than a page. */
  lemma PageOfWindow<T>(xs: seq<T>, page: int, perPage: int)
    requires perPage > 0
    ensures var s := PageStart(page, perPage);
      var r := PageOf(xs, page, perPage);
      |r| <= perPage &&
      (s >= |xs| ==> r == []) &&
      (s < |xs| ==> r == xs[s..if s + perPage <= |xs| then s + perPage else |xs|])
  {
  }

  /** The listing: the requested page of the filtered files and the number of
      filtered files. */
  function GetStudyFiles(files: seq<ScannedFile>, search: string, kind: Option<string>, frequency: Option<string>,
                         page: int, perPage: int): (r: (seq<ScannedFile>, nat))
    ensures r.1 == |FilterFiles(files, search, kind, frequency)|
    ensures forall f :: f in r.0 ==> f in files && Keep(f, search, kind, frequency)
  {
    var filtered := FilterFiles(files, search, kind, frequency);
    var onPage := PageOf(filtered, page, perPage);
    assert forall f :: f in onPage ==> f in filtered;
    (onPage, |filtered|)
  }

  // ===========================================================================
  // Subjects and attempts of the processed files
  // ===========================================================================

  /** A file name that passed the study's name grammar, with what it says. */
  datatype Parsed = Parsed(fileName: string, id: FileIdentity)

  /** The names that follow the study's grammar, read, in order. */
  function ValidParsed(names: seq<string>, vars: seq<Variable>): (r: seq<Parsed>)
    ensures |r| <= |names|
    decreases |names|
  {
    if names == [] then []
    else
      var id := FileNameIdentity(names[0], vars);
      (if id.Some? then [Parsed(names[0], id.value)] else []) + ValidParsed(names[1..], vars)
  }

  /** Every read name is one of the names and says what the grammar reads in it. */
  lemma {:induction false} ValidParsedSound(names: seq<string>, vars: seq<Variable>, p: Parsed)
    requires p in ValidParsed(names, vars)
    ensures p.fileName in names && FileNameIdentity(p.fileName, vars) == Some(p.id)
    decreases |names|
  {
    var id := FileNameIdentity(names[0], vars);
    if !(id.Some? && p == Parsed(names[0], id.value)) {
      ValidParsedSound(names[1..], vars, p);
    }
  }

  /** Every name that follows the grammar is in the list of read names. */
  lemma {:induction false} ValidParsedComplete(names: seq<string>, vars: seq<Variable>, n: string)
    requires n in names && FileNameIdentity(n, vars).Some?
    ensures Parsed(n, FileNameIdentity(n, vars).value) in ValidParsed(names, vars)
    decreases |names|
  {
    if names[0] != n {
      assert n in names[1..];
      ValidParsedComplete(names[1..], vars, n);
    }
  }

  /** One step of reading a list of names from position `i`. */
  lemma ValidParsedStep(names: seq<string>, i: nat, vars: seq<Variable>)
    requires i < |names|
    ensures ValidParsed(names[i..], vars) ==
              (if FileNameIdentity(names[i], vars).Some?
               then [Parsed(names[i], FileNameIdentity(names[i], vars).value)] else []) +
              ValidParsed(names[i + 1..], vars)
  {
    assert names[i..][0] == names[i];
    assert names[i..][1..] == names[i + 1..];
  }

  /** The set of attempt numbers of each subject. */
  type AttemptsBySubject = map<string, set<nat>>

  function AddAttempt(m: AttemptsBySubject, id: FileIdentity): AttemptsBySubject
  {
    m[id.subject := (if id.subject in m then m[id.subject] else {}) + {id.attempt}]
  }

  /** The attempts of `m` with those of the read names added. */
  function AttemptsAfter(m: AttemptsBySubject, ps: seq<Parsed>): AttemptsBySubject
    decreases |ps|
  {
    if ps == [] then m else AttemptsAfter(AddAttempt(m, ps[0].id), ps[1..])
  }

  lemma AttemptsAfterCons(m: AttemptsBySubject, p: Parsed, ps: seq<Parsed>)
    ensures AttemptsAfter(m, [p] + ps) == AttemptsAfter(AddAttempt(m, p.id), ps)
  {
    assert ([p] + ps)[1..] == ps;
  }

  /** A subject has attempts after the additions exactly when it had some or a
      read name is about it, and its attempts are its old ones together with
      those of its read names: distinct attempt numbers, existing and new. */
  lemma {:induction false} AttemptsAfterMeaning(m: AttemptsBySubject, ps: seq<Parsed>, s: string, a: nat)
    ensures s in AttemptsAfter(m, ps) <==> s in m || exists p :: p in ps && p.id.subject == s
    ensures s in AttemptsAfter(m, ps) ==>
              (a in AttemptsAfter(m, ps)[s] <==>
                 (s in m && a in m[s]) || exists p :: p in ps && p.id.subject == s && p.id.attempt == a)
    decreases |ps|
  {
    if ps != [] {
      AttemptsAfterMeaning(AddAttempt(m, ps[0].id), ps[1..], s, a);
      forall p | p in ps ensures p == ps[0] || p in ps[1..] {
        var k :| 0 <= k < |ps| && ps[k] == p;
        if k > 0 {
          assert ps[1..][k - 1] == p;
        }
      }
    }
  }

  /** The attempts of the study's processed files. */
  function AttemptsOf(names: seq<string>, vars: seq<Variable>): AttemptsBySubject
  {
    AttemptsAfter(map[], ValidParsed(names, vars))
  }

  /** Reads the processed file names of a study: each subject's set of
      attempt numbers, the number of subjects and the largest number of
      attempts of one subject (0 when there is none). */
  method StudyFileDetails(names: seq<string>, vars: seq<Variable>)
    returns (attempts: AttemptsBySubject, numSubjects: nat, maxAttempts: nat)
    ensures attempts == AttemptsOf(names, vars)
    ensures numSubjects == |attempts.Keys|
    ensures forall s :: s in attempts ==> |attempts[s]| <= maxAttempts
    ensures attempts == map[] ==> maxAttempts == 0
    ensures attempts != map[] ==> exists s :: s in attempts && |attempts[s]| == maxAttempts
  {
    attempts := ReadAttempts(names, vars);
    numSubjects := |attempts.Keys|;
    maxAttempts := MostAttempts(attempts);
  }

  /** The loop over the names: each name that parses adds its attempt to its subject. */
  method ReadAttempts(names: seq<string>, vars: seq<Variable>) returns (attempts: AttemptsBySubject)
    ensures attempts == AttemptsOf(names, vars)
  {
    attempts := map[];
    var i := 0;
    while i < |names|
      invariant 0 <= i <= |names|
      invariant AttemptsAfter(attempts, ValidParsed(names[i..], vars)) == AttemptsOf(names, vars)
    {
      ValidParsedStep(names, i, vars);
      var id := ParseFileName(names[i], vars);
      ghost var rest := ValidParsed(names[i + 1..], vars);
      if id.Some? {
        assert ValidParsed(names[i..], vars) == [Parsed(names[i], id.value)] + rest;
        AttemptsAfterCons(attempts, Parsed(names[i], id.value), rest);
        attempts := AddAttempt(attempts, id.value);
      } else {
        assert ValidParsed(names[i..], vars) == rest;
      }
      i := i + 1;
    }
    assert names[i..] == [];
  }

  /** The largest number of attempts of one subject, 0 when there is no subject. */
  method MostAttempts(attempts: AttemptsBySubject) returns (maxAttempts: nat)
    ensures forall s :: s in attempts ==> |attempts[s]| <= maxAttempts
    ensures attempts == map[] ==> maxAttempts == 0
    ensures attempts != map[] ==> exists s :: s in attempts && |attempts[s]| == maxAttempts
  {
    maxAttempts := 0;
    var todo := attempts.Keys;
    while todo != {}
      invariant todo <= attempts.Keys
      invariant forall s :: s in attempts.Keys - todo ==> |attempts[s]| <= maxAttempts
      invariant maxAttempts == 0 || exists s :: s in attempts.Keys - todo && |attempts[s]| == maxAttempts
      decreases todo
    {
      var s :| s in todo;
      if |attempts[s]| > maxAttempts {
        maxAttempts := |attempts[s]|;
      }
      todo := todo - {s};
    }
    if attempts != map[] && maxAttempts == 0 {
      var s :| s in attempts;
      assert |attempts[s]| == 0;
    }
  }

  // ===========================================================================
  // Descriptor slots of the processed files
  // ===========================================================================

  function NewFiles(ps: seq<Parsed>): (r: seq<NewFile>)
    ensures |r| == |ps|
    ensures forall k :: 0 <= k < |ps| ==> r[k] == NewFile(ps[k].id.subject, ps[k].id.descriptors)
    decreases |ps|
  {
    if ps == [] then [] else [NewFile(ps[0].id.subject, ps[0].id.descriptors)] + NewFiles(ps[1..])
  }

  lemma MergeNewFilesCons(m: FilesBySubject, p: Parsed, ps: seq<Parsed>)
    ensures MergeBatch(m, NewFiles([p] + ps)) ==
            MergeBatch(AddFile(m, NewFile(p.id.subject, p.id.descriptors)), NewFiles(ps))
  {
    assert ([p] + ps)[1..] == ps;
    assert NewFiles([p] + ps)[1..] == NewFiles(ps);
  }

  /** Each subject's descriptor slots, one list per processed file that
      follows the grammar, in scan order. */
  function DescriptorsOf(names: seq<string>, vars: seq<Variable>): FilesBySubject
  {
    MergeBatch(map[], NewFiles(ValidParsed(names, vars)))
  }

  /** The slots still to merge into `files` once the first `i` names are read. */
  ghost function Pending(files: FilesBySubject, names: seq<string>, i: nat, vars: seq<Variable>): FilesBySubject
    requires i <= |names|
  {
    MergeBatch(files, NewFiles(ValidParsed(names[i..], vars)))
  }

  /** Reading one more name adds its slots when it follows the grammar. */
  lemma DescriptorsStep(files: FilesBySubject, names: seq<string>, i: nat, vars: seq<Variable>)
    requires i < |names|
    ensures var id := FileNameIdentity(names[i], vars);
      Pending(files, names, i, vars) ==
      Pending(if id.Some? then AddFile(files, NewFile(id.value.subject, id.value.descriptors)) else files,
              names, i + 1, vars)
  {
    ValidParsedStep(names, i, vars);
    var id := FileNameIdentity(names[i], vars);
    var rest := ValidParsed(names[i + 1..], vars);
    if id.Some? {
      var p := Parsed(names[i], id.value);
      assert ValidParsed(names[i..], vars) == [p] + rest;
      MergeNewFilesCons(files, p, rest);
    } else {
      assert ValidParsed(names[i..], vars) == rest;
    }
  }

  /** Nothing is pending before the first name but the whole study, and nothing after the last. */
  lemma PendingEnds(files: FilesBySubject, names: seq<string>, vars: seq<Variable>)
    ensures Pending(map[], names, 0, vars) == DescriptorsOf(names, vars)
    ensures Pending(files, names, |names|, vars) == files
  {
    assert names[0..] == names;
    assert names[|names|..] == [];
  }

  /** Reads the descriptor slots of a study's processed files by subject. */
  method StudyFilesDescriptors(names: seq<string>, vars: seq<Variable>) returns (files: FilesBySubject)
    ensures files == DescriptorsOf(names, vars)
  {
    files := map[];
    PendingEnds(files, names, vars);
    var i := 0;
    while i < |names|
      invariant 0 <= i <= |names|
      invariant Pending(files, names, i, vars) == DescriptorsOf(names, vars)
    {
      var id := ParseFileName(names[i], vars);
      DescriptorsStep(files, names, i, vars);
      if id.Some? {
        files := AddFile(files, NewFile(id.value.subject, id.value.descriptors));
      }
      i := i + 1;
    }
    PendingEnds(files, names, vars);
  }

  // ===========================================================================
  // Adding a batch of files
  // ===========================================================================

  /** Why a batch was refused. */
  datatype AddError =
    | InvalidName(fileName: string)
    | TooManySubjects(maxSubjects: int, total: nat)
    | TooManyAttempts(maxAttempts: int, subject: string, count: nat)
    | ViRulesViolated

  /** One error per name that does not follow the grammar, in batch order. */
  function NameErrors(names: seq<string>, vars: seq<Variable>): (r: seq<AddError>)
    ensures |r| <= |names|
    decreases |names|
  {
    if names == [] then []
    else
      (if FileNameIdentity(names[0], vars).None? then [InvalidName(names[0])] else []) +
      NameErrors(names[1..], vars)
  }

  /** The name errors are exactly one `InvalidName` per name the grammar refuses. */
  lemma {:induction false} NameErrorsMeaning(names: seq<string>, vars: seq<Variable>, e: AddError)
    ensures e in NameErrors(names, vars) <==>
              e.InvalidName? && e.fileName in names && FileNameIdentity(e.fileName, vars).None?
    decreases |names|
  {
    if names != [] {
      NameErrorsMeaning(names[1..], vars, e);
      if e.InvalidName? && e.fileName in names && e.fileName != names[0] {
        assert e.fileName in names[1..];
      }
    }
  }

  lemma NameErrorsAreNames(names: seq<string>, vars: seq<Variable>)
    ensures forall e :: e in NameErrors(names, vars) ==> e.InvalidName?
  {
    forall e | e in NameErrors(names, vars) ensures e.InvalidName? {
      NameErrorsMeaning(names, vars, e);
    }
  }

  lemma NameErrorsStep(names: seq<string>, i: nat, vars: seq<Variable>)
    requires i < |names|
    ensures NameErrors(names[i..], vars) ==
              (if FileNameIdentity(names[i], vars).None? then [InvalidName(names[i])] else []) +
              NameErrors(names[i + 1..], vars)
  {
    assert names[i..][0] == names[i];
    assert names[i..][1..] == names[i + 1..];
  }

  /** Some VI rule is broken by some subject once the batch is added. */
  ghost predicate ViRulesBroken(existing: FilesBySubject, batch: seq<NewFile>, vars: seq<Variable>)
  {
    exists i, s :: 0 <= i < |vars| && s in MergeBatch(existing, batch) &&
      RuleCheck(i, vars[i], s, MergeBatch(existing, batch)[s]).Some?
  }

  /** Collects, for each subject over the attempt limit, one error. */
  method AttemptLimitErrors(sim: AttemptsBySubject, maxAttempts: int) returns (errs: seq<AddError>)
    ensures forall e :: e in errs ==> e.TooManyAttempts?
    ensures forall s, c: nat :: TooManyAttempts(maxAttempts, s, c) in errs <==>
              s in sim && c == |sim[s]| && c > maxAttempts
    ensures forall e :: e in errs ==> e.maxAttempts == maxAttempts
    ensures forall a, b :: 0 <= a < b < |errs| ==> errs[a].subject != errs[b].subject
  {
    errs := [];
    var todo := sim.Keys;
    while todo != {}
      invariant todo <= sim.Keys
      invariant forall e :: e in errs ==>
                  e.TooManyAttempts? && e.maxAttempts == maxAttempts && e.subject in sim.Keys - todo &&
                  e.count == |sim[e.subject]| && e.count > maxAttempts
      invariant forall s :: s in sim.Keys - todo && |sim[s]| > maxAttempts ==>
                  TooManyAttempts(maxAttempts, s, |sim[s]|) in errs
      invariant forall a, b :: 0 <= a < b < |errs| ==> errs[a].subject != errs[b].subject
      decreases todo
    {
      var s :| s in todo;
      if |sim[s]| > maxAttempts {
        forall a | 0 <= a < |errs| ensures errs[a].subject != s {
          assert errs[a] in errs;
        }
        errs := errs + [TooManyAttempts(maxAttempts, s, |sim[s]|)];
      }
      todo := todo - {s};
    }
  }

  /** The attempts of each subject with the batch added to the processed files. */
  function Simulated(existingNames: seq<string>, batch: seq<string>, vars: seq<Variable>): AttemptsBySubject
  {
    AttemptsAfter(AttemptsOf(existingNames, vars), ValidParsed(batch, vars))
  }

  /** No name is refused and neither limit is exceeded. */
  predicate CountsOk(existingNames: seq<string>, batch: seq<string>, vars: seq<Variable>,
                     maxSubjects: int, maxAttempts: int)
  {
    var sim := Simulated(existingNames, batch, vars);
    NameErrors(batch, vars) == [] && |sim.Keys| <= maxSubjects &&
    forall s :: s in sim ==> |sim[s]| <= maxAttempts
  }

  lemma AppendAssoc<T>(a: seq<T>, x: T, b: seq<T>)
    ensures (a + [x]) + b == a + ([x] + b)
  {
  }

  /** Reads the names of a batch: the ones that follow the grammar, one error
      per other name, and the attempts of each subject with the batch added. */
  method ReadBatch(batch: seq<string>, vars: seq<Variable>, existing: AttemptsBySubject)
    returns (parsed: seq<Parsed>, nameErrs: seq<AddError>, sim: AttemptsBySubject)
    ensures parsed == ValidParsed(batch, vars)
    ensures nameErrs == NameErrors(batch, vars)
    ensures sim == AttemptsAfter(existing, ValidParsed(batch, vars))
  {
    sim := existing;
    parsed := [];
    nameErrs := [];
    LeftStart(batch, vars, existing);
    var i := 0;
    while i < |batch|
      invariant 0 <= i <= |batch|
      invariant ParsedLeft(parsed, batch, i, vars) == ValidParsed(batch, vars)
      invariant ErrorsLeft(nameErrs, batch, i, vars) == NameErrors(batch, vars)
      invariant AttemptsLeft(sim, batch, i, vars) == AttemptsAfter(existing, ValidParsed(batch, vars))
    {
      ParsedLeftStep(parsed, batch, i, vars);
      ErrorsLeftStep(nameErrs, batch, i, vars);
      AttemptsLeftStep(sim, batch, i, vars);
      var id := ParseFileName(batch[i], vars);
      if id.None? {
        nameErrs := nameErrs + [InvalidName(batch[i])];
      } else {
        sim := AddAttempt(sim, id.value);
        parsed := parsed + [Parsed(batch[i], id.value)];
      }
      i := i + 1;
    }
    LeftEnd(parsed, nameErrs, sim, batch, vars);
  }

  /** The files read so far followed by those of the names not yet read. */
  ghost function ParsedLeft(parsed: seq<Parsed>, batch: seq<string>, i: nat, vars: seq<Variable>): seq<Parsed>
    requires i <= |batch|
  {
    parsed + ValidParsed(batch[i..], vars)
  }

  /** The name errors so far followed by those of the names not yet read. */
  ghost function ErrorsLeft(nameErrs: seq<AddError>, batch: seq<string>, i: nat, vars: seq<Variable>): seq<AddError>
    requires i <= |batch|
  {
    nameErrs + NameErrors(batch[i..], vars)
  }

  /** The attempts so far with those of the names not yet read added. */
  ghost function AttemptsLeft(sim: AttemptsBySubject, batch: seq<string>, i: nat, vars: seq<Variable>): AttemptsBySubject
    requires i <= |batch|
  {
    AttemptsAfter(sim, ValidParsed(batch[i..], vars))
  }

  lemma LeftStart(batch: seq<string>, vars: seq<Variable>, existing: AttemptsBySubject)
    ensures ParsedLeft([], batch, 0, vars) == ValidParsed(batch, vars)
    ensures ErrorsLeft([], batch, 0, vars) == NameErrors(batch, vars)
    ensures AttemptsLeft(existing, batch, 0, vars) == AttemptsAfter(existing, ValidParsed(batch, vars))
  {
    assert batch[0..] == batch;
  }

  lemma LeftEnd(parsed: seq<Parsed>, nameErrs: seq<AddError>, sim: AttemptsBySubject, batch: seq<string>,
                vars: seq<Variable>)
    ensures ParsedLeft(parsed, batch, |batch|, vars) == parsed
    ensures ErrorsLeft(nameErrs, batch, |batch|, vars) == nameErrs
    ensures AttemptsLeft(sim, batch, |batch|, vars) == sim
  {
    assert batch[|batch|..] == [];
  }

  lemma ParsedLeftStep(parsed: seq<Parsed>, batch: seq<string>, i: nat, vars: seq<Variable>)
    requires i < |batch|
    ensures var id := FileNameIdentity(batch[i], vars);
      ParsedLeft(parsed, batch, i, vars) ==
        ParsedLeft(if id.Some? then parsed + [Parsed(batch[i], id.value)] else parsed, batch, i + 1, vars)
  {
    ValidParsedStep(batch, i, vars);
    var id := FileNameIdentity(batch[i], vars);
    var rest := ValidParsed(batch[i + 1..], vars);
    if id.Some? {
      AppendAssoc(parsed, Parsed(batch[i], id.value), rest);
    } else {
      assert ValidParsed(batch[i..], vars) == rest;
    }
  }

  lemma ErrorsLeftStep(nameErrs: seq<AddError>, batch: seq<string>, i: nat, vars: seq<Variable>)
    requires i < |batch|
    ensures ErrorsLeft(nameErrs, batch, i, vars) ==
              ErrorsLeft(if FileNameIdentity(batch[i], vars).None? then nameErrs + [InvalidName(batch[i])] else nameErrs,
                         batch, i + 1, vars)
  {
    NameErrorsStep(batch, i, vars);
    var rest := NameErrors(batch[i + 1..], vars);
    if FileNameIdentity(batch[i], vars).None? {
      AppendAssoc(nameErrs, InvalidName(batch[i]), rest);
    } else {
      assert NameErrors(batch[i..], vars) == rest;
    }
  }

  lemma AttemptsLeftStep(sim: AttemptsBySubject, batch: seq<string>, i: nat, vars: seq<Variable>)
    requires i < |batch|
    ensures var id := FileNameIdentity(batch[i], vars);
      AttemptsLeft(sim, batch, i, vars) ==
        AttemptsLeft(if id.Some? then AddAttempt(sim, id.value) else sim, batch, i + 1, vars)
  {
    ValidParsedStep(batch, i, vars);
    var id := FileNameIdentity(batch[i], vars);
    var rest := ValidParsed(batch[i + 1..], vars);
    if id.Some? {
      assert ValidParsed(batch[i..], vars) == [Parsed(batch[i], id.value)] + rest;
      AttemptsAfterCons(sim, Parsed(batch[i], id.value), rest);
    } else {
      assert ValidParsed(batch[i..], vars) == rest;
    }
  }

  /** The limit checks after the names are read: the name errors, then one
      error if there are too many subjects, then one per subject with too many
      attempts. */
  method CountErrors(nameErrs: seq<AddError>, sim: AttemptsBySubject, maxSubjects: int, maxAttempts: int)
    returns (errors: seq<AddError>)
    requires forall e :: e in nameErrs ==> e.InvalidName?
    ensures |nameErrs| <= |errors| && errors[..|nameErrs|] == nameErrs
    ensures forall e :: e in errors[|nameErrs|..] ==> e.TooManySubjects? || e.TooManyAttempts?
    ensures forall e :: e in errors ==> e.InvalidName? || e.TooManySubjects? || e.TooManyAttempts?
    ensures forall m: int, t: nat :: TooManySubjects(m, t) in errors <==>
              m == maxSubjects && t == |sim.Keys| && t > maxSubjects
    ensures forall m: int, s: string, c: nat :: TooManyAttempts(m, s, c) in errors <==>
              m == maxAttempts && s in sim && c == |sim[s]| && c > maxAttempts
    ensures errors == [] <==>
              nameErrs == [] && |sim.Keys| <= maxSubjects && forall s :: s in sim ==> |sim[s]| <= maxAttempts
  {
    var subjectErrs := SubjectLimitErrors(sim, maxSubjects);
    var attemptErrs := AttemptLimitErrors(sim, maxAttempts);
    errors := nameErrs + subjectErrs + attemptErrs;
    ReportOrder(nameErrs, subjectErrs, attemptErrs);
    ReportSubjects(nameErrs, subjectErrs, attemptErrs, sim, maxSubjects);
    ReportAttempts(nameErrs, subjectErrs, attemptErrs, sim, maxAttempts);
    ReportEmpty(nameErrs, subjectErrs, attemptErrs, sim, maxSubjects, maxAttempts);
  }

  /** The error for too many subjects, when there are. */
  function SubjectLimitErrors(sim: AttemptsBySubject, maxSubjects: int): (errs: seq<AddError>)
    ensures forall m: int, t: nat :: TooManySubjects(m, t) in errs <==>
              m == maxSubjects && t == |sim.Keys| && t > maxSubjects
    ensures forall e :: e in errs ==> e.TooManySubjects?
  {
    if |sim.Keys| > maxSubjects then [TooManySubjects(maxSubjects, |sim.Keys|)] else []
  }

  /** The name errors come first, then only limit errors. */
  lemma ReportOrder(nameErrs: seq<AddError>, subjectErrs: seq<AddError>, attemptErrs: seq<AddError>)
    requires forall e :: e in nameErrs ==> e.InvalidName?
    requires forall e :: e in subjectErrs ==> e.TooManySubjects?
    requires forall e :: e in attemptErrs ==> e.TooManyAttempts?
    ensures var errors := nameErrs + subjectErrs + attemptErrs;
      |nameErrs| <= |errors| && errors[..|nameErrs|] == nameErrs &&
      (forall e :: e in errors[|nameErrs|..] ==> e.TooManySubjects? || e.TooManyAttempts?) &&
      (forall e :: e in errors ==> e.InvalidName? || e.TooManySubjects? || e.TooManyAttempts?)
  {
    var errors := nameErrs + subjectErrs + attemptErrs;
    assert errors[..|nameErrs|] == nameErrs;
    assert errors[|nameErrs|..] == subjectErrs + attemptErrs;
  }

  /** The subject-limit errors of the report are those of the subject check. */
  lemma ReportSubjects(nameErrs: seq<AddError>, subjectErrs: seq<AddError>, attemptErrs: seq<AddError>,
                       sim: AttemptsBySubject, maxSubjects: int)
    requires forall e :: e in nameErrs ==> e.InvalidName?
    requires forall m: int, t: nat :: TooManySubjects(m, t) in subjectErrs <==>
               m == maxSubjects && t == |sim.Keys| && t > maxSubjects
    requires forall e :: e in attemptErrs ==> e.TooManyAttempts?
    ensures forall m: int, t: nat :: TooManySubjects(m, t) in nameErrs + subjectErrs + attemptErrs <==>
              m == maxSubjects && t == |sim.Keys| && t > maxSubjects
  {
    forall m: int, t: nat
      ensures TooManySubjects(m, t) in nameErrs + subjectErrs + attemptErrs <==> TooManySubjects(m, t) in subjectErrs
    {
      InParts(nameErrs, subjectErrs, attemptErrs, TooManySubjects(m, t));
    }
  }

  /** The attempt-limit errors of the report are those of the attempt check. */
  lemma ReportAttempts(nameErrs: seq<AddError>, subjectErrs: seq<AddError>, attemptErrs: seq<AddError>,
                       sim: AttemptsBySubject, maxAttempts: int)
    requires forall e :: e in nameErrs ==> e.InvalidName?
    requires forall e :: e in subjectErrs ==> e.TooManySubjects?
    requires forall s, c: nat :: TooManyAttempts(maxAttempts, s, c) in attemptErrs <==>
               s in sim && c == |sim[s]| && c > maxAttempts
    requires forall e :: e in attemptErrs ==> e.TooManyAttempts? && e.maxAttempts == maxAttempts
    ensures forall m: int, s: string, c: nat :: TooManyAttempts(m, s, c) in nameErrs + subjectErrs + attemptErrs <==>
              m == maxAttempts && s in sim && c == |sim[s]| && c > maxAttempts
  {
    forall m: int, s: string, c: nat
      ensures TooManyAttempts(m, s, c) in nameErrs + subjectErrs + attemptErrs <==> TooManyAttempts(m, s, c) in attemptErrs
    {
      InParts(nameErrs, subjectErrs, attemptErrs, TooManyAttempts(m, s, c));
    }
  }

  /** The report is empty exactly when no name is invalid and both limits hold. */
  lemma ReportEmpty(nameErrs: seq<AddError>, subjectErrs: seq<AddError>, attemptErrs: seq<AddError>,
                    sim: AttemptsBySubject, maxSubjects: int, maxAttempts: int)
    requires subjectErrs == SubjectLimitErrors(sim, maxSubjects)
    requires forall s, c: nat :: TooManyAttempts(maxAttempts, s, c) in attemptErrs <==>
               s in sim && c == |sim[s]| && c > maxAttempts
    requires forall e :: e in attemptErrs ==> e.TooManyAttempts? && e.maxAttempts == maxAttempts
    ensures nameErrs + subjectErrs + attemptErrs == [] <==>
              nameErrs == [] && |sim.Keys| <= maxSubjects && forall s :: s in sim ==> |sim[s]| <= maxAttempts
  {
    if exists s :: s in sim && |sim[s]| > maxAttempts {
      var s :| s in sim && |sim[s]| > maxAttempts;
      assert TooManyAttempts(maxAttempts, s, |sim[s]|) in attemptErrs;
    }
    if attemptErrs != [] {
      var e := attemptErrs[0];
      assert e in attemptErrs && e == TooManyAttempts(maxAttempts, e.subject, e.count);
    }
  }

  lemma InParts(nameErrs: seq<AddError>, subjectErrs: seq<AddError>, attemptErrs: seq<AddError>, e: AddError)
    ensures e in nameErrs + subjectErrs + attemptErrs <==> e in nameErrs || e in subjectErrs || e in attemptErrs
  {
  }

  /** Reads the batch and checks the subject and attempt limits. */
  method CountStage(batch: seq<string>, existingNames: seq<string>, vars: seq<Variable>,
                    maxSubjects: int, maxAttempts: int)
    returns (errors: seq<AddError>, parsed: seq<Parsed>)
    ensures parsed == ValidParsed(batch, vars)
    ensures |NameErrors(batch, vars)| <= |errors| && errors[..|NameErrors(batch, vars)|] == NameErrors(batch, vars)
    ensures forall e :: e in errors[|NameErrors(batch, vars)|..] ==> e.TooManySubjects? || e.TooManyAttempts?
    ensures forall e :: e in errors ==> e.InvalidName? || e.TooManySubjects? || e.TooManyAttempts?
    ensures forall m: int, t: nat :: TooManySubjects(m, t) in errors <==>
              m == maxSubjects && t == |Simulated(existingNames, batch, vars).Keys| && t > maxSubjects
    ensures forall m: int, s: string, c: nat :: TooManyAttempts(m, s, c) in errors <==>
              m == maxAttempts && s in Simulated(existingNames, batch, vars) &&
              c == |Simulated(existingNames, batch, vars)[s]| && c > maxAttempts
    ensures errors == [] <==> CountsOk(existingNames, batch, vars, maxSubjects, maxAttempts)
  {
    var existing := ReadAttempts(existingNames, vars);
    var nameErrs, sim;
    parsed, nameErrs, sim := ReadBatch(batch, vars, existing);
    NameErrorsAreNames(batch, vars);
    errors := CountErrors(nameErrs, sim, maxSubjects, maxAttempts);
    StageReport(errors, nameErrs, sim, batch, existingNames, vars, maxSubjects, maxAttempts);
  }

  /** The report of `CountErrors` on the batch's name errors and simulated attempts, stated on the batch. */
  lemma StageReport(errors: seq<AddError>, nameErrs: seq<AddError>, sim: AttemptsBySubject,
                    batch: seq<string>, existingNames: seq<string>, vars: seq<Variable>,
                    maxSubjects: int, maxAttempts: int)
    requires nameErrs == NameErrors(batch, vars) && sim == Simulated(existingNames, batch, vars)
    requires |nameErrs| <= |errors| && errors[..|nameErrs|] == nameErrs
    requires forall e :: e in errors[|nameErrs|..] ==> e.TooManySubjects? || e.TooManyAttempts?
    requires forall e :: e in errors ==> e.InvalidName? || e.TooManySubjects? || e.TooManyAttempts?
    requires forall m: int, t: nat :: TooManySubjects(m, t) in errors <==>
               m == maxSubjects && t == |sim.Keys| && t > maxSubjects
    requires forall m: int, s: string, c: nat :: TooManyAttempts(m, s, c) in errors <==>
               m == maxAttempts && s in sim && c == |sim[s]| && c > maxAttempts
    requires errors == [] <==>
               nameErrs == [] && |sim.Keys| <= maxSubjects && forall s :: s in sim ==> |sim[s]| <= maxAttempts
    ensures |NameErrors(batch, vars)| <= |errors| && errors[..|NameErrors(batch, vars)|] == NameErrors(batch, vars)
    ensures forall e :: e in errors[|NameErrors(batch, vars)|..] ==> e.TooManySubjects? || e.TooManyAttempts?
    ensures forall m: int, t: nat :: TooManySubjects(m, t) in errors <==>
              m == maxSubjects && t == |Simulated(existingNames, batch, vars).Keys| && t > maxSubjects
    ensures forall m: int, s: string, c: nat :: TooManyAttempts(m, s, c) in errors <==>
              m == maxAttempts && s in Simulated(existingNames, batch, vars) &&
              c == |Simulated(existingNames, batch, vars)[s]| && c > maxAttempts
    ensures errors == [] <==> CountsOk(existingNames, batch, vars, maxSubjects, maxAttempts)
  {
  }

  /** Runs the VI-rule validation on the read files of the batch against the
      study's processed files; only whether it found an error matters here. */
  method ViRuleStage(parsed: seq<Parsed>, existingNames: seq<string>, vars: seq<Variable>) returns (broken: bool)
    ensures broken == ViRulesBroken(DescriptorsOf(existingNames, vars), NewFiles(parsed), vars)
  {
    var descriptors := StudyFilesDescriptors(existingNames, vars);
    var ruleErrs := ValidateFilesForViRules(NewFiles(parsed), descriptors, vars);
    broken := ruleErrs != [];
    if broken {
      var e := ruleErrs[0];
      assert e in ruleErrs;
    }
  }

  /** The checks a batch of new files passes before anything is processed.
      `existingNames` are the names of the study's processed files. The
      errors start with one per refused name, in batch order; the files to
      process are all files of the batch when there is no error and none
      otherwise. */
  method AddFilesToStudy(batch: seq<string>, existingNames: seq<string>, vars: seq<Variable>,
                         maxSubjects: int, maxAttempts: int)
    returns (errors: seq<AddError>, toProcess: seq<Parsed>)
    ensures toProcess == if errors == [] then ValidParsed(batch, vars) else []
    ensures |NameErrors(batch, vars)| <= |errors| && errors[..|NameErrors(batch, vars)|] == NameErrors(batch, vars)
    ensures forall e :: e in errors[|NameErrors(batch, vars)|..] ==> !e.InvalidName?
    ensures forall m: int, t: nat :: TooManySubjects(m, t) in errors <==>
              m == maxSubjects && t == |Simulated(existingNames, batch, vars).Keys| && t > maxSubjects
    ensures forall m: int, s: string, c: nat :: TooManyAttempts(m, s, c) in errors <==>
              m == maxAttempts && s in Simulated(existingNames, batch, vars) &&
              c == |Simulated(existingNames, batch, vars)[s]| && c > maxAttempts
    ensures ViRulesViolated in errors <==>
              CountsOk(existingNames, batch, vars, maxSubjects, maxAttempts) && ValidParsed(batch, vars) != [] &&
              ViRulesBroken(DescriptorsOf(existingNames, vars), NewFiles(ValidParsed(batch, vars)), vars)
    ensures errors == [] <==>
              CountsOk(existingNames, batch, vars, maxSubjects, maxAttempts) &&
              (ValidParsed(batch, vars) == [] ||
               !ViRulesBroken(DescriptorsOf(existingNames, vars), NewFiles(ValidParsed(batch, vars)), vars))
  {
    var parsed;
    errors, parsed := CountStage(batch, existingNames, vars, maxSubjects, maxAttempts);
    if errors != [] {
      assert ViRulesViolated !in errors;
      toProcess := [];
      return;
    }
    toProcess := parsed;
    if parsed == [] {
      return;
    }
    var broken := ViRuleStage(parsed, existingNames, vars);
    if broken {
      CountsOkWithinLimits(existingNames, batch, vars, maxSubjects, maxAttempts);
      errors := [ViRulesViolated];
      toProcess := [];
    }
  }

  /** A batch that passes the counts is over neither limit and has no name error. */
  lemma CountsOkWithinLimits(existingNames: seq<string>, batch: seq<string>, vars: seq<Variable>,
                             maxSubjects: int, maxAttempts: int)
    requires CountsOk(existingNames, batch, vars, maxSubjects, maxAttempts)
    ensures NameErrors(batch, vars) == []
    ensures |Simulated(existingNames, batch, vars).Keys| <= maxSubjects
    ensures forall s :: s in Simulated(existingNames, batch, vars) ==>
              |Simulated(existingNames, batch, vars)[s]| <= maxAttempts
  {
  }
}
