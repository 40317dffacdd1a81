/**
  The study service's own rules: how the stored VI list and aliases are
  read back, the comment length limit, the pin toggle with its cap, the page
  offset, whether any study exists and when a rename moves the study folder.
  The SQLite repository is modelled by a class holding the study rows.
 */
module StudyService {
  import opened Wrappers
  import opened Text

  /** At most this many studies may be pinned by a toggle. */
  const MaxPinnedStudies: nat := 5

  /** Longest comment accepted. */
  const MaxCommentLength: nat := 150

  /** The display alias of each descriptor value. */
  type Aliases = map<string, string>

  // ===========================================================================
  // Reading back the stored VI list and aliases
  // ===========================================================================

  /** A stored VI entry: a dictionary whose flags may be missing (`None`), or
      some other JSON value. The other keys pass through unchanged. */
  datatype StoredVi =
    | ViDict(name: string, descriptors: seq<string>, allowsCombination: Option<bool>, isMandatory: Option<bool>)
    | ViOther

  /** The stored VI field: a JSON list, another JSON value, or text that is not JSON. */
  datatype StoredVis = VisList(items: seq<StoredVi>) | VisNotList | VisUnreadable

  /** The stored alias field. */
  datatype StoredAliases = AliasDict(entries: Aliases) | AliasNotDict | AliasUnreadable

  /** Both flags default to false, and a VI that does not allow combination is not mandatory. */
  function NormaliseVi(v: StoredVi): StoredVi
  {
    match v
    case ViOther => ViOther
    case ViDict(n, ds, ac, im) =>
      var allows := ac.GetOr(false);
      ViDict(n, ds, Some(allows), Some(if allows then im.GetOr(false) else false))
  }

  /** A read-back VI dictionary has both flags, and is mandatory only if it allows combination. */
  predicate Normalised(v: StoredVi)
  {
    v.ViDict? ==>
      v.allowsCombination.Some? && v.isMandatory.Some? &&
      (v.isMandatory.value ==> v.allowsCombination.value)
  }

  /** Normalisation gives a normalised entry, keeps its name and descriptors,
      changes an already normalised entry in nothing, and keeps a given
      `allows_combination` flag. */
  lemma NormaliseViProperties(v: StoredVi)
    ensures Normalised(NormaliseVi(v))
    ensures NormaliseVi(v).ViDict? <==> v.ViDict?
    ensures v.ViDict? ==> NormaliseVi(v).name == v.name && NormaliseVi(v).descriptors == v.descriptors
    ensures v.ViDict? && v.allowsCombination.Some? ==> NormaliseVi(v).allowsCombination == v.allowsCombination
    ensures Normalised(v) ==> NormaliseVi(v) == v
    ensures NormaliseVi(NormaliseVi(v)) == NormaliseVi(v)
  {
  }

  /** Fills in the flags of every stored VI dictionary, one entry at a time. */
  method NormaliseVis(items: seq<StoredVi>) returns (r: seq<StoredVi>)
    ensures |r| == |items|
    ensures forall k :: 0 <= k < |r| ==> r[k] == NormaliseVi(items[k])
    ensures forall k :: 0 <= k < |r| ==> Normalised(r[k])
  {
    r := items;
    var i := 0;
    while i < |items|
      invariant 0 <= i <= |items| && |r| == |items|
      invariant forall k :: 0 <= k < i ==> r[k] == NormaliseVi(items[k]) && Normalised(r[k])
      invariant forall k :: i <= k < |items| ==> r[k] == items[k]
    {
      NormaliseViProperties(items[i]);
      r := r[i := NormaliseVi(items[i])];
      i := i + 1;
    }
  }

  /** The VI list of the study details: normalised when it is a list, empty otherwise. */
  method ReadVariables(field: StoredVis) returns (r: seq<StoredVi>)
    ensures field.VisList? ==> |r| == |field.items| && forall k :: 0 <= k < |r| ==> r[k] == NormaliseVi(field.items[k])
    ensures !field.VisList? ==> r == []
    ensures forall k :: 0 <= k < |r| ==> Normalised(r[k])
  {
    if field.VisList? {
      r := NormaliseVis(field.items);
    } else {
      r := [];
    }
  }

  /** The aliases of the study details: the stored dictionary, or an empty one. */
  function ReadAliases(field: StoredAliases): (r: Aliases)
    ensures field.AliasDict? ==> r == field.entries
    ensures !field.AliasDict? ==> r == map[]
  {
    if field.AliasDict? then field.entries else map[]
  }

  // ===========================================================================
  // Paging and renaming
  // ===========================================================================

  /** The row offset of a page; a page below 1 counts as the first. */
  function PageOffset(page: int, perPage: int): (r: int)
    ensures page <= 1 ==> r == 0
  {
    var p := if page < 1 then 1 else page;
    (p - 1) * perPage
  }

  /** Consecutive pages start `perPage` rows apart, so the pages tile the rows. */
  lemma PageOffsetConsecutive(page: int, perPage: int)
    requires page >= 1
    ensures PageOffset(page + 1, perPage) == PageOffset(page, perPage) + perPage
    ensures perPage >= 0 ==> PageOffset(page, perPage) >= 0
  {
    assert page * perPage == (page - 1) * perPage + perPage;
  }

  /** The new folder name when an update renames the study: the stripped new
      name, when it is not empty and differs from the old name. */
  function FolderRenameTarget(originalName: string, newName: string): (r: Option<string>)
    ensures r.Some? ==> r.value == Strip(newName) && r.value != [] && r.value != originalName
    ensures r.None? ==> Strip(newName) == [] || Strip(newName) == originalName
  {
    var n := Strip(newName);
    if originalName != n && n != [] then Some(n) else None
  }

  /** Whether a comment may be stored: none, or at most 150 characters. */
  predicate CommentFits(comment: Option<string>)
  {
    comment.None? || |comment.value| <= MaxCommentLength
  }

  // ===========================================================================
  // The study rows
  // ===========================================================================

  datatype StudyRow = StudyRow(name: string, isPinned: bool, comment: Option<string>)

  datatype CommentOutcome = CommentTooLong | CommentStudyNotFound | CommentUpdated

  datatype PinOutcome = PinStudyNotFound | PinLimitReached | PinChanged(nowPinned: bool)

  /** The studies table, keyed by study id. */
  class StudyStore {
    var rows: map<int, StudyRow>

    constructor (rows0: map<int, StudyRow>)
      ensures rows == rows0
    {
      rows := rows0;
    }

    /** The ids of the pinned studies. */
    function PinnedIds(): set<int>
      reads this
    {
      set id | id in rows && rows[id].isPinned
    }

    /** `count_pinned_studies`. */
    function PinnedCount(): (n: nat)
      reads this
      ensures n <= |rows.Keys|
    {
      PinnedCountBound(rows);
      |PinnedIds()|
    }

    /** `has_studies`: the row count is positive, which is when some study exists. */
    function HasStudies(): (r: bool)
      reads this
      ensures r <==> rows.Keys != {}
    {
      |rows.Keys| > 0
    }

    /** `toggle_study_pin_status`: pinning is refused, with nothing changed,
        once five studies are pinned; unpinning always succeeds; a change flips
        only that study's flag. A missing study is the `ValueError` case. */
    method TogglePin(id: int) returns (outcome: PinOutcome)
      modifies this
      ensures id !in old(rows) ==> outcome == PinStudyNotFound && rows == old(rows)
      ensures id in old(rows) && !old(rows)[id].isPinned && old(PinnedCount()) >= MaxPinnedStudies ==>
                outcome == PinLimitReached && rows == old(rows)
      ensures id in old(rows) && (old(rows)[id].isPinned || old(PinnedCount()) < MaxPinnedStudies) ==>
                outcome == PinChanged(!old(rows)[id].isPinned) &&
                rows == old(rows)[id := old(rows)[id].(isPinned := !old(rows)[id].isPinned)]
      ensures old(PinnedCount()) <= MaxPinnedStudies ==> PinnedCount() <= MaxPinnedStudies
    {
      if id !in rows {
        return PinStudyNotFound;
      }
      var row := rows[id];
      var newPinned := !row.isPinned;
      if newPinned && PinnedCount() >= MaxPinnedStudies {
        return PinLimitReached;
      }
      ghost var before := rows;
      rows := rows[id := row.(isPinned := newPinned)];
      PinnedIdsAfterToggle(before, id, newPinned);
      outcome := PinChanged(newPinned);
    }

    /** `update_study_comment`: a comment over 150 characters is refused before
        the study is looked up; otherwise only that study's comment changes. */
    method UpdateComment(id: int, comment: Option<string>) returns (outcome: CommentOutcome)
      modifies this
      ensures !CommentFits(comment) ==> outcome == CommentTooLong && rows == old(rows)
      ensures CommentFits(comment) && id !in old(rows) ==> outcome == CommentStudyNotFound && rows == old(rows)
      ensures CommentFits(comment) && id in old(rows) ==>
                outcome == CommentUpdated && rows == old(rows)[id := old(rows)[id].(comment := comment)]
    {
      if comment.Some? && |comment.value| > MaxCommentLength {
        return CommentTooLong;
      }
      if id !in rows {
        return CommentStudyNotFound;
      }
      rows := rows[id := rows[id].(comment := comment)];
      return CommentUpdated;
    }
  }

  lemma PinnedCountBound(rows: map<int, StudyRow>)
    ensures |set id | id in rows && rows[id].isPinned| <= |rows.Keys|
  {
    var s := set id | id in rows && rows[id].isPinned;
    assert s <= rows.Keys;
    SubsetCard(s, rows.Keys);
  }

  lemma {:induction false} SubsetCard<T>(a: set<T>, b: set<T>)
    requires a <= b
    ensures |a| <= |b|
    decreases |b|
  {
    if a != {} {
      var x :| x in a;
      SubsetCard(a - {x}, b - {x});
    }
  }

  /** Flipping one study's flag adds or removes exactly that study from the
      pinned set, so pinning raises the count by one and unpinning lowers it. */
  lemma PinnedIdsAfterToggle(before: map<int, StudyRow>, id: int, newPinned: bool)
    requires id in before && before[id].isPinned != newPinned
    ensures var after := before[id := before[id].(isPinned := newPinned)];
      var p0 := set i | i in before && before[i].isPinned;
      var p1 := set i | i in after && after[i].isPinned;
      (newPinned ==> p1 == p0 + {id} && |p1| == |p0| + 1) &&
      (!newPinned ==> p1 == p0 - {id} && |p1| == |p0| - 1)
  {
    var after := before[id := before[id].(isPinned := newPinned)];
    var p0 := set i | i in before && before[i].isPinned;
    var p1 := set i | i in after && after[i].isPinned;
    if newPinned {
      assert p1 == p0 + {id};
      assert id !in p0;
    } else {
      assert p1 == p0 - {id};
      assert id in p0;
    }
  }
}
