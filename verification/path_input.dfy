/** The path input: the validator that accepts or rejects a path by what the
    file system says about it, the single-match suggestion, and the Tab key.
    The file system is not modelled: the caller supplies what resolving and
    stat-ing the path found (a PathStatus) and the completer's matches. */
module PathInput {
  import opened TextUtil

  /** What Path(value).expanduser().resolve().stat() finds. */
  datatype PathStatus =
    | Unresolvable   // resolving the path raised
    | Missing        // stat raised FileNotFoundError
    | StatRaised     // stat raised another OSError (not a directory, no permission, ...)
    | Directory
    | RegularFile
    | OtherKind      // anything else stat reports (a socket, a device, ...)

  datatype PathValidator = PathValidator(dirOk: bool, fileOk: bool, mustExist: bool)

  /** The flags under which every value is accepted without looking at it. */
  predicate Permissive(v: PathValidator)
  {
    v.dirOk && v.fileOk && !v.mustExist
  }

  /** Reference definition of which paths a validator accepts, one kind at a time. */
  predicate Accepts(v: PathValidator, status: PathStatus)
  {
    match status
    case Unresolvable => Permissive(v)
    case Missing => !v.mustExist
    case StatRaised => Permissive(v)
    case Directory => v.dirOk
    case RegularFile => v.fileOk
    case OtherKind => true
  }

  /** How validate ends: with a result, or with the error stat raised
      propagating to its caller. */
  datatype Outcome = Returned(result: Validation) | Propagated

  /** PathValidator.validate: a permissive validator succeeds at once; then an
      unresolvable path, a missing one that must exist, a forbidden directory
      and a forbidden regular file fail, in that order, each with its message.
      Only FileNotFoundError is caught around stat: any other error it raises
      leaves validate. */
  function Validate(v: PathValidator, status: PathStatus): (r: Outcome)
    ensures r.Propagated? <==> status == StatRaised && !Permissive(v)
    ensures r.Returned? ==> (r.result.Success? <==> Accepts(v, status))
    ensures r == Returned(Failure("Not a valid path.")) <==> status == Unresolvable && !Permissive(v)
    ensures r == Returned(Failure("File or directory does not exist.")) <==> status == Missing && v.mustExist
    ensures r == Returned(Failure("Path cannot be a directory.")) <==> status == Directory && !v.dirOk
    ensures r == Returned(Failure("Path cannot be a regular file.")) <==> status == RegularFile && !v.fileOk
  {
    if Permissive(v) then Returned(Success)
    else match status
      case Unresolvable => Returned(Failure("Not a valid path."))
      case Missing => if v.mustExist then Returned(Failure("File or directory does not exist.")) else Returned(Success)
      case StatRaised => Propagated
      case Directory => if !v.dirOk then Returned(Failure("Path cannot be a directory.")) else Returned(Success)
      case RegularFile => if !v.fileOk then Returned(Failure("Path cannot be a regular file.")) else Returned(Success)
      case OtherKind => Returned(Success)
  }

  /** Only a validator that must see an existing path rejects a missing one,
      and only one that forbids a kind rejects that kind. */
  lemma ValidateMonotone(v: PathValidator, w: PathValidator, status: PathStatus)
    requires (v.dirOk ==> w.dirOk) && (v.fileOk ==> w.fileOk) && (w.mustExist ==> v.mustExist)
    requires Validate(v, status) == Returned(Success)
    ensures Validate(w, status) == Returned(Success)
  {
  }

  /** One row of the validator's expected results: the three flags and
      whether a path of the row's kind is accepted. */
  datatype Row = Row(dirOk: bool, fileOk: bool, mustExist: bool, accepted: bool)

  predicate RowHolds(status: PathStatus, row: Row)
  {
    (Validate(PathValidator(row.dirOk, row.fileOk, row.mustExist), status) == Returned(Success)) == row.accepted
  }

  /** Expected results for a directory under every combination of flags
      (tests/unit_tests/test_path_validator.py). */
  const DirectoryRows: seq<Row> := [
    Row(true, true, true, true),
    Row(true, true, false, true),
    Row(true, false, true, true),
    Row(true, false, false, true),
    Row(false, true, true, false),
    Row(false, true, false, false),
    Row(false, false, true, false),
    Row(false, false, false, false)
  ]

  lemma ValidatorMatchesDirectoryRows()
    ensures forall i :: 0 <= i < |DirectoryRows| ==> RowHolds(Directory, DirectoryRows[i])
  {
  }

  /** Expected results for a path that does not exist under every combination of flags
      (tests/unit_tests/test_path_validator.py). */
  const MissingRows: seq<Row> := [
    Row(true, true, true, false),
    Row(true, true, false, true),
    Row(true, false, true, false),
    Row(true, false, false, true),
    Row(false, true, true, false),
    Row(false, true, false, true),
    Row(false, false, true, false),
    Row(false, false, false, true)
  ]

  lemma ValidatorMatchesMissingRows()
    ensures forall i :: 0 <= i < |MissingRows| ==> RowHolds(Missing, MissingRows[i])
  {
  }

  /** Expected results for a regular file under every combination of flags
      (tests/unit_tests/test_path_validator.py). */
  const RegularFileRows: seq<Row> := [
    Row(true, true, true, true),
    Row(true, true, false, true),
    Row(true, false, true, false),
    Row(true, false, false, false),
    Row(false, true, true, true),
    Row(false, true, false, true),
    Row(false, false, true, false),
    Row(false, false, false, false)
  ]

  lemma ValidatorMatchesRegularFileRows()
    ensures forall i :: 0 <= i < |RegularFileRows| ==> RowHolds(RegularFile, RegularFileRows[i])
  {
  }

  /** PathSuggester.get_suggestion: the completion text of the only match,
      and nothing when there are none or several. */
  function Suggestion(matches: seq<(string, string)>): (r: Option<string>)
    ensures r.Some? <==> |matches| == 1
    ensures r.Some? ==> r.value == matches[0].0
  {
    if |matches| == 1 then Some(matches[0].0) else None
  }

  datatype CompleteOutcome = AcceptSuggestion | FocusNext | NoAction

  /** PathInput.action_complete (Tab): accept a suggestion that differs from
      the value; otherwise move the focus on when so configured. */
  function Complete(suggestion: string, value: string, tabAdvancesFocus: bool): (r: CompleteOutcome)
    ensures r == AcceptSuggestion <==> suggestion != "" && suggestion != value
    ensures r == FocusNext <==> (suggestion == "" || suggestion == value) && tabAdvancesFocus
  {
    if suggestion != "" && suggestion != value then AcceptSuggestion
    else if tabAdvancesFocus then FocusNext
    else NoAction
  }
}
