/**
 * `retrieveTotalCoverage` and the choice in `generateBadge` between the
 * `value` override and the coverage file.  Opening and reading the file
 * is a parameter: a `FileSystem` maps a path to the text `os.Open`
 * followed by `ioutil.ReadAll` would yield, or to the error either returns.
 */
module Coverage {
  import opened Wrappers
  import opened GoStrings

  /** The error values of `os.Open` and `ioutil.ReadAll`, returned unchanged. */
  datatype IoError = OpenFailed(path: string) | ReadFailed(path: string)

  /** Why no coverage value was found: an I/O error, or a file with no field in it. */
  datatype ExtractError = Io(cause: IoError) | EmptyInput

  type FileSystem = string -> Result<string, IoError>

  /**
   * `retrieveTotalCoverage` as written: the last of `strings.Fields` of the
   * content.  `words[len(words)-1]` panics when there is no field, so a
   * caller must supply a file with at least one non-space character.
   */
  function RetrieveTotalCoverageAsWritten(fs: FileSystem, filename: string): (r: Result<string, IoError>)
    requires fs(filename).Success? ==> |Fields(fs(filename).value)| > 0
    ensures fs(filename).Failure? ==> r == Failure(fs(filename).error)
    ensures fs(filename).Success? ==> r.Success? && IsWord(r.value) && IsLastWord(fs(filename).value, r.value)
  {
    match fs(filename)
    case Failure(e) => Failure(e)
    case Success(content) =>
      var words := Fields(content);
      var last := words[|words| - 1];
      LastFieldExists(content);
      Success(last)
  }

  /** An empty or all-white-space file leaves `strings.Fields` empty: the index `len(words)-1` is -1. */
  lemma EmptyContentIndexesMinusOne(content: string)
    requires !HasWord(content)
    ensures |Fields(content)| - 1 == -1
  {
  }

  /**
   * `retrieveTotalCoverage` with the empty case reported as an error: the
   * I/O error is passed through unchanged, a file without a field is
   * `EmptyInput`, and otherwise the value is the last field of the file.
   */
  function RetrieveTotalCoverage(fs: FileSystem, filename: string): (r: Result<string, ExtractError>)
    ensures fs(filename).Failure? ==> r == Failure(Io(fs(filename).error))
    ensures fs(filename).Success? ==> (r == Failure(EmptyInput) <==> !HasWord(fs(filename).value))
    ensures fs(filename).Success? && HasWord(fs(filename).value) ==> r.Success?
    ensures r.Success? ==> IsWord(r.value) && IsLastWord(fs(filename).value, r.value)
  {
    match fs(filename)
    case Failure(e) => Failure(Io(e))
    case Success(content) =>
      if HasWord(content) then Success(LastField(content)) else Failure(EmptyInput)
  }

  /** Wherever the code as written does not panic, the two agree. */
  lemma RetrieveAgreesWithAsWritten(fs: FileSystem, filename: string)
    requires fs(filename).Success? ==> |Fields(fs(filename).value)| > 0
    ensures RetrieveTotalCoverage(fs, filename)
         == RetrieveTotalCoverageAsWritten(fs, filename).MapFailure(e => Io(e))
  {
  }

  /** The worked example: a file ending in `total: 73.5%` yields `73.5%`. */
  lemma TotalLineExample(fs: FileSystem, filename: string)
    requires fs(filename) == Success("total: 73.5%\n")
    ensures RetrieveTotalCoverage(fs, filename) == Success("73.5%")
  {
    var content := "total: 73.5%\n";
    assert LastWordAt(content, 7, 12);
    assert content[7..12] == "73.5%";
    var r := RetrieveTotalCoverage(fs, filename);
    assert HasWord(content) by { assert !IsSpace(content[0]); }
    IsLastWordUnique(content, r.value, "73.5%");
  }

  /**
   * The coverage `generateBadge` works with: a non-empty `value` is used as
   * is; otherwise the result of extraction, success or error, is returned
   * unchanged.
   */
  function ResolveCoverage(fs: FileSystem, source: string, value: string): (r: Result<string, ExtractError>)
    ensures value != "" ==> r == Success(value)
    ensures value == "" ==> r == RetrieveTotalCoverage(fs, source)
    ensures value == "" && fs(source).Failure? ==> r == Failure(Io(fs(source).error))
    ensures value == "" && r.Success? ==> IsLastWord(fs(source).value, r.value)
  {
    if value != "" then Success(value) else RetrieveTotalCoverage(fs, source)
  }

  /** With a `value` override the file system is never consulted: any two give the same coverage. */
  lemma OverrideSkipsExtraction(fs: FileSystem, fs': FileSystem, source: string, value: string)
    requires value != ""
    ensures ResolveCoverage(fs, source, value) == ResolveCoverage(fs', source, value)
  {
  }
}
