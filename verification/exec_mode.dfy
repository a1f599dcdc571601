/**
 * `Plot.plot`: the choice between drawing the image in one local pass and
 * running the distributed job.
 */
module ExecMode {
  import opened Results
  import opened JavaNum

  /** What `plot` looks up about its input path. */
  datatype InputStatus = InputStatus(
    isWildcard: bool,   // the path is a glob pattern
    isDir: bool,        // the path names a directory
    len: int,           // file length in bytes
    blockSize: int)     // the file system's block size for the file

  /**
   * The automatic choice: local only for a single plain file of at most
   * three whole blocks (`len / blockSize <= 3` in Java `long` division).
   * The division is only reached for a plain file, and throws when the
   * block size is zero.
   */
  function AutoLocal(input: InputStatus): (r: Result<bool>)
    ensures input.isWildcard || input.isDir ==> r == Success(false)
    ensures !input.isWildcard && !input.isDir ==>
      (r.Failure? <==> input.blockSize == 0)
    ensures r.Failure? ==> r.error == DivideByZero
    ensures r.Success? && !input.isWildcard && !input.isDir ==>
      (r.value <==> Quot(input.len, input.blockSize) <= 3)
  {
    if input.isWildcard || input.isDir then Success(false)
    else match Div(input.len, input.blockSize)
      case Failure(e) => Failure(e)
      case Success(blocks) => Success(!(blocks > 3))
  }

  /**
   * `plot`'s final decision. An explicit `local` flag overrides the
   * automatic choice, but the automatic choice is computed first, so its
   * division by zero is raised even when the flag is given.
   */
  function IsLocal(localFlag: Option<bool>, input: InputStatus): (r: Result<bool>)
    ensures r.Failure? <==> !input.isWildcard && !input.isDir && input.blockSize == 0
    ensures r.Success? && localFlag.Some? ==> r.value == localFlag.value
    ensures r.Success? && localFlag.None? ==>
      (r.value <==> !input.isWildcard && !input.isDir && Quot(input.len, input.blockSize) <= 3)
  {
    match AutoLocal(input)
    case Failure(e) => Failure(e)
    case Success(auto) => Success(if localFlag.Some? then localFlag.value else auto)
  }

  /**
   * For a file of non-negative length and a positive block size, "at most
   * three blocks by integer division" means "shorter than four blocks".
   */
  lemma AutoLocalMeansUnderFourBlocks(input: InputStatus)
    requires !input.isWildcard && !input.isDir && 0 <= input.len && 0 < input.blockSize
    ensures AutoLocal(input) == Success(input.len < 4 * input.blockSize)
  {
    var q := input.len / input.blockSize;
    var b := input.blockSize;
    assert input.len == q * b + input.len % b;
    if q <= 3 {
      assert q * b <= 3 * b;
    } else {
      assert q * b >= 4 * b;
    }
  }
}
