/**
 * `get_program_name_safely` as built for Android: the name the C runtime
 * keeps in `__progname` may carry a path, so only what follows its last '/'
 * is kept. The value of `__progname`, already decoded, is the parameter.
 */
module ProgramName {
  import opened Wrappers
  import opened Text

  /** The program name without any directory part. */
  function AndroidProgramName(pathToExeName: string): (r: string)
    ensures |r| <= |pathToExeName| && r == pathToExeName[|pathToExeName| - |r|..]
    ensures '/' !in r
    ensures |r| < |pathToExeName| ==> pathToExeName[|pathToExeName| - |r| - 1] == '/'
  {
    match RFind(pathToExeName, '/')
    case None => pathToExeName
    case Some(index) => pathToExeName[index + 1..]
  }

  /** A name with no '/' in it is kept as it is. */
  lemma AndroidProgramNameWithoutSlash(pathToExeName: string)
    requires '/' !in pathToExeName
    ensures AndroidProgramName(pathToExeName) == pathToExeName
  {
  }

  /** With a '/' at `index` and none after it, the name is what follows that '/'. */
  lemma AndroidProgramNameAfterLastSlash(pathToExeName: string, index: nat)
    requires index < |pathToExeName| && pathToExeName[index] == '/'
    requires '/' !in pathToExeName[index + 1..]
    ensures AndroidProgramName(pathToExeName) == pathToExeName[index + 1..]
  {
    SuffixAfterUnique(pathToExeName, '/', pathToExeName[index + 1..]);
    SuffixAfterUnique(pathToExeName, '/', AndroidProgramName(pathToExeName));
  }

  /** The `rfind`-based definition agrees with the letter-by-letter one, on every input. */
  lemma AndroidProgramNameIsSuffixAfter(pathToExeName: string)
    ensures AndroidProgramName(pathToExeName) == SuffixAfter(pathToExeName, '/')
  {
    SuffixAfterUnique(pathToExeName, '/', AndroidProgramName(pathToExeName));
  }
}
