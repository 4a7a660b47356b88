/**
 * The snapshot `new` builds: the host name (or a sentinel when it cannot be
 * resolved), the host name cut at its first '.', the program name and the
 * process id.
 */
module ProcessSnapshot {
  import opened Wrappers
  import opened Text
  import opened HostName

  /** The host name recorded when the OS cannot give one. */
  const UnknownHostName: string := "(unknown)"

  /** The published record of facts about the running process. */
  datatype Process = Process(hostName: string, hostNameWithoutDomain: string, programName: string, pid: i32)
  {
    /** The short host name is the host name up to, and without, its first '.'. */
    ghost predicate Valid()
    {
      hostNameWithoutDomain == PrefixBefore(hostName, '.')
    }
  }

  /** The host name to record: the resolver's answer, or the sentinel when it failed. */
  function HostNameOrUnknown(lookup: Result<string, IoError>): string
  {
    match lookup
    case Err(_) => UnknownHostName
    case Ok(hostName) => hostName
  }

  /** The host name without its domain: a prefix with no '.', ending only where a '.' stands. */
  function WithoutDomain(hostName: string): (r: string)
    ensures r <= hostName && '.' !in r
    ensures |r| < |hostName| ==> hostName[|r|] == '.'
  {
    match Find(hostName, '.')
    case None => hostName
    case Some(0) => ""
    case Some(index) => hostName[..index]
  }

  /** A host name without '.' is its own short name. */
  lemma WithoutDomainWithoutDot(hostName: string)
    requires '.' !in hostName
    ensures WithoutDomain(hostName) == hostName
  {
  }

  /** With the first '.' at `index`, the short name is the `index` letters before it (none when `index` is 0). */
  lemma WithoutDomainAtFirstDot(hostName: string, index: nat)
    requires index < |hostName| && hostName[index] == '.'
    requires '.' !in hostName[..index]
    ensures WithoutDomain(hostName) == hostName[..index]
    ensures index == 0 ==> WithoutDomain(hostName) == ""
  {
    PrefixBeforeUnique(hostName, '.', hostName[..index]);
    PrefixBeforeUnique(hostName, '.', WithoutDomain(hostName));
  }

  /** The `find`-based definition agrees with the letter-by-letter one, on every input. */
  lemma WithoutDomainIsPrefixBefore(hostName: string)
    ensures WithoutDomain(hostName) == PrefixBefore(hostName, '.')
  {
    PrefixBeforeUnique(hostName, '.', WithoutDomain(hostName));
  }

  /**
   * The record `new` assembles from what the host-name resolver returned,
   * the program name and the process id.
   */
  function Build(lookup: Result<string, IoError>, programName: string, pid: i32): (p: Process)
    ensures p.Valid()
    ensures |p.hostNameWithoutDomain| <= |p.hostName|
    ensures lookup.Err? ==> p.hostName == UnknownHostName && p.hostNameWithoutDomain == UnknownHostName
    ensures lookup.Ok? ==> p.hostName == lookup.value
    ensures p.programName == programName && p.pid == pid
  {
    var hostName := HostNameOrUnknown(lookup);
    WithoutDomainIsPrefixBefore(hostName);
    Process(hostName, WithoutDomain(hostName), programName, pid)
  }

  /**
   * `new`: resolve the host name from the OS's answers, then assemble the
   * record with the program name and the process id the OS gives.
   */
  method New(maximumHostNameLength: nat, written: seq<u8>, code: i32, errno: int, programName: string, pid: i32)
    returns (p: Process)
    requires |written| == maximumHostNameLength
    ensures p.Valid()
    ensures code == 0 ==> p.hostName == DecodeLossy(written[..BoundedLength(written, maximumHostNameLength)])
    ensures code == 0 ==> |p.hostName| <= maximumHostNameLength && '\0' !in p.hostName
    ensures code != 0 ==> p.hostName == UnknownHostName && p.hostNameWithoutDomain == UnknownHostName
    ensures p.programName == programName && p.pid == pid
  {
    var lookup := GetHostNameSafely(maximumHostNameLength, written, code, errno);
    p := Build(lookup, programName, pid);
  }
}
