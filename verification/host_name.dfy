/**
 * `get_host_name_safely`: ask the OS for the host name through a buffer of
 * the capacity `sysconf(_SC_HOST_NAME_MAX)` reports, measure the name with a
 * scan for NUL that never passes that capacity, and turn the OS's return code
 * into a `Result`.
 *
 * The OS is not called: what it answers (the capacity, the bytes `gethostname`
 * leaves in the buffer, its return code, and `errno`) is given as parameters.
 */
module HostName {
  import opened Wrappers
  import opened Text

  /** C's `int`, the type of `gethostname`'s return code (and of `pid_t`). */
  newtype i32 = x: int | -0x8000_0000 <= x < 0x8000_0000

  /** `std::io::ErrorKind`, reduced to the one kind this crate constructs itself. */
  datatype ErrorKind = Other

  /**
   * `std::io::Error`: an OS error number (`Error::last_os_error`), or an error
   * made by the program with a kind and a message (`Error::new`).
   */
  datatype IoError = Os(code: int) | Custom(kind: ErrorKind, message: string)

  /** The message the crate gives a return code it does not recognise. */
  function ReturnedMessage(code: i32): string
  {
    "Returned " + IntToDecimal(code as int)
  }

  /** The message of an unrecognised return code names that code, and it can be read back. */
  lemma ReturnedMessageCarriesCode(code: i32)
    ensures ReturnedMessage(code)[..9] == "Returned "
    ensures DecimalToInt(ReturnedMessage(code)[9..]) == code as int
  {
    assert ReturnedMessage(code)[9..] == IntToDecimal(code as int);
    IntDecimalRoundTrip(code as int);
  }

  // ---------------------------------------------------------------------------
  // strnlen

  /**
   * What `strnlen(s, maxLen)` returns: the index of the first NUL among the
   * first `maxLen` bytes, or `maxLen` when there is none.
   */
  function BoundedLength(s: seq<u8>, maxLen: nat): (n: nat)
    requires maxLen <= |s|
    ensures n <= maxLen
    ensures forall k :: 0 <= k < n ==> s[k] != Nul
    ensures n < maxLen ==> s[n] == Nul
    decreases maxLen
  {
    if maxLen == 0 || s[0] == Nul then 0 else 1 + BoundedLength(s[1..], maxLen - 1)
  }

  /** The three facts BoundedLength promises single out its result. */
  lemma BoundedLengthUnique(s: seq<u8>, maxLen: nat, n: nat)
    requires maxLen <= |s| && n <= maxLen
    requires forall k :: 0 <= k < n ==> s[k] != Nul
    requires n < maxLen ==> s[n] == Nul
    ensures n == BoundedLength(s, maxLen)
  {
  }

  /** strnlen never looks at a byte at or beyond `maxLen`: bytes there cannot change its answer. */
  lemma {:induction false} BoundedLengthReadsOnlyPrefix(s: seq<u8>, t: seq<u8>, maxLen: nat)
    requires maxLen <= |s| && maxLen <= |t|
    requires s[..maxLen] == t[..maxLen]
    ensures BoundedLength(s, maxLen) == BoundedLength(t, maxLen)
    decreases maxLen
  {
    if maxLen > 0 {
      assert s[0] == s[..maxLen][0] == t[..maxLen][0] == t[0];
      if s[0] != Nul {
        assert s[1..][..maxLen - 1] == s[..maxLen][1..] == t[..maxLen][1..] == t[1..][..maxLen - 1];
        BoundedLengthReadsOnlyPrefix(s[1..], t[1..], maxLen - 1);
      }
    }
  }

  /** libc's `strnlen`: scan at most `maxLen` bytes of `s` for the terminating NUL. */
  method StrNLen(s: array<u8>, maxLen: nat) returns (n: nat)
    requires maxLen <= s.Length
    ensures n == BoundedLength(s[..], maxLen)
  {
    n := 0;
    while n < maxLen && s[n] != Nul
      invariant n <= maxLen
      invariant forall k :: 0 <= k < n ==> s[k] != Nul
    {
      n := n + 1;
    }
    BoundedLengthUnique(s[..], maxLen, n);
  }

  // ---------------------------------------------------------------------------
  // The buffer

  /** `Vec<u8>` as this crate uses it: storage of fixed capacity and a length moved by `set_len`. */
  class ByteVec {
    var storage: array<u8>
    var len: nat

    ghost predicate Valid()
      reads this
    {
      len <= storage.Length
    }

    /** `as_slice`: the first `len` bytes of the storage. */
    function AsSlice(): seq<u8>
      reads this, storage
      requires Valid()
    {
      storage[..len]
    }

    /** `Vec::with_capacity`: room for `capacity` bytes, none of them in use. */
    constructor WithCapacity(capacity: nat)
      ensures Valid() && fresh(storage)
      ensures storage.Length == capacity && len == 0
    {
      storage := new u8[capacity];
      len := 0;
    }

    /** `set_len`: declare the first `newLen` bytes of the storage to be the contents. */
    method SetLen(newLen: nat)
      requires Valid() && newLen <= storage.Length
      modifies this
      ensures Valid() && storage == old(storage) && len == newLen
    {
      len := newLen;
    }
  }

  // ---------------------------------------------------------------------------
  // The resolver

  /**
   * `get_host_name_safely`. `maximumHostNameLength` is what `sysconf` reported,
   * `written` the bytes `gethostname` leaves in the buffer's storage, `code`
   * its return code and `errno` the last OS error number at that moment.
   */
  method GetHostNameSafely(maximumHostNameLength: nat, written: seq<u8>, code: i32, errno: int)
    returns (r: Result<string, IoError>)
    requires |written| == maximumHostNameLength
    ensures code == 0 ==> r.Ok? && r.value == DecodeLossy(written[..BoundedLength(written, maximumHostNameLength)])
    ensures code == 0 ==> |r.value| <= maximumHostNameLength && '\0' !in r.value
    ensures code == 0 && |r.value| < maximumHostNameLength ==> written[|r.value|] == Nul
    ensures code == -1 ==> r == Err(Os(errno))
    ensures code != 0 && code != -1 ==> r == Err(Custom(Other, ReturnedMessage(code)))
  {
    var buffer := new ByteVec.WithCapacity(maximumHostNameLength);
    // What the foreign call `gethostname` writes into the storage.
    forall i | 0 <= i < maximumHostNameLength {
      buffer.storage[i] := written[i];
    }
    assert buffer.storage[..] == written;
    if code == 0 {
      var stringLength := StrNLen(buffer.storage, maximumHostNameLength);
      buffer.SetLen(stringLength);
      r := Ok(DecodeLossy(buffer.AsSlice()));
    } else if code == -1 {
      r := Err(Os(errno));
    } else {
      r := Err(Custom(Other, ReturnedMessage(code)));
    }
  }
}
