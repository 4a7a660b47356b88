# process: a verified model of the process-identity snapshot

The `process` crate publishes one record about the running process. The record holds the host name, the host name without its domain, the program name and the process id. This project models the deterministic logic between the operating-system calls that produces that record:

- **Host-name resolver** (`get_host_name_safely`). A buffer has the capacity `sysconf(_SC_HOST_NAME_MAX)` reports, and `gethostname` fills it. The resolver reads the return code: `0` means success, `-1` means the last OS error, and any other code is an `Other` error whose message is `"Returned <code>"`. On success, `strnlen` measures the name without reading past the capacity, `set_len` cuts the buffer to that length, and the bytes are decoded.
- **Snapshot builder** (`new`). A failed lookup becomes the sentinel `"(unknown)"`. The short host name is cut at the first `'.'`. The record is then assembled with the program name and the pid.
- **Android program name**. Only the part after the last `'/'` of `__progname` is kept.

The answers of the operating system are parameters:
- the capacity;
- the bytes `gethostname` leaves in the buffer;
- its return code;
- `errno`;
- the program name;
- the pid.

Modules:
- `Wrappers` (wrappers.dfy): `Option` and `Result`.
- `Text` (text.dfy): the library operations the crate uses, which are `find`, `rfind`, `{}` formatting of integers and lossy decoding. It also holds two reference definitions built letter by letter: `PrefixBefore` and `SuffixAfter`.
- `HostName` (host_name.dfy): the resolver, its `strnlen` loop, and the `Vec<u8>` buffer as the class `ByteVec`.
- `ProgramName` (program_name.dfy): the Android basename.
- `ProcessSnapshot` (process.dfy): the `Process` record and `new`.

Text is a `string` with one character per byte of the Rust `String`. An index into it is therefore the byte index that Rust's `find`, `rfind` and slicing use.

## Model

| member | source | states |
|---|---|---|
| Text.Find | src/lib.rs:47 | `find('.')` gives nothing exactly when the character is absent. Otherwise it gives an index holding the character with no earlier occurrence. |
| Text.RFind | src/lib.rs:81 | `rfind('/')` gives nothing exactly when the character is absent. Otherwise it gives an index holding the character with no later occurrence. |
| Text.DecodeLossy | src/lib.rs:125 | Decoding keeps the length, and a character is NUL exactly where its byte is NUL. |
| Text.NatToDecimal | src/lib.rs:134 | `{}` formatting gives at least one character, all of them decimal digits, with no leading zero. |
| Text.IntDecimalRoundTrip | src/lib.rs:134 | The text `{}` produces for any integer, negatives included, reads back as that integer. |
| HostName.ReturnedMessageCarriesCode | src/lib.rs:132-135 | For every code, the message of an unrecognised return code starts with `"Returned "` and the rest reads back as the code. |
| HostName.BoundedLength | src/lib.rs:122 | The `strnlen` result is at most the capacity. No byte before it is NUL. If it is below the capacity, the byte at it is NUL. |
| HostName.BoundedLengthUnique | src/lib.rs:122 | Those three facts determine the length. |
| HostName.BoundedLengthReadsOnlyPrefix | src/lib.rs:122 | Bytes at or beyond the capacity never change the measured length. |
| HostName.StrNLen | src/lib.rs:122 | The bounded scan returns exactly `BoundedLength` of the buffer. It indexes no byte at or beyond the capacity. |
| HostName.ByteVec.WithCapacity | src/lib.rs:112 | The new buffer has fresh storage of exactly the capacity, and its length is 0. |
| HostName.ByteVec.SetLen | src/lib.rs:124 | The length becomes the given value, which is within the capacity. The storage is unchanged. |
| HostName.GetHostNameSafely | src/lib.rs:109-137 | Code `0` gives `Ok` with the decoded first `BoundedLength` bytes. That name is no longer than the capacity, contains no NUL, and ends at a NUL whenever it is shorter than the capacity. Code `-1` gives `Err(Os(errno))`. Any other code gives `Err(Custom(Other, "Returned <code>"))`. |
| ProgramName.AndroidProgramName | src/lib.rs:78-86 | The result is a suffix of the input with no `'/'` in it. When it is shorter than the input, the character just before it is `'/'`. |
| ProgramName.AndroidProgramNameWithoutSlash | src/lib.rs:83 | An input with no `'/'` is returned unchanged. |
| ProgramName.AndroidProgramNameAfterLastSlash | src/lib.rs:84 | If the last `'/'` is at `index`, the result is the input after `index`. |
| ProgramName.AndroidProgramNameIsSuffixAfter | src/lib.rs:81-85 | On every input, the `rfind` definition equals the letter-by-letter longest `'/'`-free suffix. |
| ProcessSnapshot.WithoutDomain | src/lib.rs:47-52 | The short host name is a prefix of the host name with no `'.'`. When it is shorter, the host name has a `'.'` right after it. |
| ProcessSnapshot.WithoutDomainWithoutDot | src/lib.rs:49 | A host name with no `'.'` is its own short name. |
| ProcessSnapshot.WithoutDomainAtFirstDot | src/lib.rs:50-51 | If the first `'.'` is at `index`, the short name is `hostName[..index]`. That is `""` when `index` is 0. |
| ProcessSnapshot.WithoutDomainIsPrefixBefore | src/lib.rs:47-52 | On every input, the `find` definition equals the letter-by-letter longest `'.'`-free prefix. |
| ProcessSnapshot.Build | src/lib.rs:41-62 | The record keeps its invariant that the short name is the host name up to its first `'.'`, so it is never longer. A failed lookup gives `"(unknown)"` in both host-name fields. A successful one records the name as resolved. The program name and pid are passed through. |
| ProcessSnapshot.New | src/lib.rs:37-63 | The snapshot keeps the invariant. On code `0`, the host name is the bounded, NUL-free decoding of the buffer. On any other code, both host-name fields are `"(unknown)"`. The program name and pid are the ones given. |

## Left out

- The `lazy_static` global `CurrentProcess` and the `assert_has_not_been_called!` once-guard (src/lib.rs:21-24, 39) are not modelled. They concern exactly-once initialisation under concurrent access, and this model has no threads.
- The foreign calls are not modelled. Their results are parameters:
  - `getpid` gives `pid`;
  - `sysconf(_SC_HOST_NAME_MAX)` gives `maximumHostNameLength`;
  - `gethostname` gives `written` and `code`;
  - `errno` is read by `Error::last_os_error`;
  - `program_invocation_short_name`, `getprogname` and `__progname` (read through `CStr::from_ptr`) give the program name.
- The `as usize` cast of a negative `sysconf` result is not modelled. The capacity is a `nat`. A negative result would make `Vec::with_capacity` panic.
- The raw-pointer mechanics are not modelled: the pointer to the storage of an empty `Vec`, and the uninitialised contents of the storage. `gethostname`'s write is a copy of `written` into the storage.
- Text.DecodeLossy: does not model UTF-8 validation or the replacement of invalid sequences by U+FFFD. Each byte stands for the character with the same code.
- `std::io::Error::kind` for OS errors (the mapping from `errno` to an `ErrorKind`) is not modelled. An OS error keeps its number only.
- The Linux and BSD/macOS program-name variants (src/lib.rs:65-75) are not modelled. They only decode a foreign string, which here is the `programName` parameter of `New`.
- The Windows program-name variant (src/lib.rs:88-107) is not modelled. It does not compile as written: `env`, `Cow`, `UnknownProcessName` and `UnspecifiedProcessName` are undefined, and a trailing `;` discards the value of the match.
- The test at src/lib.rs:139-144 is not modelled. It only prints the record and fails.
