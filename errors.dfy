/** Return codes, errno values and system-call results shared by the
    synchronous echo server's components (errors.h and the Linux errno
    values the code compares against). */
module Errors {

  /** Every member of the `SystemCallError` enumeration that the core uses
      is -1, the return value of a failed POSIX call. */
  const kReadFailed: int := -1
  const kWriteFailed: int := -1
  const kSocketFailed: int := -1
  const kBindFailed: int := -1
  const kListenFailed: int := -1
  const kFcntlFailed: int := -1
  const kTimerSettimeFailed: int := -1

  /** `kServerSocketInitFailed`, the code `InitializeServerSockets` is compared with. */
  const kServerSocketInitFailed: int := -1

  /** The Linux errno values the worker and the dispatcher tell apart. */
  const EINTR: nat := 4
  const EAGAIN: nat := 11

  /** What the kernel reports for one system call: success with a
      non-negative return value, or failure with the errno it sets. */
  datatype SysResult = Success(value: nat) | Failure(errno: nat)

  /** The C return value of a call: -1 on failure, its value otherwise. */
  function ReturnValue(r: SysResult): int
  {
    if r.Failure? then -1 else r.value
  }
}
