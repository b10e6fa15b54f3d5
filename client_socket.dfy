/** `ConfigureClientSocket`: switches an accepted client descriptor to
    non-blocking mode by a read-modify-write of its file status flags with
    fcntl(2). The flag word the kernel keeps for the descriptor is passed in
    and the word it keeps afterwards is returned; the two fcntl calls'
    success or failure are inputs. */
module ClientSocket {
  import opened Errors

  /** `O_NONBLOCK` on Linux (octal 04000). */
  const O_NONBLOCK: bv32 := 0x800

  /** The 32-bit pattern of `kFcntlFailed` (-1): what F_GETFL's `int`
      result is compared with. */
  const kFcntlFailedBits: bv32 := 0xFFFF_FFFF

  /** The flag word with `O_NONBLOCK` set: every flag set before stays set,
      and nothing besides `O_NONBLOCK` is added. */
  function WithNonBlocking(flags: bv32): (r: bv32)
    ensures r & O_NONBLOCK == O_NONBLOCK
    ensures r & flags == flags
  {
    flags | O_NONBLOCK
  }

  /** The kernel's answer to F_GETFL: the descriptor's flag word, or a failure. */
  datatype GetFlagsReply = ReturnsFlags | GetFlagsFailed(errno: nat)

  /** Reads the status flags (`getFlags` is the F_GETFL call; on success it
      returns the descriptor's flag word `flags`), ORs in `O_NONBLOCK` and
      writes them back (`setFlags` is the F_SETFL call). Either call failing
      yields `kFcntlFailed` and leaves the kernel's flags as they were; so
      does a flag word whose bits read as -1. */
  method ConfigureClientSocket(flags: bv32, getFlags: GetFlagsReply, setFlags: SysResult) returns (code: int, flagsAfter: bv32)
    ensures code == 0 || code == kFcntlFailed
    ensures code == 0 <==> getFlags.ReturnsFlags? && flags != kFcntlFailedBits && setFlags.Success?
    ensures code == 0 ==> flagsAfter == WithNonBlocking(flags)
    ensures code != 0 ==> flagsAfter == flags
  {
    var fdFlags: bv32 := if getFlags.GetFlagsFailed? then kFcntlFailedBits else flags;
    if fdFlags == kFcntlFailedBits {
      return kFcntlFailed, flags;
    }
    fdFlags := fdFlags | O_NONBLOCK;
    var errorCode := ReturnValue(setFlags);
    if errorCode == kFcntlFailed {
      return kFcntlFailed, flags;
    }
    return 0, fdFlags;
  }

  /** Nothing besides `O_NONBLOCK` is added, a descriptor that is already
      non-blocking keeps its flags, and configuring twice leaves the same
      flags as configuring once. */
  lemma NonBlockingAddsNothingElse(flags: bv32)
    ensures WithNonBlocking(flags) & !flags & !O_NONBLOCK == 0
    ensures flags & O_NONBLOCK == O_NONBLOCK ==> WithNonBlocking(flags) == flags
    ensures WithNonBlocking(WithNonBlocking(flags)) == WithNonBlocking(flags)
  {
  }
}
