/** The seven-byte header in front of the code: flags, number of captures, stack size, code length. */
module Image {
  import opened Bytes
  import opened Pattern

  const LRE_FLAG_IGNORECASE: byte := 2
  const LRE_FLAG_MULTILINE: byte := 4
  const LRE_FLAG_DOTALL: byte := 8
  const LRE_FLAG_STICKY: byte := 32

  const RE_HEADER_FLAGS := 0
  const RE_HEADER_CAPTURE_COUNT := 1
  const RE_HEADER_STACK_SIZE := 2
  const RE_HEADER_LEN := 7

  predicate HasFlag(reFlags: byte, flag: byte)
    requires flag > 0
  {
    (reFlags / flag) % 2 == 1
  }

  function FlagsOf(reFlags: byte): (f: Flags) {
    Flags(HasFlag(reFlags, LRE_FLAG_STICKY), HasFlag(reFlags, LRE_FLAG_MULTILINE),
          HasFlag(reFlags, LRE_FLAG_DOTALL), HasFlag(reFlags, LRE_FLAG_IGNORECASE))
  }

  function Header(reFlags: byte, captureCount: byte, stackSize: byte, len: int): (h: seq<byte>)
    requires IsU32(len)
    ensures |h| == RE_HEADER_LEN
  {
    [reFlags, captureCount, stackSize] + PutU32(len)
  }
}
