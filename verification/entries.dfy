/** The data model of the duplicate finder: the file entry record, its fixed-width
    integer fields and the optional content digest. */
module Entries {

  /** An unsigned byte, as read from a file and as stored in a digest. */
  type byte = x: int | 0 <= x < 0x100

  /** A Win32 DWORD. */
  type u32 = x: int | 0 <= x < 0x1_0000_0000

  /** A LONGLONG, the type of LARGE_INTEGER.QuadPart. */
  type i64 = x: int | -0x8000_0000_0000_0000 <= x < 0x8000_0000_0000_0000

  const TwoTo32: int := 0x1_0000_0000
  const TwoTo64: int := 0x1_0000_0000_0000_0000

  /** A SHA-256 value: exactly 32 bytes. */
  type Digest = d: seq<byte> | |d| == 32 witness seq(32, i => 0)

  datatype Option<+T> = None | Some(value: T)

  /** One traversed file: its full path, its size as the signed 64-bit QuadPart the
      program compares, and the digest, which stays None until hashing succeeds. */
  datatype Entry = Entry(path: string, size: i64, hash: Option<Digest>)

  /** The QuadPart of a LARGE_INTEGER whose LowPart and HighPart were assigned the two
      DWORD halves of a file size. HighPart is a signed LONG, so the result is the
      two's-complement reading of the unsigned 64-bit size. */
  function QuadPart(high: u32, low: u32): (q: i64)
    ensures (q - (high * TwoTo32 + low)) % TwoTo64 == 0
    ensures 0 <= high * TwoTo32 + low < TwoTo64 / 2 ==> q == high * TwoTo32 + low
    ensures q < 0 <==> high >= TwoTo32 / 2
  {
    var unsigned := high * TwoTo32 + low;
    if unsigned < TwoTo64 / 2 then unsigned else unsigned - TwoTo64
  }
}
