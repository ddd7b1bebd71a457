/** Integer widths, identifiers and the clock units shared by every module (src/core/Types.h). */
module Types {
  type u8 = x: int | 0 <= x < 0x100
  type u16 = x: int | 0 <= x < 0x1_0000
  type u32 = x: int | 0 <= x < 0x1_0000_0000
  type u64 = x: int | 0 <= x < 0x1_0000_0000_0000_0000

  type i32 = x: int | -0x8000_0000 <= x < 0x8000_0000
  type i64 = x: int | -0x8000_0000_0000_0000 <= x < 0x8000_0000_0000_0000

  const INVALID_ROUTER_ID: u8 := 0xFF
  const INVALID_RLOC16: u16 := 0xFFFE
  const BROADCAST_RLOC16: u16 := 0xFFFF

  datatype Option<+T> = None | Some(value: T)

  /** A TimePoint counts nanoseconds, a Duration milliseconds. */
  const NS_PER_MS: int := 1_000_000

  /** duration_cast<milliseconds>: truncation towards zero. */
  function ToMs(ns: int): int {
    if ns >= 0 then ns / NS_PER_MS else -((-ns) / NS_PER_MS)
  }

  function Min(a: int, b: int): int {
    if a <= b then a else b
  }

  function MakeRloc16(routerId: u8, childId: u16): u16 {
    (routerId * 0x400 + childId % 0x400) % 0x1_0000
  }

  function GetRouterId(rloc: u16): u8 {
    (rloc / 0x400) % 0x40
  }

  /** An address of a router id below 64 and a child id below 1024 holds both, and names no other pair. */
  lemma RlocHoldsBoth(routerId: u8, childId: u16)
    requires routerId < 0x40 && childId < 0x400
    ensures GetRouterId(MakeRloc16(routerId, childId)) == routerId && MakeRloc16(routerId, childId) % 0x400 == childId
  {
  }

  /** Whole milliseconds, what is over dropped on either side of zero. */
  lemma ToMsTruncates(ns: int)
    ensures ns >= 0 ==> ToMs(ns) * NS_PER_MS <= ns < (ToMs(ns) + 1) * NS_PER_MS
    ensures ns <= 0 ==> (ToMs(ns) - 1) * NS_PER_MS < ns <= ToMs(ns) * NS_PER_MS
  {
  }
}
