/**
 * `getVersionOffsets`: the offsets, inside the game's main executable, of the
 * functions the hooks attach to, chosen by the display version the OS
 * reports (a parameter here).
 */
module Versions {

  /** `functionOffsets`. */
  datatype FunctionOffsets = FunctionOffsets(crc64: int, cFilePathStrIdCtor: int,
                                             luaRegisterGlobals: int, luaPcall: int)

  /** The table for display version 2.1.0. */
  const Offsets210: FunctionOffsets := FunctionOffsets(0x1570, 0x166C8, 0x010aed50, 0x010a3a80)

  /** The table for versions 1.0.0 to 2.0.0. */
  const Offsets100: FunctionOffsets := FunctionOffsets(0x1570, 0x16624, 0x106ce90, 0x1061bc0)

  /** The 2.1.0 table exactly when the display version is "2.1.0", the older
      table for every other string; the hash function does not move. */
  function GetVersionOffsets(displayVersion: string): (r: FunctionOffsets)
    ensures r == Offsets210 <==> displayVersion == "2.1.0"
    ensures r == Offsets100 <==> displayVersion != "2.1.0"
    ensures r.crc64 == 0x1570
  {
    if displayVersion == "2.1.0" then Offsets210 else Offsets100
  }
}
