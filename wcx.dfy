/** Constants and shared shapes of the WCX packer-plugin interface: the error
    codes the host understands, the operation and flag values it passes in,
    and the two kinds of progress callback it can register. */
module Wcx {

  /** Error codes returned to the host. */
  const E_END_ARCHIVE: int := 10
  const E_NO_MEMORY: int := 11
  const E_BAD_DATA: int := 12
  const E_BAD_ARCHIVE: int := 13
  const E_UNKNOWN_FORMAT: int := 14
  const E_EOPEN: int := 15
  const E_ECREATE: int := 16
  const E_ECLOSE: int := 17
  const E_EREAD: int := 18
  const E_EWRITE: int := 19
  const E_SMALL_BUF: int := 20
  const E_EABORTED: int := 21
  const E_NO_FILES: int := 22
  const E_TOO_MANY_FILES: int := 23
  const E_NOT_SUPPORTED: int := 24

  /** Operations passed to ProcessFile. */
  const PK_SKIP: int := 0
  const PK_TEST: int := 1
  const PK_EXTRACT: int := 2

  /** Bits of the PackFiles flags word (a C int, kept as its 32 bits). */
  const PK_PACK_MOVE_FILES: bv32 := 1
  const PK_PACK_SAVE_PATHS: bv32 := 2
  const PK_PACK_ENCRYPT: bv32 := 4

  /** Bits of the GetBackgroundFlags answer. */
  const BACKGROUND_UNPACK: bv32 := 1
  const BACKGROUND_PACK: bv32 := 2
  const BACKGROUND_MEMPACK: bv32 := 4

  /** Bits of the GetPackerCaps answer. */
  const PK_CAPS_NEW: bv32 := 1
  const PK_CAPS_MODIFY: bv32 := 2
  const PK_CAPS_MULTIPLE: bv32 := 4
  const PK_CAPS_DELETE: bv32 := 8
  const PK_CAPS_OPTIONS: bv32 := 16
  const PK_CAPS_MEMPACK: bv32 := 32
  const PK_CAPS_BY_CONTENT: bv32 := 64
  const PK_CAPS_SEARCHTEXT: bv32 := 128
  const PK_CAPS_HIDE: bv32 := 256
  const PK_CAPS_ENCRYPT: bv32 := 512

  /** Largest value of a C int. */
  const INT_MAX: int := 0x7FFF_FFFF

  /** Every error code the plugin itself produces. */
  predicate IsErrorCode(code: int) {
    E_END_ARCHIVE <= code <= E_NOT_SUPPORTED
  }

  datatype Option<+T> = None | Some(value: T) {
    function GetOr(default: T): T {
      match this
      case Some(v) => v
      case None => default
    }
  }

  /** A Rust `Result<T, c_int>`: a value, or one of the error codes above. */
  datatype Result<+T> = Ok(value: T) | Err(code: int)

  /** A progress callback registered by the host, identified by the function
      pointer it hands over. */
  datatype Callback = Callback(address: nat)

  /** One pair of progress-callback slots: the narrow-text
      (`tProcessDataProc`) and the wide-text (`tProcessDataProcW`) one. Both a
      session and the whole process own such a pair. */
  datatype Slots = Slots(narrow: Option<Callback>, wide: Option<Callback>)

  const NoSlots: Slots := Slots(None, None)
}
