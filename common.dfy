/** Small value types shared by the battstatus model. */
module Common {

  datatype Option<T> = None | Some(value: T)

  /** A Win32 BYTE: an unsigned 8-bit value. */
  type Byte = x: int | 0 <= x < 0x100

  /** A Win32 DWORD (and a C++ `unsigned` on Windows): an unsigned 32-bit value. */
  type DWord = x: int | 0 <= x < 0x1_0000_0000
}
