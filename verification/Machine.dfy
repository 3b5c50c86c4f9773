/** Machine-level number types and the outcomes shared by every component. */
module Machine {

  type Byte = x: int | 0 <= x < 0x100
  type Word = x: int | 0 <= x < 0x1_0000_0000
  type U16 = x: int | 0 <= x < 0x1_0000
  type U64 = x: int | 0 <= x < 0x1_0000_0000_0000_0000

  type Bits9 = x: int | 0 <= x < 0x200
  type Bits12 = x: int | 0 <= x < 0x1000
  type Bits20 = x: int | 0 <= x < 0x10_0000
  type Bits36 = x: int | 0 <= x < 0x10_0000_0000

  /** What a memory access is for. */
  datatype Access = Instruction | Data

  /** The only error code the modelled functions return on their own account. */
  datatype Error = BadParameter

  datatype Option<+T> = None | Some(value: T)

  datatype Result<+T> = Ok(value: T) | Err(error: Error)
}
