/** The schema of a Frozen2 blob: where each value lies and how wide it is. */
module Layouts {
  import opened Common

  type i16 = x: int | -0x8000 <= x <= 0x7FFF
  type i32 = x: int | -0x8000_0000 <= x <= 0x7FFF_FFFF
  type width = x: int | 0 <= x <= 0x7FFF

  // A negative offset counts bits, any other counts bytes.
  datatype Field = Field(layoutId: i16, offset: i16)

  datatype Layout = Layout(size: u32, bits: width, fields: map<i16, Field>, typeName: Bytes)

  datatype Schema = Schema(fileVersion: i32, relaxTypeChecks: bool, layouts: map<i16, Layout>, rootLayout: i16)
}
