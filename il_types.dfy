// Types and enum values shared by the registration model. The numeric values are
// those DevIL's public header il.h gives its enums; il.h is not part of this model.
module IlTypes {

  /** ILuint / ILenum: a C `unsigned int`. */
  type uint32 = x: int | 0 <= x < 0x1_0000_0000

  datatype Option<+T> = None | Some(value: T)

  // Error codes recorded through ilSetError.
  const IL_NO_ERROR: uint32 := 0x0000
  const IL_INVALID_ENUM: uint32 := 0x0501
  const IL_OUT_OF_MEMORY: uint32 := 0x0502
  const IL_ILLEGAL_OPERATION: uint32 := 0x0506

  // Image origins.
  const IL_ORIGIN_LOWER_LEFT: uint32 := 0x0601
  const IL_ORIGIN_UPPER_LEFT: uint32 := 0x0602

  // Pixel formats.
  const IL_COLOUR_INDEX: uint32 := 0x1900
  const IL_RGB: uint32 := 0x1907
  const IL_RGBA: uint32 := 0x1908
  const IL_BGR: uint32 := 0x80E0
  const IL_BGRA: uint32 := 0x80E1
  const IL_LUMINANCE: uint32 := 0x1909

  // Pixel component types.
  const IL_BYTE: uint32 := 0x1400
  const IL_UNSIGNED_BYTE: uint32 := 0x1401
  const IL_SHORT: uint32 := 0x1402
  const IL_UNSIGNED_SHORT: uint32 := 0x1403
  const IL_INT: uint32 := 0x1404
  const IL_UNSIGNED_INT: uint32 := 0x1405
  const IL_FLOAT: uint32 := 0x1406
  const IL_DOUBLE: uint32 := 0x140A

  /** The origins ilRegisterOrigin accepts. */
  predicate IsOrigin(v: uint32) {
    v == IL_ORIGIN_LOWER_LEFT || v == IL_ORIGIN_UPPER_LEFT
  }

  /** The formats ilRegisterFormat accepts. */
  predicate IsFormat(v: uint32) {
    v == IL_COLOUR_INDEX || v == IL_RGB || v == IL_RGBA ||
    v == IL_BGR || v == IL_BGRA || v == IL_LUMINANCE
  }

  /** The component types ilRegisterType accepts. */
  predicate IsType(v: uint32) {
    v == IL_BYTE || v == IL_UNSIGNED_BYTE || v == IL_SHORT || v == IL_UNSIGNED_SHORT ||
    v == IL_INT || v == IL_UNSIGNED_INT || v == IL_FLOAT || v == IL_DOUBLE
  }
}
