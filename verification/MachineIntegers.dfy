/** The bounds of the machine integers the program counts with. */
module MachineIntegers {
  const U32_MAX := 0xFFFF_FFFF
  const I64_MIN := -0x8000_0000_0000_0000
  const I64_MAX := 0x7FFF_FFFF_FFFF_FFFF
  const USIZE_MAX := 0xFFFF_FFFF_FFFF_FFFF
}
