// The ranges of the machine's integers.
module Words {
  const INT_MAX: nat := 0x7fff_ffff
  const U32: nat := 0x1_0000_0000
  const U64: nat := 0x1_0000_0000_0000_0000
}
