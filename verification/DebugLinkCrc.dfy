/**
 The checksum of separate debug files (symtab.c: gnu_debuglink_crc32, and the loop of open_debug_file
 that feeds it a file in chunks).
 */
module DebugLinkCrc {
  type Crc = bv32
  type Byte = bv8

  // ----- the table -----

  function Row0(l: bv8): Crc {
    if l == 0 then 0x00000000 else if l == 1 then 0x77073096 else if l == 2 then 0xee0e612c else
    if l == 3 then 0x990951ba else if l == 4 then 0x076dc419 else if l == 5 then 0x706af48f else
    if l == 6 then 0xe963a535 else if l == 7 then 0x9e6495a3 else if l == 8 then 0x0edb8832 else
    if l == 9 then 0x79dcb8a4 else if l == 10 then 0xe0d5e91e else if l == 11 then 0x97d2d988 else
    if l == 12 then 0x09b64c2b else if l == 13 then 0x7eb17cbd else if l == 14 then 0xe7b82d07 else
    0x90bf1d91
  }

  function Row1(l: bv8): Crc {
    if l == 0 then 0x1db71064 else if l == 1 then 0x6ab020f2 else if l == 2 then 0xf3b97148 else
    if l == 3 then 0x84be41de else if l == 4 then 0x1adad47d else if l == 5 then 0x6ddde4eb else
    if l == 6 then 0xf4d4b551 else if l == 7 then 0x83d385c7 else if l == 8 then 0x136c9856 else
    if l == 9 then 0x646ba8c0 else if l == 10 then 0xfd62f97a else if l == 11 then 0x8a65c9ec else
    if l == 12 then 0x14015c4f else if l == 13 then 0x63066cd9 else if l == 14 then 0xfa0f3d63 else
    0x8d080df5
  }

  function Row2(l: bv8): Crc {
    if l == 0 then 0x3b6e20c8 else if l == 1 then 0x4c69105e else if l == 2 then 0xd56041e4 else
    if l == 3 then 0xa2677172 else if l == 4 then 0x3c03e4d1 else if l == 5 then 0x4b04d447 else
    if l == 6 then 0xd20d85fd else if l == 7 then 0xa50ab56b else if l == 8 then 0x35b5a8fa else
    if l == 9 then 0x42b2986c else if l == 10 then 0xdbbbc9d6 else if l == 11 then 0xacbcf940 else
    if l == 12 then 0x32d86ce3 else if l == 13 then 0x45df5c75 else if l == 14 then 0xdcd60dcf else
    0xabd13d59
  }

  function Row3(l: bv8): Crc {
    if l == 0 then 0x26d930ac else if l == 1 then 0x51de003a else if l == 2 then 0xc8d75180 else
    if l == 3 then 0xbfd06116 else if l == 4 then 0x21b4f4b5 else if l == 5 then 0x56b3c423 else
    if l == 6 then 0xcfba9599 else if l == 7 then 0xb8bda50f else if l == 8 then 0x2802b89e else
    if l == 9 then 0x5f058808 else if l == 10 then 0xc60cd9b2 else if l == 11 then 0xb10be924 else
    if l == 12 then 0x2f6f7c87 else if l == 13 then 0x58684c11 else if l == 14 then 0xc1611dab else
    0xb6662d3d
  }

  function Row4(l: bv8): Crc {
    if l == 0 then 0x76dc4190 else if l == 1 then 0x01db7106 else if l == 2 then 0x98d220bc else
    if l == 3 then 0xefd5102a else if l == 4 then 0x71b18589 else if l == 5 then 0x06b6b51f else
    if l == 6 then 0x9fbfe4a5 else if l == 7 then 0xe8b8d433 else if l == 8 then 0x7807c9a2 else
    if l == 9 then 0x0f00f934 else if l == 10 then 0x9609a88e else if l == 11 then 0xe10e9818 else
    if l == 12 then 0x7f6a0dbb else if l == 13 then 0x086d3d2d else if l == 14 then 0x91646c97 else
    0xe6635c01
  }

  function Row5(l: bv8): Crc {
    if l == 0 then 0x6b6b51f4 else if l == 1 then 0x1c6c6162 else if l == 2 then 0x856530d8 else
    if l == 3 then 0xf262004e else if l == 4 then 0x6c0695ed else if l == 5 then 0x1b01a57b else
    if l == 6 then 0x8208f4c1 else if l == 7 then 0xf50fc457 else if l == 8 then 0x65b0d9c6 else
    if l == 9 then 0x12b7e950 else if l == 10 then 0x8bbeb8ea else if l == 11 then 0xfcb9887c else
    if l == 12 then 0x62dd1ddf else if l == 13 then 0x15da2d49 else if l == 14 then 0x8cd37cf3 else
    0xfbd44c65
  }

  function Row6(l: bv8): Crc {
    if l == 0 then 0x4db26158 else if l == 1 then 0x3ab551ce else if l == 2 then 0xa3bc0074 else
    if l == 3 then 0xd4bb30e2 else if l == 4 then 0x4adfa541 else if l == 5 then 0x3dd895d7 else
    if l == 6 then 0xa4d1c46d else if l == 7 then 0xd3d6f4fb else if l == 8 then 0x4369e96a else
    if l == 9 then 0x346ed9fc else if l == 10 then 0xad678846 else if l == 11 then 0xda60b8d0 else
    if l == 12 then 0x44042d73 else if l == 13 then 0x33031de5 else if l == 14 then 0xaa0a4c5f else
    0xdd0d7cc9
  }

  function Row7(l: bv8): Crc {
    if l == 0 then 0x5005713c else if l == 1 then 0x270241aa else if l == 2 then 0xbe0b1010 else
    if l == 3 then 0xc90c2086 else if l == 4 then 0x5768b525 else if l == 5 then 0x206f85b3 else
    if l == 6 then 0xb966d409 else if l == 7 then 0xce61e49f else if l == 8 then 0x5edef90e else
    if l == 9 then 0x29d9c998 else if l == 10 then 0xb0d09822 else if l == 11 then 0xc7d7a8b4 else
    if l == 12 then 0x59b33d17 else if l == 13 then 0x2eb40d81 else if l == 14 then 0xb7bd5c3b else
    0xc0ba6cad
  }

  function Row8(l: bv8): Crc {
    if l == 0 then 0xedb88320 else if l == 1 then 0x9abfb3b6 else if l == 2 then 0x03b6e20c else
    if l == 3 then 0x74b1d29a else if l == 4 then 0xead54739 else if l == 5 then 0x9dd277af else
    if l == 6 then 0x04db2615 else if l == 7 then 0x73dc1683 else if l == 8 then 0xe3630b12 else
    if l == 9 then 0x94643b84 else if l == 10 then 0x0d6d6a3e else if l == 11 then 0x7a6a5aa8 else
    if l == 12 then 0xe40ecf0b else if l == 13 then 0x9309ff9d else if l == 14 then 0x0a00ae27 else
    0x7d079eb1
  }

  function Row9(l: bv8): Crc {
    if l == 0 then 0xf00f9344 else if l == 1 then 0x8708a3d2 else if l == 2 then 0x1e01f268 else
    if l == 3 then 0x6906c2fe else if l == 4 then 0xf762575d else if l == 5 then 0x806567cb else
    if l == 6 then 0x196c3671 else if l == 7 then 0x6e6b06e7 else if l == 8 then 0xfed41b76 else
    if l == 9 then 0x89d32be0 else if l == 10 then 0x10da7a5a else if l == 11 then 0x67dd4acc else
    if l == 12 then 0xf9b9df6f else if l == 13 then 0x8ebeeff9 else if l == 14 then 0x17b7be43 else
    0x60b08ed5
  }

  function RowA(l: bv8): Crc {
    if l == 0 then 0xd6d6a3e8 else if l == 1 then 0xa1d1937e else if l == 2 then 0x38d8c2c4 else
    if l == 3 then 0x4fdff252 else if l == 4 then 0xd1bb67f1 else if l == 5 then 0xa6bc5767 else
    if l == 6 then 0x3fb506dd else if l == 7 then 0x48b2364b else if l == 8 then 0xd80d2bda else
    if l == 9 then 0xaf0a1b4c else if l == 10 then 0x36034af6 else if l == 11 then 0x41047a60 else
    if l == 12 then 0xdf60efc3 else if l == 13 then 0xa867df55 else if l == 14 then 0x316e8eef else
    0x4669be79
  }

  function RowB(l: bv8): Crc {
    if l == 0 then 0xcb61b38c else if l == 1 then 0xbc66831a else if l == 2 then 0x256fd2a0 else
    if l == 3 then 0x5268e236 else if l == 4 then 0xcc0c7795 else if l == 5 then 0xbb0b4703 else
    if l == 6 then 0x220216b9 else if l == 7 then 0x5505262f else if l == 8 then 0xc5ba3bbe else
    if l == 9 then 0xb2bd0b28 else if l == 10 then 0x2bb45a92 else if l == 11 then 0x5cb36a04 else
    if l == 12 then 0xc2d7ffa7 else if l == 13 then 0xb5d0cf31 else if l == 14 then 0x2cd99e8b else
    0x5bdeae1d
  }

  function RowC(l: bv8): Crc {
    if l == 0 then 0x9b64c2b0 else if l == 1 then 0xec63f226 else if l == 2 then 0x756aa39c else
    if l == 3 then 0x026d930a else if l == 4 then 0x9c0906a9 else if l == 5 then 0xeb0e363f else
    if l == 6 then 0x72076785 else if l == 7 then 0x05005713 else if l == 8 then 0x95bf4a82 else
    if l == 9 then 0xe2b87a14 else if l == 10 then 0x7bb12bae else if l == 11 then 0x0cb61b38 else
    if l == 12 then 0x92d28e9b else if l == 13 then 0xe5d5be0d else if l == 14 then 0x7cdcefb7 else
    0x0bdbdf21
  }

  function RowD(l: bv8): Crc {
    if l == 0 then 0x86d3d2d4 else if l == 1 then 0xf1d4e242 else if l == 2 then 0x68ddb3f8 else
    if l == 3 then 0x1fda836e else if l == 4 then 0x81be16cd else if l == 5 then 0xf6b9265b else
    if l == 6 then 0x6fb077e1 else if l == 7 then 0x18b74777 else if l == 8 then 0x88085ae6 else
    if l == 9 then 0xff0f6a70 else if l == 10 then 0x66063bca else if l == 11 then 0x11010b5c else
    if l == 12 then 0x8f659eff else if l == 13 then 0xf862ae69 else if l == 14 then 0x616bffd3 else
    0x166ccf45
  }

  function RowE(l: bv8): Crc {
    if l == 0 then 0xa00ae278 else if l == 1 then 0xd70dd2ee else if l == 2 then 0x4e048354 else
    if l == 3 then 0x3903b3c2 else if l == 4 then 0xa7672661 else if l == 5 then 0xd06016f7 else
    if l == 6 then 0x4969474d else if l == 7 then 0x3e6e77db else if l == 8 then 0xaed16a4a else
    if l == 9 then 0xd9d65adc else if l == 10 then 0x40df0b66 else if l == 11 then 0x37d83bf0 else
    if l == 12 then 0xa9bcae53 else if l == 13 then 0xdebb9ec5 else if l == 14 then 0x47b2cf7f else
    0x30b5ffe9
  }

  function RowF(l: bv8): Crc {
    if l == 0 then 0xbdbdf21c else if l == 1 then 0xcabac28a else if l == 2 then 0x53b39330 else
    if l == 3 then 0x24b4a3a6 else if l == 4 then 0xbad03605 else if l == 5 then 0xcdd70693 else
    if l == 6 then 0x54de5729 else if l == 7 then 0x23d967bf else if l == 8 then 0xb3667a2e else
    if l == 9 then 0xc4614ab8 else if l == 10 then 0x5d681b02 else if l == 11 then 0x2a6f2b94 else
    if l == 12 then 0xb40bbe37 else if l == 13 then 0xc30c8ea1 else if l == 14 then 0x5a05df1b else
    0x2d02ef8d
  }

  /** crc32_table, in rows of sixteen. */
  function Table(i: Byte): Crc {
    var h, l := i >> 4, i & 15;
    if h == 0 then Row0(l) else
    if h == 1 then Row1(l) else
    if h == 2 then Row2(l) else
    if h == 3 then Row3(l) else
    if h == 4 then Row4(l) else
    if h == 5 then Row5(l) else
    if h == 6 then Row6(l) else
    if h == 7 then Row7(l) else
    if h == 8 then Row8(l) else
    if h == 9 then Row9(l) else
    if h == 10 then RowA(l) else
    if h == 11 then RowB(l) else
    if h == 12 then RowC(l) else
    if h == 13 then RowD(l) else
    if h == 14 then RowE(l) else
    RowF(l)
  }

  // ----- bit by bit -----

  /** One step of the bit-serial CRC of section 8 of RFC 1952. */
  function BitStep(c: Crc): Crc {
    if c & 1 == 1 then (c >> 1) ^ 0xedb8_8320 else c >> 1
  }

  /** Eight steps. */
  function ByteStep(c: Crc): Crc {
    BitStep(BitStep(BitStep(BitStep(BitStep(BitStep(BitStep(BitStep(c))))))))
  }

  // ----- the table holds the eight-step results -----

  lemma {:induction false} Row0Right(l: bv8)
    requires l < 16
    ensures Row0(l) == ByteStep((0x00 + l) as Crc)
  {
    if l == 0 {} else if l == 1 {} else if l == 2 {} else if l == 3 {} else if l == 4 {} else if l == 5 {}
    else if l == 6 {} else if l == 7 {} else if l == 8 {} else if l == 9 {} else if l == 10 {} else if l == 11 {}
    else if l == 12 {} else if l == 13 {} else if l == 14 {} else if l == 15 {}
  }

  lemma {:induction false} Row1Right(l: bv8)
    requires l < 16
    ensures Row1(l) == ByteStep((0x10 + l) as Crc)
  {
    if l == 0 {} else if l == 1 {} else if l == 2 {} else if l == 3 {} else if l == 4 {} else if l == 5 {}
    else if l == 6 {} else if l == 7 {} else if l == 8 {} else if l == 9 {} else if l == 10 {} else if l == 11 {}
    else if l == 12 {} else if l == 13 {} else if l == 14 {} else if l == 15 {}
  }

  lemma {:induction false} Row2Right(l: bv8)
    requires l < 16
    ensures Row2(l) == ByteStep((0x20 + l) as Crc)
  {
    if l == 0 {} else if l == 1 {} else if l == 2 {} else if l == 3 {} else if l == 4 {} else if l == 5 {}
    else if l == 6 {} else if l == 7 {} else if l == 8 {} else if l == 9 {} else if l == 10 {} else if l == 11 {}
    else if l == 12 {} else if l == 13 {} else if l == 14 {} else if l == 15 {}
  }

  lemma {:induction false} Row3Right(l: bv8)
    requires l < 16
    ensures Row3(l) == ByteStep((0x30 + l) as Crc)
  {
    if l == 0 {} else if l == 1 {} else if l == 2 {} else if l == 3 {} else if l == 4 {} else if l == 5 {}
    else if l == 6 {} else if l == 7 {} else if l == 8 {} else if l == 9 {} else if l == 10 {} else if l == 11 {}
    else if l == 12 {} else if l == 13 {} else if l == 14 {} else if l == 15 {}
  }

  lemma {:induction false} Row4Right(l: bv8)
    requires l < 16
    ensures Row4(l) == ByteStep((0x40 + l) as Crc)
  {
    if l == 0 {} else if l == 1 {} else if l == 2 {} else if l == 3 {} else if l == 4 {} else if l == 5 {}
    else if l == 6 {} else if l == 7 {} else if l == 8 {} else if l == 9 {} else if l == 10 {} else if l == 11 {}
    else if l == 12 {} else if l == 13 {} else if l == 14 {} else if l == 15 {}
  }

  lemma {:induction false} Row5Right(l: bv8)
    requires l < 16
    ensures Row5(l) == ByteStep((0x50 + l) as Crc)
  {
    if l == 0 {} else if l == 1 {} else if l == 2 {} else if l == 3 {} else if l == 4 {} else if l == 5 {}
    else if l == 6 {} else if l == 7 {} else if l == 8 {} else if l == 9 {} else if l == 10 {} else if l == 11 {}
    else if l == 12 {} else if l == 13 {} else if l == 14 {} else if l == 15 {}
  }

  lemma {:induction false} Row6Right(l: bv8)
    requires l < 16
    ensures Row6(l) == ByteStep((0x60 + l) as Crc)
  {
    if l == 0 {} else if l == 1 {} else if l == 2 {} else if l == 3 {} else if l == 4 {} else if l == 5 {}
    else if l == 6 {} else if l == 7 {} else if l == 8 {} else if l == 9 {} else if l == 10 {} else if l == 11 {}
    else if l == 12 {} else if l == 13 {} else if l == 14 {} else if l == 15 {}
  }

  lemma {:induction false} Row7Right(l: bv8)
    requires l < 16
    ensures Row7(l) == ByteStep((0x70 + l) as Crc)
  {
    if l == 0 {} else if l == 1 {} else if l == 2 {} else if l == 3 {} else if l == 4 {} else if l == 5 {}
    else if l == 6 {} else if l == 7 {} else if l == 8 {} else if l == 9 {} else if l == 10 {} else if l == 11 {}
    else if l == 12 {} else if l == 13 {} else if l == 14 {} else if l == 15 {}
  }

  lemma {:induction false} Row8Right(l: bv8)
    requires l < 16
    ensures Row8(l) == ByteStep((0x80 + l) as Crc)
  {
    if l == 0 {} else if l == 1 {} else if l == 2 {} else if l == 3 {} else if l == 4 {} else if l == 5 {}
    else if l == 6 {} else if l == 7 {} else if l == 8 {} else if l == 9 {} else if l == 10 {} else if l == 11 {}
    else if l == 12 {} else if l == 13 {} else if l == 14 {} else if l == 15 {}
  }

  lemma {:induction false} Row9Right(l: bv8)
    requires l < 16
    ensures Row9(l) == ByteStep((0x90 + l) as Crc)
  {
    if l == 0 {} else if l == 1 {} else if l == 2 {} else if l == 3 {} else if l == 4 {} else if l == 5 {}
    else if l == 6 {} else if l == 7 {} else if l == 8 {} else if l == 9 {} else if l == 10 {} else if l == 11 {}
    else if l == 12 {} else if l == 13 {} else if l == 14 {} else if l == 15 {}
  }

  lemma {:induction false} RowARight(l: bv8)
    requires l < 16
    ensures RowA(l) == ByteStep((0xA0 + l) as Crc)
  {
    if l == 0 {} else if l == 1 {} else if l == 2 {} else if l == 3 {} else if l == 4 {} else if l == 5 {}
    else if l == 6 {} else if l == 7 {} else if l == 8 {} else if l == 9 {} else if l == 10 {} else if l == 11 {}
    else if l == 12 {} else if l == 13 {} else if l == 14 {} else if l == 15 {}
  }

  lemma {:induction false} RowBRight(l: bv8)
    requires l < 16
    ensures RowB(l) == ByteStep((0xB0 + l) as Crc)
  {
    if l == 0 {} else if l == 1 {} else if l == 2 {} else if l == 3 {} else if l == 4 {} else if l == 5 {}
    else if l == 6 {} else if l == 7 {} else if l == 8 {} else if l == 9 {} else if l == 10 {} else if l == 11 {}
    else if l == 12 {} else if l == 13 {} else if l == 14 {} else if l == 15 {}
  }

  lemma {:induction false} RowCRight(l: bv8)
    requires l < 16
    ensures RowC(l) == ByteStep((0xC0 + l) as Crc)
  {
    if l == 0 {} else if l == 1 {} else if l == 2 {} else if l == 3 {} else if l == 4 {} else if l == 5 {}
    else if l == 6 {} else if l == 7 {} else if l == 8 {} else if l == 9 {} else if l == 10 {} else if l == 11 {}
    else if l == 12 {} else if l == 13 {} else if l == 14 {} else if l == 15 {}
  }

  lemma {:induction false} RowDRight(l: bv8)
    requires l < 16
    ensures RowD(l) == ByteStep((0xD0 + l) as Crc)
  {
    if l == 0 {} else if l == 1 {} else if l == 2 {} else if l == 3 {} else if l == 4 {} else if l == 5 {}
    else if l == 6 {} else if l == 7 {} else if l == 8 {} else if l == 9 {} else if l == 10 {} else if l == 11 {}
    else if l == 12 {} else if l == 13 {} else if l == 14 {} else if l == 15 {}
  }

  lemma {:induction false} RowERight(l: bv8)
    requires l < 16
    ensures RowE(l) == ByteStep((0xE0 + l) as Crc)
  {
    if l == 0 {} else if l == 1 {} else if l == 2 {} else if l == 3 {} else if l == 4 {} else if l == 5 {}
    else if l == 6 {} else if l == 7 {} else if l == 8 {} else if l == 9 {} else if l == 10 {} else if l == 11 {}
    else if l == 12 {} else if l == 13 {} else if l == 14 {} else if l == 15 {}
  }

  lemma {:induction false} RowFRight(l: bv8)
    requires l < 16
    ensures RowF(l) == ByteStep((0xF0 + l) as Crc)
  {
    if l == 0 {} else if l == 1 {} else if l == 2 {} else if l == 3 {} else if l == 4 {} else if l == 5 {}
    else if l == 6 {} else if l == 7 {} else if l == 8 {} else if l == 9 {} else if l == 10 {} else if l == 11 {}
    else if l == 12 {} else if l == 13 {} else if l == 14 {} else if l == 15 {}
  }

  lemma {:induction false} TableRight(i: Byte)
    ensures Table(i) == ByteStep(i as Crc)
  {
    hide ByteStep, Row0, Row1, Row2, Row3, Row4, Row5, Row6, Row7, Row8, Row9, RowA, RowB, RowC, RowD, RowE, RowF;
    var h, l := i >> 4, i & 15;
    Nibbles(i);
    if h == 0 {
      Row0Right(l);
    } else if h == 1 {
      Row1Right(l);
    } else if h == 2 {
      Row2Right(l);
    } else if h == 3 {
      Row3Right(l);
    } else if h == 4 {
      Row4Right(l);
    } else if h == 5 {
      Row5Right(l);
    } else if h == 6 {
      Row6Right(l);
    } else if h == 7 {
      Row7Right(l);
    } else if h == 8 {
      Row8Right(l);
    } else if h == 9 {
      Row9Right(l);
    } else if h == 10 {
      RowARight(l);
    } else if h == 11 {
      RowBRight(l);
    } else if h == 12 {
      RowCRight(l);
    } else if h == 13 {
      RowDRight(l);
    } else if h == 14 {
      RowERight(l);
    } else {
      RowFRight(l);
    }
  }

  lemma {:induction false} Nibbles(i: Byte)
    ensures i & 15 < 16 && i >> 4 < 16
    ensures i >> 4 == 0 ==> 0x00 + (i & 15) == i
    ensures i >> 4 == 1 ==> 0x10 + (i & 15) == i
    ensures i >> 4 == 2 ==> 0x20 + (i & 15) == i
    ensures i >> 4 == 3 ==> 0x30 + (i & 15) == i
    ensures i >> 4 == 4 ==> 0x40 + (i & 15) == i
    ensures i >> 4 == 5 ==> 0x50 + (i & 15) == i
    ensures i >> 4 == 6 ==> 0x60 + (i & 15) == i
    ensures i >> 4 == 7 ==> 0x70 + (i & 15) == i
    ensures i >> 4 == 8 ==> 0x80 + (i & 15) == i
    ensures i >> 4 == 9 ==> 0x90 + (i & 15) == i
    ensures i >> 4 == 10 ==> 0xA0 + (i & 15) == i
    ensures i >> 4 == 11 ==> 0xB0 + (i & 15) == i
    ensures i >> 4 == 12 ==> 0xC0 + (i & 15) == i
    ensures i >> 4 == 13 ==> 0xD0 + (i & 15) == i
    ensures i >> 4 == 14 ==> 0xE0 + (i & 15) == i
    ensures i >> 4 == 15 ==> 0xF0 + (i & 15) == i
  {
  }

  // ----- the step is linear -----

  lemma {:induction false} StepCases(c: Crc)
    ensures c & 1 == 1 ==> BitStep(c) == (c >> 1) ^ 0xedb8_8320
    ensures c & 1 != 1 ==> BitStep(c) == c >> 1
  {
  }

  lemma {:induction false} LinearRaw(a: Crc, b: Crc, x: Crc, y: Crc, z: Crc)
    requires a & 1 == 1 ==> x == (a >> 1) ^ 0xedb8_8320
    requires a & 1 != 1 ==> x == a >> 1
    requires b & 1 == 1 ==> y == (b >> 1) ^ 0xedb8_8320
    requires b & 1 != 1 ==> y == b >> 1
    requires (a ^ b) & 1 == 1 ==> z == ((a ^ b) >> 1) ^ 0xedb8_8320
    requires (a ^ b) & 1 != 1 ==> z == (a ^ b) >> 1
    ensures z == x ^ y
  {
    if a & 1 == 1 {
      if b & 1 == 1 {
      } else {
      }
    } else if b & 1 == 1 {
    } else {
    }
  }

  function Xor(a: Crc, b: Crc): Crc {
    a ^ b
  }

  lemma {:induction false} LinearBits(a: Crc, b: Crc)
    ensures BitStep(a ^ b) == BitStep(a) ^ BitStep(b)
  {
    hide BitStep;
    StepCases(a);
    StepCases(b);
    StepCases(a ^ b);
    LinearRaw(a, b, BitStep(a), BitStep(b), BitStep(a ^ b));
  }

  lemma {:induction false} Linear(a: Crc, b: Crc)
    ensures BitStep(Xor(a, b)) == Xor(BitStep(a), BitStep(b))
  {
    hide BitStep;
    LinearBits(a, b);
  }

  lemma {:induction false} ByteLinear(a: Crc, b: Crc)
    ensures ByteStep(Xor(a, b)) == Xor(ByteStep(a), ByteStep(b))
  {
    hide BitStep, Xor;
    var a1, b1 := BitStep(a), BitStep(b);
    Linear(a, b);
    var a2, b2 := BitStep(a1), BitStep(b1);
    Linear(a1, b1);
    var a3, b3 := BitStep(a2), BitStep(b2);
    Linear(a2, b2);
    var a4, b4 := BitStep(a3), BitStep(b3);
    Linear(a3, b3);
    var a5, b5 := BitStep(a4), BitStep(b4);
    Linear(a4, b4);
    var a6, b6 := BitStep(a5), BitStep(b5);
    Linear(a5, b5);
    var a7, b7 := BitStep(a6), BitStep(b6);
    Linear(a6, b6);
    Linear(a7, b7);
  }

  // ----- the checksum -----

  function LowByte(x: Crc): Byte {
    (x & 0xff) as Byte
  }

  function Upper(x: Crc): Crc {
    x & 0xffff_ff00
  }

  function Shift8(x: Crc): Crc {
    x >> 8
  }

  function Not(x: Crc): Crc {
    !x
  }

  /** One turn of the loop: the table step. */
  function TableStep(c: Crc, b: Byte): Crc {
    Xor(Table(LowByte(Xor(c, b as Crc))), Shift8(c))
  }

  predicate LowByteZero(h: Crc) {
    h & 0xff == 0
  }

  /** Eight steps on a value whose low byte is zero only shift it. */
  lemma {:induction false} HighPart(h: Crc)
    requires LowByteZero(h)
    ensures ByteStep(h) == Shift8(h)
  {
  }

  lemma {:induction false} Halves(x: Crc)
    ensures Xor(LowByte(x) as Crc, Upper(x)) == x && LowByteZero(Upper(x))
  {
  }

  /** A byte does not reach the upper part. */
  lemma {:induction false} UpperKept(c: Crc, b: Byte)
    ensures Shift8(Upper(Xor(c, b as Crc))) == Shift8(c)
  {
  }

  lemma {:induction false} UpperSteps(x: Crc)
    ensures ByteStep(Upper(x)) == Shift8(Upper(x))
  {
    hide *;
    Halves(x);
    HighPart(Upper(x));
  }

  /** The table step is eight single-bit steps. */
  lemma {:induction false} TableStepIsByteStep(c: Crc, b: Byte)
    ensures TableStep(c, b) == ByteStep(Xor(c, b as Crc))
  {
    hide ByteStep, Table, Xor, LowByte, Upper, Shift8;
    var x := Xor(c, b as Crc);
    Halves(x);
    TableRight(LowByte(x));
    ByteLinear(LowByte(x) as Crc, Upper(x));
    UpperSteps(x);
    UpperKept(c, b);
  }

  function Fold(c: Crc, buf: seq<Byte>): Crc {
    if buf == [] then c else TableStep(Fold(c, buf[..|buf| - 1]), buf[|buf| - 1])
  }

  /** gnu_debuglink_crc32. */
  function Crc32(crc: Crc, buf: seq<Byte>): Crc {
    Not(Fold(Not(crc), buf))
  }

  method ComputeCrc(crc: Crc, buf: seq<Byte>) returns (r: Crc)
    ensures r == Crc32(crc, buf)
  {
    hide TableStep, Not;
    r := Not(crc);
    assert buf[..0] == [];
    for i := 0 to |buf|
      invariant r == Fold(Not(crc), buf[..i])
    {
      assert buf[..i + 1][..i] == buf[..i];
      r := TableStep(r, buf[i]);
    }
    assert buf[..|buf|] == buf;
    r := Not(r);
  }

  lemma {:induction false} FoldConcat(c: Crc, a: seq<Byte>, b: seq<Byte>)
    ensures Fold(c, a + b) == Fold(Fold(c, a), b)
  {
    hide TableStep;
    if b == [] {
      assert a + b == a;
    } else {
      var n := |b| - 1;
      assert (a + b)[..|a + b| - 1] == a + b[..n];
      FoldConcat(c, a, b[..n]);
    }
  }

  /** Feeding two chunks one after the other is feeding their concatenation. */
  lemma {:induction false} CrcConcat(crc: Crc, a: seq<Byte>, b: seq<Byte>)
    ensures Crc32(Crc32(crc, a), b) == Crc32(crc, a + b)
  {
    hide Fold, Not;
    FoldConcat(Not(crc), a, b);
    NotNot(Fold(Not(crc), a));
  }

  lemma {:induction false} NotNot(x: Crc)
    ensures Not(Not(x)) == x
  {
  }

  function Concat(chunks: seq<seq<Byte>>): seq<Byte> {
    if chunks == [] then [] else Concat(chunks[..|chunks| - 1]) + chunks[|chunks| - 1]
  }

  /** The loop of open_debug_file, for chunks of any sizes. */
  method FileCrc(chunks: seq<seq<Byte>>) returns (crc: Crc)
    ensures crc == Crc32(0, Concat(chunks))
  {
    crc := 0;
    assert chunks[..0] == [];
    EmptyCrc();
    hide Crc32;
    for i := 0 to |chunks|
      invariant crc == Crc32(0, Concat(chunks[..i]))
    {
      assert chunks[..i + 1][..i] == chunks[..i];
      CrcConcat(0, Concat(chunks[..i]), chunks[i]);
      crc := ComputeCrc(crc, chunks[i]);
    }
    assert chunks[..|chunks|] == chunks;
  }

  lemma {:induction false} EmptyCrc()
    ensures Crc32(0, []) == 0
  {
  }

  // ----- bit-serial -----

  /** The bit-serial form: every byte is added and followed by eight steps. */
  function Serial(c: Crc, buf: seq<Byte>): Crc {
    if buf == [] then c else ByteStep(Xor(Serial(c, buf[..|buf| - 1]), buf[|buf| - 1] as Crc))
  }

  lemma {:induction false} FoldIsSerial(c: Crc, buf: seq<Byte>)
    ensures Fold(c, buf) == Serial(c, buf)
  {
    hide TableStep, ByteStep, Xor;
    if buf != [] {
      var n := |buf| - 1;
      FoldIsSerial(c, buf[..n]);
      TableStepIsByteStep(Fold(c, buf[..n]), buf[n]);
    }
  }

  /** The checksum is the bit-serial CRC-32 of every byte sequence. */
  lemma {:induction false} CrcIsSerial(buf: seq<Byte>)
    ensures Crc32(0, buf) == Not(Serial(0xffff_ffff, buf))
  {
    hide Fold, Serial;
    FoldIsSerial(0xffff_ffff, buf);
    assert Not(0) == 0xffff_ffff;
  }
}
