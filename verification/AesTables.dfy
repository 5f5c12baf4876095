/** The two AES substitution tables, as decisions on the bits of the byte looked up, from the highest. */
module AesTables {
  import opened Gf256

  function Bits(v: bv8): Byte {
    Byte(v & 0x80 != 0, v & 0x40 != 0, v & 0x20 != 0, v & 0x10 != 0,
         v & 0x08 != 0, v & 0x04 != 0, v & 0x02 != 0, v & 0x01 != 0)
  }

  function Word(x: Byte): bv8 {
    (if x.b7 then 0x80 else 0) | (if x.b6 then 0x40 else 0) | (if x.b5 then 0x20 else 0) | (if x.b4 then 0x10 else 0)
    | (if x.b3 then 0x08 else 0) | (if x.b2 then 0x04 else 0) | (if x.b1 then 0x02 else 0) | (if x.b0 then 0x01 else 0)
  }

  lemma WordOfBits(v: bv8)
    ensures Word(Bits(v)) == v
  {
  }

  lemma BitsOfWord(x: Byte)
    ensures Bits(Word(x)) == x
  {
  }

  function SboxAt(x: bv8): bv8 {
    if x & 0x80 == 0 then (
      if x & 0x40 == 0 then (
        if x & 0x20 == 0 then (
          if x & 0x10 == 0 then (
            if x & 0x08 == 0 then (
              if x & 0x04 == 0 then (
                if x & 0x02 == 0 then (if x & 0x01 == 0 then 0x63 else 0x7c) else if x & 0x01 == 0 then 0x77 else 0x7b
              ) else
                if x & 0x02 == 0 then (if x & 0x01 == 0 then 0xf2 else 0x6b) else if x & 0x01 == 0 then 0x6f else 0xc5
            ) else
              if x & 0x04 == 0 then (
                if x & 0x02 == 0 then (if x & 0x01 == 0 then 0x30 else 0x01) else if x & 0x01 == 0 then 0x67 else 0x2b
              ) else
                if x & 0x02 == 0 then (if x & 0x01 == 0 then 0xfe else 0xd7) else if x & 0x01 == 0 then 0xab else 0x76
          ) else
            if x & 0x08 == 0 then (
              if x & 0x04 == 0 then (
                if x & 0x02 == 0 then (if x & 0x01 == 0 then 0xca else 0x82) else if x & 0x01 == 0 then 0xc9 else 0x7d
              ) else
                if x & 0x02 == 0 then (if x & 0x01 == 0 then 0xfa else 0x59) else if x & 0x01 == 0 then 0x47 else 0xf0
            ) else
              if x & 0x04 == 0 then (
                if x & 0x02 == 0 then (if x & 0x01 == 0 then 0xad else 0xd4) else if x & 0x01 == 0 then 0xa2 else 0xaf
              ) else
                if x & 0x02 == 0 then (if x & 0x01 == 0 then 0x9c else 0xa4) else if x & 0x01 == 0 then 0x72 else 0xc0
        ) else
          if x & 0x10 == 0 then (
            if x & 0x08 == 0 then (
              if x & 0x04 == 0 then (
                if x & 0x02 == 0 then (if x & 0x01 == 0 then 0xb7 else 0xfd) else if x & 0x01 == 0 then 0x93 else 0x26
              ) else
                if x & 0x02 == 0 then (if x & 0x01 == 0 then 0x36 else 0x3f) else if x & 0x01 == 0 then 0xf7 else 0xcc
            ) else
              if x & 0x04 == 0 then (
                if x & 0x02 == 0 then (if x & 0x01 == 0 then 0x34 else 0xa5) else if x & 0x01 == 0 then 0xe5 else 0xf1
              ) else
                if x & 0x02 == 0 then (if x & 0x01 == 0 then 0x71 else 0xd8) else if x & 0x01 == 0 then 0x31 else 0x15
          ) else
            if x & 0x08 == 0 then (
              if x & 0x04 == 0 then (
                if x & 0x02 == 0 then (if x & 0x01 == 0 then 0x04 else 0xc7) else if x & 0x01 == 0 then 0x23 else 0xc3
              ) else
                if x & 0x02 == 0 then (if x & 0x01 == 0 then 0x18 else 0x96) else if x & 0x01 == 0 then 0x05 else 0x9a
            ) else
              if x & 0x04 == 0 then (
                if x & 0x02 == 0 then (if x & 0x01 == 0 then 0x07 else 0x12) else if x & 0x01 == 0 then 0x80 else 0xe2
              ) else
                if x & 0x02 == 0 then (if x & 0x01 == 0 then 0xeb else 0x27) else if x & 0x01 == 0 then 0xb2 else 0x75
      ) else
        if x & 0x20 == 0 then (
          if x & 0x10 == 0 then (
            if x & 0x08 == 0 then (
              if x & 0x04 == 0 then (
                if x & 0x02 == 0 then (if x & 0x01 == 0 then 0x09 else 0x83) else if x & 0x01 == 0 then 0x2c else 0x1a
              ) else
                if x & 0x02 == 0 then (if x & 0x01 == 0 then 0x1b else 0x6e) else if x & 0x01 == 0 then 0x5a else 0xa0
            ) else
              if x & 0x04 == 0 then (
                if x & 0x02 == 0 then (if x & 0x01 == 0 then 0x52 else 0x3b) else if x & 0x01 == 0 then 0xd6 else 0xb3
              ) else
                if x & 0x02 == 0 then (if x & 0x01 == 0 then 0x29 else 0xe3) else if x & 0x01 == 0 then 0x2f else 0x84
          ) else
            if x & 0x08 == 0 then (
              if x & 0x04 == 0 then (
                if x & 0x02 == 0 then (if x & 0x01 == 0 then 0x53 else 0xd1) else if x & 0x01 == 0 then 0x00 else 0xed
              ) else
                if x & 0x02 == 0 then (if x & 0x01 == 0 then 0x20 else 0xfc) else if x & 0x01 == 0 then 0xb1 else 0x5b
            ) else
              if x & 0x04 == 0 then (
                if x & 0x02 == 0 then (if x & 0x01 == 0 then 0x6a else 0xcb) else if x & 0x01 == 0 then 0xbe else 0x39
              ) else
                if x & 0x02 == 0 then (if x & 0x01 == 0 then 0x4a else 0x4c) else if x & 0x01 == 0 then 0x58 else 0xcf
        ) else
          if x & 0x10 == 0 then (
            if x & 0x08 == 0 then (
              if x & 0x04 == 0 then (
                if x & 0x02 == 0 then (if x & 0x01 == 0 then 0xd0 else 0xef) else if x & 0x01 == 0 then 0xaa else 0xfb
              ) else
                if x & 0x02 == 0 then (if x & 0x01 == 0 then 0x43 else 0x4d) else if x & 0x01 == 0 then 0x33 else 0x85
            ) else
              if x & 0x04 == 0 then (
                if x & 0x02 == 0 then (if x & 0x01 == 0 then 0x45 else 0xf9) else if x & 0x01 == 0 then 0x02 else 0x7f
              ) else
                if x & 0x02 == 0 then (if x & 0x01 == 0 then 0x50 else 0x3c) else if x & 0x01 == 0 then 0x9f else 0xa8
          ) else
            if x & 0x08 == 0 then (
              if x & 0x04 == 0 then (
                if x & 0x02 == 0 then (if x & 0x01 == 0 then 0x51 else 0xa3) else if x & 0x01 == 0 then 0x40 else 0x8f
              ) else
                if x & 0x02 == 0 then (if x & 0x01 == 0 then 0x92 else 0x9d) else if x & 0x01 == 0 then 0x38 else 0xf5
            ) else
              if x & 0x04 == 0 then (
                if x & 0x02 == 0 then (if x & 0x01 == 0 then 0xbc else 0xb6) else if x & 0x01 == 0 then 0xda else 0x21
              ) else
                if x & 0x02 == 0 then (if x & 0x01 == 0 then 0x10 else 0xff) else if x & 0x01 == 0 then 0xf3 else 0xd2
    ) else
      if x & 0x40 == 0 then (
        if x & 0x20 == 0 then (
          if x & 0x10 == 0 then (
            if x & 0x08 == 0 then (
              if x & 0x04 == 0 then (
                if x & 0x02 == 0 then (if x & 0x01 == 0 then 0xcd else 0x0c) else if x & 0x01 == 0 then 0x13 else 0xec
              ) else
                if x & 0x02 == 0 then (if x & 0x01 == 0 then 0x5f else 0x97) else if x & 0x01 == 0 then 0x44 else 0x17
            ) else
              if x & 0x04 == 0 then (
                if x & 0x02 == 0 then (if x & 0x01 == 0 then 0xc4 else 0xa7) else if x & 0x01 == 0 then 0x7e else 0x3d
              ) else
                if x & 0x02 == 0 then (if x & 0x01 == 0 then 0x64 else 0x5d) else if x & 0x01 == 0 then 0x19 else 0x73
          ) else
            if x & 0x08 == 0 then (
              if x & 0x04 == 0 then (
                if x & 0x02 == 0 then (if x & 0x01 == 0 then 0x60 else 0x81) else if x & 0x01 == 0 then 0x4f else 0xdc
              ) else
                if x & 0x02 == 0 then (if x & 0x01 == 0 then 0x22 else 0x2a) else if x & 0x01 == 0 then 0x90 else 0x88
            ) else
              if x & 0x04 == 0 then (
                if x & 0x02 == 0 then (if x & 0x01 == 0 then 0x46 else 0xee) else if x & 0x01 == 0 then 0xb8 else 0x14
              ) else
                if x & 0x02 == 0 then (if x & 0x01 == 0 then 0xde else 0x5e) else if x & 0x01 == 0 then 0x0b else 0xdb
        ) else
          if x & 0x10 == 0 then (
            if x & 0x08 == 0 then (
              if x & 0x04 == 0 then (
                if x & 0x02 == 0 then (if x & 0x01 == 0 then 0xe0 else 0x32) else if x & 0x01 == 0 then 0x3a else 0x0a
              ) else
                if x & 0x02 == 0 then (if x & 0x01 == 0 then 0x49 else 0x06) else if x & 0x01 == 0 then 0x24 else 0x5c
            ) else
              if x & 0x04 == 0 then (
                if x & 0x02 == 0 then (if x & 0x01 == 0 then 0xc2 else 0xd3) else if x & 0x01 == 0 then 0xac else 0x62
              ) else
                if x & 0x02 == 0 then (if x & 0x01 == 0 then 0x91 else 0x95) else if x & 0x01 == 0 then 0xe4 else 0x79
          ) else
            if x & 0x08 == 0 then (
              if x & 0x04 == 0 then (
                if x & 0x02 == 0 then (if x & 0x01 == 0 then 0xe7 else 0xc8) else if x & 0x01 == 0 then 0x37 else 0x6d
              ) else
                if x & 0x02 == 0 then (if x & 0x01 == 0 then 0x8d else 0xd5) else if x & 0x01 == 0 then 0x4e else 0xa9
            ) else
              if x & 0x04 == 0 then (
                if x & 0x02 == 0 then (if x & 0x01 == 0 then 0x6c else 0x56) else if x & 0x01 == 0 then 0xf4 else 0xea
              ) else
                if x & 0x02 == 0 then (if x & 0x01 == 0 then 0x65 else 0x7a) else if x & 0x01 == 0 then 0xae else 0x08
      ) else
        if x & 0x20 == 0 then (
          if x & 0x10 == 0 then (
            if x & 0x08 == 0 then (
              if x & 0x04 == 0 then (
                if x & 0x02 == 0 then (if x & 0x01 == 0 then 0xba else 0x78) else if x & 0x01 == 0 then 0x25 else 0x2e
              ) else
                if x & 0x02 == 0 then (if x & 0x01 == 0 then 0x1c else 0xa6) else if x & 0x01 == 0 then 0xb4 else 0xc6
            ) else
              if x & 0x04 == 0 then (
                if x & 0x02 == 0 then (if x & 0x01 == 0 then 0xe8 else 0xdd) else if x & 0x01 == 0 then 0x74 else 0x1f
              ) else
                if x & 0x02 == 0 then (if x & 0x01 == 0 then 0x4b else 0xbd) else if x & 0x01 == 0 then 0x8b else 0x8a
          ) else
            if x & 0x08 == 0 then (
              if x & 0x04 == 0 then (
                if x & 0x02 == 0 then (if x & 0x01 == 0 then 0x70 else 0x3e) else if x & 0x01 == 0 then 0xb5 else 0x66
              ) else
                if x & 0x02 == 0 then (if x & 0x01 == 0 then 0x48 else 0x03) else if x & 0x01 == 0 then 0xf6 else 0x0e
            ) else
              if x & 0x04 == 0 then (
                if x & 0x02 == 0 then (if x & 0x01 == 0 then 0x61 else 0x35) else if x & 0x01 == 0 then 0x57 else 0xb9
              ) else
                if x & 0x02 == 0 then (if x & 0x01 == 0 then 0x86 else 0xc1) else if x & 0x01 == 0 then 0x1d else 0x9e
        ) else
          if x & 0x10 == 0 then (
            if x & 0x08 == 0 then (
              if x & 0x04 == 0 then (
                if x & 0x02 == 0 then (if x & 0x01 == 0 then 0xe1 else 0xf8) else if x & 0x01 == 0 then 0x98 else 0x11
              ) else
                if x & 0x02 == 0 then (if x & 0x01 == 0 then 0x69 else 0xd9) else if x & 0x01 == 0 then 0x8e else 0x94
            ) else
              if x & 0x04 == 0 then (
                if x & 0x02 == 0 then (if x & 0x01 == 0 then 0x9b else 0x1e) else if x & 0x01 == 0 then 0x87 else 0xe9
              ) else
                if x & 0x02 == 0 then (if x & 0x01 == 0 then 0xce else 0x55) else if x & 0x01 == 0 then 0x28 else 0xdf
          ) else
            if x & 0x08 == 0 then (
              if x & 0x04 == 0 then (
                if x & 0x02 == 0 then (if x & 0x01 == 0 then 0x8c else 0xa1) else if x & 0x01 == 0 then 0x89 else 0x0d
              ) else
                if x & 0x02 == 0 then (if x & 0x01 == 0 then 0xbf else 0xe6) else if x & 0x01 == 0 then 0x42 else 0x68
            ) else
              if x & 0x04 == 0 then (
                if x & 0x02 == 0 then (if x & 0x01 == 0 then 0x41 else 0x99) else if x & 0x01 == 0 then 0x2d else 0x0f
              ) else
                if x & 0x02 == 0 then (if x & 0x01 == 0 then 0xb0 else 0x54) else if x & 0x01 == 0 then 0xbb else 0x16
  }

  function InvSboxAt(x: bv8): bv8 {
    if x & 0x80 == 0 then (
      if x & 0x40 == 0 then (
        if x & 0x20 == 0 then (
          if x & 0x10 == 0 then (
            if x & 0x08 == 0 then (
              if x & 0x04 == 0 then (
                if x & 0x02 == 0 then (if x & 0x01 == 0 then 0x52 else 0x09) else if x & 0x01 == 0 then 0x6a else 0xd5
              ) else
                if x & 0x02 == 0 then (if x & 0x01 == 0 then 0x30 else 0x36) else if x & 0x01 == 0 then 0xa5 else 0x38
            ) else
              if x & 0x04 == 0 then (
                if x & 0x02 == 0 then (if x & 0x01 == 0 then 0xbf else 0x40) else if x & 0x01 == 0 then 0xa3 else 0x9e
              ) else
                if x & 0x02 == 0 then (if x & 0x01 == 0 then 0x81 else 0xf3) else if x & 0x01 == 0 then 0xd7 else 0xfb
          ) else
            if x & 0x08 == 0 then (
              if x & 0x04 == 0 then (
                if x & 0x02 == 0 then (if x & 0x01 == 0 then 0x7c else 0xe3) else if x & 0x01 == 0 then 0x39 else 0x82
              ) else
                if x & 0x02 == 0 then (if x & 0x01 == 0 then 0x9b else 0x2f) else if x & 0x01 == 0 then 0xff else 0x87
            ) else
              if x & 0x04 == 0 then (
                if x & 0x02 == 0 then (if x & 0x01 == 0 then 0x34 else 0x8e) else if x & 0x01 == 0 then 0x43 else 0x44
              ) else
                if x & 0x02 == 0 then (if x & 0x01 == 0 then 0xc4 else 0xde) else if x & 0x01 == 0 then 0xe9 else 0xcb
        ) else
          if x & 0x10 == 0 then (
            if x & 0x08 == 0 then (
              if x & 0x04 == 0 then (
                if x & 0x02 == 0 then (if x & 0x01 == 0 then 0x54 else 0x7b) else if x & 0x01 == 0 then 0x94 else 0x32
              ) else
                if x & 0x02 == 0 then (if x & 0x01 == 0 then 0xa6 else 0xc2) else if x & 0x01 == 0 then 0x23 else 0x3d
            ) else
              if x & 0x04 == 0 then (
                if x & 0x02 == 0 then (if x & 0x01 == 0 then 0xee else 0x4c) else if x & 0x01 == 0 then 0x95 else 0x0b
              ) else
                if x & 0x02 == 0 then (if x & 0x01 == 0 then 0x42 else 0xfa) else if x & 0x01 == 0 then 0xc3 else 0x4e
          ) else
            if x & 0x08 == 0 then (
              if x & 0x04 == 0 then (
                if x & 0x02 == 0 then (if x & 0x01 == 0 then 0x08 else 0x2e) else if x & 0x01 == 0 then 0xa1 else 0x66
              ) else
                if x & 0x02 == 0 then (if x & 0x01 == 0 then 0x28 else 0xd9) else if x & 0x01 == 0 then 0x24 else 0xb2
            ) else
              if x & 0x04 == 0 then (
                if x & 0x02 == 0 then (if x & 0x01 == 0 then 0x76 else 0x5b) else if x & 0x01 == 0 then 0xa2 else 0x49
              ) else
                if x & 0x02 == 0 then (if x & 0x01 == 0 then 0x6d else 0x8b) else if x & 0x01 == 0 then 0xd1 else 0x25
      ) else
        if x & 0x20 == 0 then (
          if x & 0x10 == 0 then (
            if x & 0x08 == 0 then (
              if x & 0x04 == 0 then (
                if x & 0x02 == 0 then (if x & 0x01 == 0 then 0x72 else 0xf8) else if x & 0x01 == 0 then 0xf6 else 0x64
              ) else
                if x & 0x02 == 0 then (if x & 0x01 == 0 then 0x86 else 0x68) else if x & 0x01 == 0 then 0x98 else 0x16
            ) else
              if x & 0x04 == 0 then (
                if x & 0x02 == 0 then (if x & 0x01 == 0 then 0xd4 else 0xa4) else if x & 0x01 == 0 then 0x5c else 0xcc
              ) else
                if x & 0x02 == 0 then (if x & 0x01 == 0 then 0x5d else 0x65) else if x & 0x01 == 0 then 0xb6 else 0x92
          ) else
            if x & 0x08 == 0 then (
              if x & 0x04 == 0 then (
                if x & 0x02 == 0 then (if x & 0x01 == 0 then 0x6c else 0x70) else if x & 0x01 == 0 then 0x48 else 0x50
              ) else
                if x & 0x02 == 0 then (if x & 0x01 == 0 then 0xfd else 0xed) else if x & 0x01 == 0 then 0xb9 else 0xda
            ) else
              if x & 0x04 == 0 then (
                if x & 0x02 == 0 then (if x & 0x01 == 0 then 0x5e else 0x15) else if x & 0x01 == 0 then 0x46 else 0x57
              ) else
                if x & 0x02 == 0 then (if x & 0x01 == 0 then 0xa7 else 0x8d) else if x & 0x01 == 0 then 0x9d else 0x84
        ) else
          if x & 0x10 == 0 then (
            if x & 0x08 == 0 then (
              if x & 0x04 == 0 then (
                if x & 0x02 == 0 then (if x & 0x01 == 0 then 0x90 else 0xd8) else if x & 0x01 == 0 then 0xab else 0x00
              ) else
                if x & 0x02 == 0 then (if x & 0x01 == 0 then 0x8c else 0xbc) else if x & 0x01 == 0 then 0xd3 else 0x0a
            ) else
              if x & 0x04 == 0 then (
                if x & 0x02 == 0 then (if x & 0x01 == 0 then 0xf7 else 0xe4) else if x & 0x01 == 0 then 0x58 else 0x05
              ) else
                if x & 0x02 == 0 then (if x & 0x01 == 0 then 0xb8 else 0xb3) else if x & 0x01 == 0 then 0x45 else 0x06
          ) else
            if x & 0x08 == 0 then (
              if x & 0x04 == 0 then (
                if x & 0x02 == 0 then (if x & 0x01 == 0 then 0xd0 else 0x2c) else if x & 0x01 == 0 then 0x1e else 0x8f
              ) else
                if x & 0x02 == 0 then (if x & 0x01 == 0 then 0xca else 0x3f) else if x & 0x01 == 0 then 0x0f else 0x02
            ) else
              if x & 0x04 == 0 then (
                if x & 0x02 == 0 then (if x & 0x01 == 0 then 0xc1 else 0xaf) else if x & 0x01 == 0 then 0xbd else 0x03
              ) else
                if x & 0x02 == 0 then (if x & 0x01 == 0 then 0x01 else 0x13) else if x & 0x01 == 0 then 0x8a else 0x6b
    ) else
      if x & 0x40 == 0 then (
        if x & 0x20 == 0 then (
          if x & 0x10 == 0 then (
            if x & 0x08 == 0 then (
              if x & 0x04 == 0 then (
                if x & 0x02 == 0 then (if x & 0x01 == 0 then 0x3a else 0x91) else if x & 0x01 == 0 then 0x11 else 0x41
              ) else
                if x & 0x02 == 0 then (if x & 0x01 == 0 then 0x4f else 0x67) else if x & 0x01 == 0 then 0xdc else 0xea
            ) else
              if x & 0x04 == 0 then (
                if x & 0x02 == 0 then (if x & 0x01 == 0 then 0x97 else 0xf2) else if x & 0x01 == 0 then 0xcf else 0xce
              ) else
                if x & 0x02 == 0 then (if x & 0x01 == 0 then 0xf0 else 0xb4) else if x & 0x01 == 0 then 0xe6 else 0x73
          ) else
            if x & 0x08 == 0 then (
              if x & 0x04 == 0 then (
                if x & 0x02 == 0 then (if x & 0x01 == 0 then 0x96 else 0xac) else if x & 0x01 == 0 then 0x74 else 0x22
              ) else
                if x & 0x02 == 0 then (if x & 0x01 == 0 then 0xe7 else 0xad) else if x & 0x01 == 0 then 0x35 else 0x85
            ) else
              if x & 0x04 == 0 then (
                if x & 0x02 == 0 then (if x & 0x01 == 0 then 0xe2 else 0xf9) else if x & 0x01 == 0 then 0x37 else 0xe8
              ) else
                if x & 0x02 == 0 then (if x & 0x01 == 0 then 0x1c else 0x75) else if x & 0x01 == 0 then 0xdf else 0x6e
        ) else
          if x & 0x10 == 0 then (
            if x & 0x08 == 0 then (
              if x & 0x04 == 0 then (
                if x & 0x02 == 0 then (if x & 0x01 == 0 then 0x47 else 0xf1) else if x & 0x01 == 0 then 0x1a else 0x71
              ) else
                if x & 0x02 == 0 then (if x & 0x01 == 0 then 0x1d else 0x29) else if x & 0x01 == 0 then 0xc5 else 0x89
            ) else
              if x & 0x04 == 0 then (
                if x & 0x02 == 0 then (if x & 0x01 == 0 then 0x6f else 0xb7) else if x & 0x01 == 0 then 0x62 else 0x0e
              ) else
                if x & 0x02 == 0 then (if x & 0x01 == 0 then 0xaa else 0x18) else if x & 0x01 == 0 then 0xbe else 0x1b
          ) else
            if x & 0x08 == 0 then (
              if x & 0x04 == 0 then (
                if x & 0x02 == 0 then (if x & 0x01 == 0 then 0xfc else 0x56) else if x & 0x01 == 0 then 0x3e else 0x4b
              ) else
                if x & 0x02 == 0 then (if x & 0x01 == 0 then 0xc6 else 0xd2) else if x & 0x01 == 0 then 0x79 else 0x20
            ) else
              if x & 0x04 == 0 then (
                if x & 0x02 == 0 then (if x & 0x01 == 0 then 0x9a else 0xdb) else if x & 0x01 == 0 then 0xc0 else 0xfe
              ) else
                if x & 0x02 == 0 then (if x & 0x01 == 0 then 0x78 else 0xcd) else if x & 0x01 == 0 then 0x5a else 0xf4
      ) else
        if x & 0x20 == 0 then (
          if x & 0x10 == 0 then (
            if x & 0x08 == 0 then (
              if x & 0x04 == 0 then (
                if x & 0x02 == 0 then (if x & 0x01 == 0 then 0x1f else 0xdd) else if x & 0x01 == 0 then 0xa8 else 0x33
              ) else
                if x & 0x02 == 0 then (if x & 0x01 == 0 then 0x88 else 0x07) else if x & 0x01 == 0 then 0xc7 else 0x31
            ) else
              if x & 0x04 == 0 then (
                if x & 0x02 == 0 then (if x & 0x01 == 0 then 0xb1 else 0x12) else if x & 0x01 == 0 then 0x10 else 0x59
              ) else
                if x & 0x02 == 0 then (if x & 0x01 == 0 then 0x27 else 0x80) else if x & 0x01 == 0 then 0xec else 0x5f
          ) else
            if x & 0x08 == 0 then (
              if x & 0x04 == 0 then (
                if x & 0x02 == 0 then (if x & 0x01 == 0 then 0x60 else 0x51) else if x & 0x01 == 0 then 0x7f else 0xa9
              ) else
                if x & 0x02 == 0 then (if x & 0x01 == 0 then 0x19 else 0xb5) else if x & 0x01 == 0 then 0x4a else 0x0d
            ) else
              if x & 0x04 == 0 then (
                if x & 0x02 == 0 then (if x & 0x01 == 0 then 0x2d else 0xe5) else if x & 0x01 == 0 then 0x7a else 0x9f
              ) else
                if x & 0x02 == 0 then (if x & 0x01 == 0 then 0x93 else 0xc9) else if x & 0x01 == 0 then 0x9c else 0xef
        ) else
          if x & 0x10 == 0 then (
            if x & 0x08 == 0 then (
              if x & 0x04 == 0 then (
                if x & 0x02 == 0 then (if x & 0x01 == 0 then 0xa0 else 0xe0) else if x & 0x01 == 0 then 0x3b else 0x4d
              ) else
                if x & 0x02 == 0 then (if x & 0x01 == 0 then 0xae else 0x2a) else if x & 0x01 == 0 then 0xf5 else 0xb0
            ) else
              if x & 0x04 == 0 then (
                if x & 0x02 == 0 then (if x & 0x01 == 0 then 0xc8 else 0xeb) else if x & 0x01 == 0 then 0xbb else 0x3c
              ) else
                if x & 0x02 == 0 then (if x & 0x01 == 0 then 0x83 else 0x53) else if x & 0x01 == 0 then 0x99 else 0x61
          ) else
            if x & 0x08 == 0 then (
              if x & 0x04 == 0 then (
                if x & 0x02 == 0 then (if x & 0x01 == 0 then 0x17 else 0x2b) else if x & 0x01 == 0 then 0x04 else 0x7e
              ) else
                if x & 0x02 == 0 then (if x & 0x01 == 0 then 0xba else 0x77) else if x & 0x01 == 0 then 0xd6 else 0x26
            ) else
              if x & 0x04 == 0 then (
                if x & 0x02 == 0 then (if x & 0x01 == 0 then 0xe1 else 0x69) else if x & 0x01 == 0 then 0x14 else 0x63
              ) else
                if x & 0x02 == 0 then (if x & 0x01 == 0 then 0x55 else 0x21) else if x & 0x01 == 0 then 0x0c else 0x7d
  }

  lemma TablesInverse(x: bv8)
    ensures InvSboxAt(SboxAt(x)) == x
  {
  }

  lemma TablesInverseBack(x: bv8)
    ensures SboxAt(InvSboxAt(x)) == x
  {
  }

  function Sbox(x: Byte): Byte { Bits(SboxAt(Word(x))) }
  function InvSbox(x: Byte): Byte { Bits(InvSboxAt(Word(x))) }

  lemma SboxInverse(x: Byte)
    ensures InvSbox(Sbox(x)) == x
  {
    WordOfBits(SboxAt(Word(x)));
    TablesInverse(Word(x));
    BitsOfWord(x);
  }

  // ---- the table is the S-box of section 5.1.1 of FIPS 197 ----

  function Five(p: bool, q: bool, r: bool, s: bool, t: bool, c: bool): bool { ((p != q) != (r != s)) != (t != c) }

  /** Equation 5.1: bit i is b_i + b_(i+4) + b_(i+5) + b_(i+6) + b_(i+7) + c_i, indices modulo 8, c being 0x63. */
  function Affine(b: Byte): Byte {
    Byte(Five(b.b7, b.b3, b.b4, b.b5, b.b6, false),
         Five(b.b6, b.b2, b.b3, b.b4, b.b5, true),
         Five(b.b5, b.b1, b.b2, b.b3, b.b4, true),
         Five(b.b4, b.b0, b.b1, b.b2, b.b3, false),
         Five(b.b3, b.b7, b.b0, b.b1, b.b2, false),
         Five(b.b2, b.b6, b.b7, b.b0, b.b1, false),
         Five(b.b1, b.b5, b.b6, b.b7, b.b0, true),
         Five(b.b0, b.b4, b.b5, b.b6, b.b7, true))
  }

  /** The affine map's inverse, by rotations. */
  function Unaffine(s: bv8): bv8 { (s.RotateLeft(1) ^ s.RotateLeft(3)) ^ (s.RotateLeft(6) ^ 0x05) }

  function Rotated1(b: Byte): Byte { Byte(b.b6, b.b5, b.b4, b.b3, b.b2, b.b1, b.b0, b.b7) }
  function Rotated3(b: Byte): Byte { Byte(b.b4, b.b3, b.b2, b.b1, b.b0, b.b7, b.b6, b.b5) }
  function Rotated6(b: Byte): Byte { Byte(b.b1, b.b0, b.b7, b.b6, b.b5, b.b4, b.b3, b.b2) }

  const FIVE := Byte(false, false, false, false, false, true, false, true)

  function UnaffineBit(p: bool, q: bool, r: bool, d: bool): bool { (p != q) != (r != d) }

  function UnaffineByte(b: Byte): Byte { Xor(Xor(Rotated1(b), Rotated3(b)), Xor(Rotated6(b), FIVE)) }

  /** One bit of the affine map after its inverse: p0 to p7 are the bits from that one on, going round. */
  lemma AffineInverseBit(p0: bool, p1: bool, p2: bool, p3: bool, p4: bool, p5: bool, p6: bool, p7: bool,
                         d0: bool, d4: bool, d5: bool, d6: bool, d7: bool)
    ensures Five(UnaffineBit(p7, p5, p2, d0), UnaffineBit(p3, p1, p6, d4), UnaffineBit(p4, p2, p7, d5),
                 UnaffineBit(p5, p3, p0, d6), UnaffineBit(p6, p4, p1, d7), Five(d0, d4, d5, d6, d7, false)) == p0
  {
  }

  lemma UnaffineHigh(b: Byte)
    ensures UnaffineByte(b).b7 == UnaffineBit(b.b6, b.b4, b.b1, false)
    ensures UnaffineByte(b).b6 == UnaffineBit(b.b5, b.b3, b.b0, false)
  {
  }

  lemma UnaffineMiddle(b: Byte)
    ensures UnaffineByte(b).b5 == UnaffineBit(b.b4, b.b2, b.b7, false)
    ensures UnaffineByte(b).b4 == UnaffineBit(b.b3, b.b1, b.b6, false)
  {
  }

  lemma UnaffineLow(b: Byte)
    ensures UnaffineByte(b).b3 == UnaffineBit(b.b2, b.b0, b.b5, false)
    ensures UnaffineByte(b).b2 == UnaffineBit(b.b1, b.b7, b.b4, true)
    ensures UnaffineByte(b).b1 == UnaffineBit(b.b0, b.b6, b.b3, false)
    ensures UnaffineByte(b).b0 == UnaffineBit(b.b7, b.b5, b.b2, true)
  {
  }

  lemma AffineFromBits(b: Byte, u: Byte)
    requires u.b7 == UnaffineBit(b.b6, b.b4, b.b1, false) && u.b6 == UnaffineBit(b.b5, b.b3, b.b0, false)
    requires u.b5 == UnaffineBit(b.b4, b.b2, b.b7, false) && u.b4 == UnaffineBit(b.b3, b.b1, b.b6, false)
    requires u.b3 == UnaffineBit(b.b2, b.b0, b.b5, false) && u.b2 == UnaffineBit(b.b1, b.b7, b.b4, true)
    requires u.b1 == UnaffineBit(b.b0, b.b6, b.b3, false) && u.b0 == UnaffineBit(b.b7, b.b5, b.b2, true)
    ensures Affine(u) == b
  {
    AffineInverseBit(b.b7, b.b0, b.b1, b.b2, b.b3, b.b4, b.b5, b.b6, false, false, false, false, false);
    AffineInverseBit(b.b6, b.b7, b.b0, b.b1, b.b2, b.b3, b.b4, b.b5, false, true, false, false, false);
    AffineInverseBit(b.b5, b.b6, b.b7, b.b0, b.b1, b.b2, b.b3, b.b4, false, false, true, false, false);
    AffineInverseBit(b.b4, b.b5, b.b6, b.b7, b.b0, b.b1, b.b2, b.b3, false, true, false, true, false);
    AffineInverseBit(b.b3, b.b4, b.b5, b.b6, b.b7, b.b0, b.b1, b.b2, false, false, true, false, true);
    AffineInverseBit(b.b2, b.b3, b.b4, b.b5, b.b6, b.b7, b.b0, b.b1, true, false, false, true, false);
    AffineInverseBit(b.b1, b.b2, b.b3, b.b4, b.b5, b.b6, b.b7, b.b0, false, false, false, false, true);
    AffineInverseBit(b.b0, b.b1, b.b2, b.b3, b.b4, b.b5, b.b6, b.b7, true, false, false, false, false);
  }

  lemma AffineInverse(b: Byte)
    ensures Affine(UnaffineByte(b)) == b
  {
    UnaffineHigh(b);
    UnaffineMiddle(b);
    UnaffineLow(b);
    AffineFromBits(b, UnaffineByte(b));
  }

  lemma XorHigh(a: bv8, b: bv8)
    ensures (a ^ b) & 0x80 != 0 <==> ((a & 0x80 != 0) != (b & 0x80 != 0))
    ensures (a ^ b) & 0x40 != 0 <==> ((a & 0x40 != 0) != (b & 0x40 != 0))
    ensures (a ^ b) & 0x20 != 0 <==> ((a & 0x20 != 0) != (b & 0x20 != 0))
    ensures (a ^ b) & 0x10 != 0 <==> ((a & 0x10 != 0) != (b & 0x10 != 0))
  {
  }

  lemma XorLow(a: bv8, b: bv8)
    ensures (a ^ b) & 0x08 != 0 <==> ((a & 0x08 != 0) != (b & 0x08 != 0))
    ensures (a ^ b) & 0x04 != 0 <==> ((a & 0x04 != 0) != (b & 0x04 != 0))
    ensures (a ^ b) & 0x02 != 0 <==> ((a & 0x02 != 0) != (b & 0x02 != 0))
    ensures (a ^ b) & 0x01 != 0 <==> ((a & 0x01 != 0) != (b & 0x01 != 0))
  {
  }

  lemma XorFromBits(a: bv8, b: bv8, c: bv8)
    requires c & 0x80 != 0 <==> ((a & 0x80 != 0) != (b & 0x80 != 0))
    requires c & 0x40 != 0 <==> ((a & 0x40 != 0) != (b & 0x40 != 0))
    requires c & 0x20 != 0 <==> ((a & 0x20 != 0) != (b & 0x20 != 0))
    requires c & 0x10 != 0 <==> ((a & 0x10 != 0) != (b & 0x10 != 0))
    requires c & 0x08 != 0 <==> ((a & 0x08 != 0) != (b & 0x08 != 0))
    requires c & 0x04 != 0 <==> ((a & 0x04 != 0) != (b & 0x04 != 0))
    requires c & 0x02 != 0 <==> ((a & 0x02 != 0) != (b & 0x02 != 0))
    requires c & 0x01 != 0 <==> ((a & 0x01 != 0) != (b & 0x01 != 0))
    ensures Bits(c) == Xor(Bits(a), Bits(b))
  {
  }

  lemma XorBits(a: bv8, b: bv8)
    ensures Bits(a ^ b) == Xor(Bits(a), Bits(b))
  {
    XorHigh(a, b);
    XorLow(a, b);
    XorFromBits(a, b, a ^ b);
  }

  /** Without branches, as Pick is: the only choices left in the product below are those of the table. */
  function Twice(a: bv8): bv8 { (a << 1) ^ ((0 - (a >> 7)) & 0x1b) }

  lemma TwiceBits(a: bv8)
    ensures Bits(Twice(a)) == Double(Bits(a)) && Bits(a >> 1) == ShiftRight(Bits(a))
  {
  }

  lemma RotateBits(a: bv8)
    ensures Bits(a.RotateLeft(1)) == Rotated1(Bits(a))
    ensures Bits(a.RotateLeft(3)) == Rotated3(Bits(a))
    ensures Bits(a.RotateLeft(6)) == Rotated6(Bits(a)) && Bits(0x05) == FIVE
  {
  }

  lemma UnaffineBits(a: bv8)
    ensures Bits(Unaffine(a)) == UnaffineByte(Bits(a))
  {
    RotateBits(a);
    XorOfFour(a.RotateLeft(1), a.RotateLeft(3), a.RotateLeft(6), 0x05,
              a.RotateLeft(1) ^ a.RotateLeft(3), a.RotateLeft(6) ^ 0x05);
  }

  lemma XorOfFour(p: bv8, q: bv8, r: bv8, d: bv8, s: bv8, t: bv8)
    requires s == p ^ q && t == r ^ d
    ensures Bits(s ^ t) == Xor(Xor(Bits(p), Bits(q)), Xor(Bits(r), Bits(d)))
  {
    XorBits(p, q);
    XorBits(r, d);
    XorBits(s, t);
  }

  function Pick(a: bv8, b: bv8): bv8 { (0 - (b & 0x01)) & a }

  /** The product's sum, on words. */
  function Sum(a: bv8, b: bv8, n: nat): bv8
    decreases n
  {
    if n == 0 then 0 else Pick(a, b) ^ Sum(Twice(a), b >> 1, n - 1)
  }

  lemma PickBits(a: bv8, b: bv8)
    ensures Bits(Pick(a, b)) == Take(Bits(b).b0, Bits(a))
  {
  }

  lemma {:induction false} SumBits(a: bv8, b: bv8, n: nat)
    ensures Bits(Sum(a, b, n)) == Partial(Bits(a), Bits(b), n)
    decreases n
  {
    if n > 0 {
      SumBits(Twice(a), b >> 1, n - 1);
      SumStep(a, b, n, Sum(Twice(a), b >> 1, n - 1));
    }
  }

  lemma SumStep(a: bv8, b: bv8, n: nat, rest: bv8)
    requires n > 0 && Bits(rest) == Partial(Bits(Twice(a)), Bits(b >> 1), n - 1)
    ensures Bits(Pick(a, b) ^ rest) == Partial(Bits(a), Bits(b), n)
  {
    TwiceBits(a);
    TwiceBits(b);
    PickBits(a, b);
    XorBits(Pick(a, b), rest);
  }

  predicate Inverts(x: bv8) { x == 0 || Sum(Unaffine(SboxAt(x)), x, 8) == 1 }

  lemma LowHalfInverts(x: bv8)
    requires x & 0x80 == 0
    ensures Inverts(x)
  {
  }

  lemma HighHalfInverts(x: bv8)
    requires x & 0x80 != 0
    ensures Inverts(x)
  {
  }

  lemma SboxInverts(x: bv8)
    ensures Inverts(x)
  {
    if x & 0x80 == 0 { LowHalfInverts(x); } else { HighHalfInverts(x); }
  }

  lemma InverseOfWord(w: bv8, s: bv8)
    ensures Affine(Bits(Unaffine(s))) == Bits(s)
    ensures Sum(Unaffine(s), w, TURNS) == 1 ==> GfMul(Bits(w), Bits(Unaffine(s))) == ONE
  {
    UnaffineBits(s);
    AffineInverse(Bits(s));
    SumBits(Unaffine(s), w, TURNS);
    ProductCommutes(Bits(w), Bits(Unaffine(s)));
    OneBits();
  }

  lemma OneBits()
    ensures Bits(1) == ONE && Bits(0) == ZERO
  {
  }

  /** Every entry is the affine map of the inverse in GF(2^8), 0 counting as its own inverse. */
  lemma SboxIsFips197(x: Byte) returns (y: Byte)
    ensures Sbox(x) == Affine(y)
    ensures if x == ZERO then y == ZERO else GfMul(x, y) == ONE
  {
    var w := Word(x);
    y := Bits(Unaffine(SboxAt(w)));
    InverseOfWord(w, SboxAt(w));
    BitsOfWord(x);
    OneBits();
    SboxInverts(w);
    if w == 0 { SboxOfZero(); }
  }

  /** The ends of the tables, and the example worked in section 5.1.1 of FIPS 197. */
  lemma TablesInNumbers()
    ensures Sbox(Bits(0x00)) == Bits(0x63) && Sbox(Bits(0x53)) == Bits(0xed) && Sbox(Bits(0xff)) == Bits(0x16)
    ensures InvSbox(Bits(0x00)) == Bits(0x52) && InvSbox(Bits(0xff)) == Bits(0x7d)
  {
    WordOfBits(0x00); WordOfBits(0x53); WordOfBits(0xff);
  }

  lemma SboxOfZero()
    ensures Unaffine(SboxAt(0)) == 0
  {
  }
}
