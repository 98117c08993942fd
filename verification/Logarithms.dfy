/** Discrete logarithms in GF(2^8) to the base x + 1, which generates the 255 elements other than 0.
    They say when table generation, which multiplies by x + 1 at each step, has met every element. */
module Logarithms {
  import opened Galois

  /** The logarithm of an element other than 0. */
  function Log(x: bv8): bv8 {
    if x < 0x80 then
      if x < 0x40 then
        if x < 0x20 then
          if x < 0x10 then
            if x < 0x08 then
              if x == 0x00 then 0x00 else if x == 0x01 then 0x00 else if x == 0x02 then 0x19 else
              if x == 0x03 then 0x01 else if x == 0x04 then 0x32 else if x == 0x05 then 0x02 else
              if x == 0x06 then 0x1a else 0xc6
            else
              if x == 0x08 then 0x4b else if x == 0x09 then 0xc7 else if x == 0x0a then 0x1b else
              if x == 0x0b then 0x68 else if x == 0x0c then 0x33 else if x == 0x0d then 0xee else
              if x == 0x0e then 0xdf else 0x03
          else
            if x < 0x18 then
              if x == 0x10 then 0x64 else if x == 0x11 then 0x04 else if x == 0x12 then 0xe0 else
              if x == 0x13 then 0x0e else if x == 0x14 then 0x34 else if x == 0x15 then 0x8d else
              if x == 0x16 then 0x81 else 0xef
            else
              if x == 0x18 then 0x4c else if x == 0x19 then 0x71 else if x == 0x1a then 0x08 else
              if x == 0x1b then 0xc8 else if x == 0x1c then 0xf8 else if x == 0x1d then 0x69 else
              if x == 0x1e then 0x1c else 0xc1
        else
          if x < 0x30 then
            if x < 0x28 then
              if x == 0x20 then 0x7d else if x == 0x21 then 0xc2 else if x == 0x22 then 0x1d else
              if x == 0x23 then 0xb5 else if x == 0x24 then 0xf9 else if x == 0x25 then 0xb9 else
              if x == 0x26 then 0x27 else 0x6a
            else
              if x == 0x28 then 0x4d else if x == 0x29 then 0xe4 else if x == 0x2a then 0xa6 else
              if x == 0x2b then 0x72 else if x == 0x2c then 0x9a else if x == 0x2d then 0xc9 else
              if x == 0x2e then 0x09 else 0x78
          else
            if x < 0x38 then
              if x == 0x30 then 0x65 else if x == 0x31 then 0x2f else if x == 0x32 then 0x8a else
              if x == 0x33 then 0x05 else if x == 0x34 then 0x21 else if x == 0x35 then 0x0f else
              if x == 0x36 then 0xe1 else 0x24
            else
              if x == 0x38 then 0x12 else if x == 0x39 then 0xf0 else if x == 0x3a then 0x82 else
              if x == 0x3b then 0x45 else if x == 0x3c then 0x35 else if x == 0x3d then 0x93 else
              if x == 0x3e then 0xda else 0x8e
      else
        if x < 0x60 then
          if x < 0x50 then
            if x < 0x48 then
              if x == 0x40 then 0x96 else if x == 0x41 then 0x8f else if x == 0x42 then 0xdb else
              if x == 0x43 then 0xbd else if x == 0x44 then 0x36 else if x == 0x45 then 0xd0 else
              if x == 0x46 then 0xce else 0x94
            else
              if x == 0x48 then 0x13 else if x == 0x49 then 0x5c else if x == 0x4a then 0xd2 else
              if x == 0x4b then 0xf1 else if x == 0x4c then 0x40 else if x == 0x4d then 0x46 else
              if x == 0x4e then 0x83 else 0x38
          else
            if x < 0x58 then
              if x == 0x50 then 0x66 else if x == 0x51 then 0xdd else if x == 0x52 then 0xfd else
              if x == 0x53 then 0x30 else if x == 0x54 then 0xbf else if x == 0x55 then 0x06 else
              if x == 0x56 then 0x8b else 0x62
            else
              if x == 0x58 then 0xb3 else if x == 0x59 then 0x25 else if x == 0x5a then 0xe2 else
              if x == 0x5b then 0x98 else if x == 0x5c then 0x22 else if x == 0x5d then 0x88 else
              if x == 0x5e then 0x91 else 0x10
        else
          if x < 0x70 then
            if x < 0x68 then
              if x == 0x60 then 0x7e else if x == 0x61 then 0x6e else if x == 0x62 then 0x48 else
              if x == 0x63 then 0xc3 else if x == 0x64 then 0xa3 else if x == 0x65 then 0xb6 else
              if x == 0x66 then 0x1e else 0x42
            else
              if x == 0x68 then 0x3a else if x == 0x69 then 0x6b else if x == 0x6a then 0x28 else
              if x == 0x6b then 0x54 else if x == 0x6c then 0xfa else if x == 0x6d then 0x85 else
              if x == 0x6e then 0x3d else 0xba
          else
            if x < 0x78 then
              if x == 0x70 then 0x2b else if x == 0x71 then 0x79 else if x == 0x72 then 0x0a else
              if x == 0x73 then 0x15 else if x == 0x74 then 0x9b else if x == 0x75 then 0x9f else
              if x == 0x76 then 0x5e else 0xca
            else
              if x == 0x78 then 0x4e else if x == 0x79 then 0xd4 else if x == 0x7a then 0xac else
              if x == 0x7b then 0xe5 else if x == 0x7c then 0xf3 else if x == 0x7d then 0x73 else
              if x == 0x7e then 0xa7 else 0x57
    else
      if x < 0xc0 then
        if x < 0xa0 then
          if x < 0x90 then
            if x < 0x88 then
              if x == 0x80 then 0xaf else if x == 0x81 then 0x58 else if x == 0x82 then 0xa8 else
              if x == 0x83 then 0x50 else if x == 0x84 then 0xf4 else if x == 0x85 then 0xea else
              if x == 0x86 then 0xd6 else 0x74
            else
              if x == 0x88 then 0x4f else if x == 0x89 then 0xae else if x == 0x8a then 0xe9 else
              if x == 0x8b then 0xd5 else if x == 0x8c then 0xe7 else if x == 0x8d then 0xe6 else
              if x == 0x8e then 0xad else 0xe8
          else
            if x < 0x98 then
              if x == 0x90 then 0x2c else if x == 0x91 then 0xd7 else if x == 0x92 then 0x75 else
              if x == 0x93 then 0x7a else if x == 0x94 then 0xeb else if x == 0x95 then 0x16 else
              if x == 0x96 then 0x0b else 0xf5
            else
              if x == 0x98 then 0x59 else if x == 0x99 then 0xcb else if x == 0x9a then 0x5f else
              if x == 0x9b then 0xb0 else if x == 0x9c then 0x9c else if x == 0x9d then 0xa9 else
              if x == 0x9e then 0x51 else 0xa0
        else
          if x < 0xb0 then
            if x < 0xa8 then
              if x == 0xa0 then 0x7f else if x == 0xa1 then 0x0c else if x == 0xa2 then 0xf6 else
              if x == 0xa3 then 0x6f else if x == 0xa4 then 0x17 else if x == 0xa5 then 0xc4 else
              if x == 0xa6 then 0x49 else 0xec
            else
              if x == 0xa8 then 0xd8 else if x == 0xa9 then 0x43 else if x == 0xaa then 0x1f else
              if x == 0xab then 0x2d else if x == 0xac then 0xa4 else if x == 0xad then 0x76 else
              if x == 0xae then 0x7b else 0xb7
          else
            if x < 0xb8 then
              if x == 0xb0 then 0xcc else if x == 0xb1 then 0xbb else if x == 0xb2 then 0x3e else
              if x == 0xb3 then 0x5a else if x == 0xb4 then 0xfb else if x == 0xb5 then 0x60 else
              if x == 0xb6 then 0xb1 else 0x86
            else
              if x == 0xb8 then 0x3b else if x == 0xb9 then 0x52 else if x == 0xba then 0xa1 else
              if x == 0xbb then 0x6c else if x == 0xbc then 0xaa else if x == 0xbd then 0x55 else
              if x == 0xbe then 0x29 else 0x9d
      else
        if x < 0xe0 then
          if x < 0xd0 then
            if x < 0xc8 then
              if x == 0xc0 then 0x97 else if x == 0xc1 then 0xb2 else if x == 0xc2 then 0x87 else
              if x == 0xc3 then 0x90 else if x == 0xc4 then 0x61 else if x == 0xc5 then 0xbe else
              if x == 0xc6 then 0xdc else 0xfc
            else
              if x == 0xc8 then 0xbc else if x == 0xc9 then 0x95 else if x == 0xca then 0xcf else
              if x == 0xcb then 0xcd else if x == 0xcc then 0x37 else if x == 0xcd then 0x3f else
              if x == 0xce then 0x5b else 0xd1
          else
            if x < 0xd8 then
              if x == 0xd0 then 0x53 else if x == 0xd1 then 0x39 else if x == 0xd2 then 0x84 else
              if x == 0xd3 then 0x3c else if x == 0xd4 then 0x41 else if x == 0xd5 then 0xa2 else
              if x == 0xd6 then 0x6d else 0x47
            else
              if x == 0xd8 then 0x14 else if x == 0xd9 then 0x2a else if x == 0xda then 0x9e else
              if x == 0xdb then 0x5d else if x == 0xdc then 0x56 else if x == 0xdd then 0xf2 else
              if x == 0xde then 0xd3 else 0xab
        else
          if x < 0xf0 then
            if x < 0xe8 then
              if x == 0xe0 then 0x44 else if x == 0xe1 then 0x11 else if x == 0xe2 then 0x92 else
              if x == 0xe3 then 0xd9 else if x == 0xe4 then 0x23 else if x == 0xe5 then 0x20 else
              if x == 0xe6 then 0x2e else 0x89
            else
              if x == 0xe8 then 0xb4 else if x == 0xe9 then 0x7c else if x == 0xea then 0xb8 else
              if x == 0xeb then 0x26 else if x == 0xec then 0x77 else if x == 0xed then 0x99 else
              if x == 0xee then 0xe3 else 0xa5
          else
            if x < 0xf8 then
              if x == 0xf0 then 0x67 else if x == 0xf1 then 0x4a else if x == 0xf2 then 0xed else
              if x == 0xf3 then 0xde else if x == 0xf4 then 0xc5 else if x == 0xf5 then 0x31 else
              if x == 0xf6 then 0xfe else 0x18
            else
              if x == 0xf8 then 0x0d else if x == 0xf9 then 0x63 else if x == 0xfa then 0x8c else
              if x == 0xfb then 0x80 else if x == 0xfc then 0xc0 else if x == 0xfd then 0xf7 else
              if x == 0xfe then 0x70 else 0x07
  }

  function Exp(x: bv8): bv8 {
    if x < 0x80 then
      if x < 0x40 then
        if x < 0x20 then
          if x < 0x10 then
            if x < 0x08 then
              if x == 0x00 then 0x01 else if x == 0x01 then 0x03 else if x == 0x02 then 0x05 else
              if x == 0x03 then 0x0f else if x == 0x04 then 0x11 else if x == 0x05 then 0x33 else
              if x == 0x06 then 0x55 else 0xff
            else
              if x == 0x08 then 0x1a else if x == 0x09 then 0x2e else if x == 0x0a then 0x72 else
              if x == 0x0b then 0x96 else if x == 0x0c then 0xa1 else if x == 0x0d then 0xf8 else
              if x == 0x0e then 0x13 else 0x35
          else
            if x < 0x18 then
              if x == 0x10 then 0x5f else if x == 0x11 then 0xe1 else if x == 0x12 then 0x38 else
              if x == 0x13 then 0x48 else if x == 0x14 then 0xd8 else if x == 0x15 then 0x73 else
              if x == 0x16 then 0x95 else 0xa4
            else
              if x == 0x18 then 0xf7 else if x == 0x19 then 0x02 else if x == 0x1a then 0x06 else
              if x == 0x1b then 0x0a else if x == 0x1c then 0x1e else if x == 0x1d then 0x22 else
              if x == 0x1e then 0x66 else 0xaa
        else
          if x < 0x30 then
            if x < 0x28 then
              if x == 0x20 then 0xe5 else if x == 0x21 then 0x34 else if x == 0x22 then 0x5c else
              if x == 0x23 then 0xe4 else if x == 0x24 then 0x37 else if x == 0x25 then 0x59 else
              if x == 0x26 then 0xeb else 0x26
            else
              if x == 0x28 then 0x6a else if x == 0x29 then 0xbe else if x == 0x2a then 0xd9 else
              if x == 0x2b then 0x70 else if x == 0x2c then 0x90 else if x == 0x2d then 0xab else
              if x == 0x2e then 0xe6 else 0x31
          else
            if x < 0x38 then
              if x == 0x30 then 0x53 else if x == 0x31 then 0xf5 else if x == 0x32 then 0x04 else
              if x == 0x33 then 0x0c else if x == 0x34 then 0x14 else if x == 0x35 then 0x3c else
              if x == 0x36 then 0x44 else 0xcc
            else
              if x == 0x38 then 0x4f else if x == 0x39 then 0xd1 else if x == 0x3a then 0x68 else
              if x == 0x3b then 0xb8 else if x == 0x3c then 0xd3 else if x == 0x3d then 0x6e else
              if x == 0x3e then 0xb2 else 0xcd
      else
        if x < 0x60 then
          if x < 0x50 then
            if x < 0x48 then
              if x == 0x40 then 0x4c else if x == 0x41 then 0xd4 else if x == 0x42 then 0x67 else
              if x == 0x43 then 0xa9 else if x == 0x44 then 0xe0 else if x == 0x45 then 0x3b else
              if x == 0x46 then 0x4d else 0xd7
            else
              if x == 0x48 then 0x62 else if x == 0x49 then 0xa6 else if x == 0x4a then 0xf1 else
              if x == 0x4b then 0x08 else if x == 0x4c then 0x18 else if x == 0x4d then 0x28 else
              if x == 0x4e then 0x78 else 0x88
          else
            if x < 0x58 then
              if x == 0x50 then 0x83 else if x == 0x51 then 0x9e else if x == 0x52 then 0xb9 else
              if x == 0x53 then 0xd0 else if x == 0x54 then 0x6b else if x == 0x55 then 0xbd else
              if x == 0x56 then 0xdc else 0x7f
            else
              if x == 0x58 then 0x81 else if x == 0x59 then 0x98 else if x == 0x5a then 0xb3 else
              if x == 0x5b then 0xce else if x == 0x5c then 0x49 else if x == 0x5d then 0xdb else
              if x == 0x5e then 0x76 else 0x9a
        else
          if x < 0x70 then
            if x < 0x68 then
              if x == 0x60 then 0xb5 else if x == 0x61 then 0xc4 else if x == 0x62 then 0x57 else
              if x == 0x63 then 0xf9 else if x == 0x64 then 0x10 else if x == 0x65 then 0x30 else
              if x == 0x66 then 0x50 else 0xf0
            else
              if x == 0x68 then 0x0b else if x == 0x69 then 0x1d else if x == 0x6a then 0x27 else
              if x == 0x6b then 0x69 else if x == 0x6c then 0xbb else if x == 0x6d then 0xd6 else
              if x == 0x6e then 0x61 else 0xa3
          else
            if x < 0x78 then
              if x == 0x70 then 0xfe else if x == 0x71 then 0x19 else if x == 0x72 then 0x2b else
              if x == 0x73 then 0x7d else if x == 0x74 then 0x87 else if x == 0x75 then 0x92 else
              if x == 0x76 then 0xad else 0xec
            else
              if x == 0x78 then 0x2f else if x == 0x79 then 0x71 else if x == 0x7a then 0x93 else
              if x == 0x7b then 0xae else if x == 0x7c then 0xe9 else if x == 0x7d then 0x20 else
              if x == 0x7e then 0x60 else 0xa0
    else
      if x < 0xc0 then
        if x < 0xa0 then
          if x < 0x90 then
            if x < 0x88 then
              if x == 0x80 then 0xfb else if x == 0x81 then 0x16 else if x == 0x82 then 0x3a else
              if x == 0x83 then 0x4e else if x == 0x84 then 0xd2 else if x == 0x85 then 0x6d else
              if x == 0x86 then 0xb7 else 0xc2
            else
              if x == 0x88 then 0x5d else if x == 0x89 then 0xe7 else if x == 0x8a then 0x32 else
              if x == 0x8b then 0x56 else if x == 0x8c then 0xfa else if x == 0x8d then 0x15 else
              if x == 0x8e then 0x3f else 0x41
          else
            if x < 0x98 then
              if x == 0x90 then 0xc3 else if x == 0x91 then 0x5e else if x == 0x92 then 0xe2 else
              if x == 0x93 then 0x3d else if x == 0x94 then 0x47 else if x == 0x95 then 0xc9 else
              if x == 0x96 then 0x40 else 0xc0
            else
              if x == 0x98 then 0x5b else if x == 0x99 then 0xed else if x == 0x9a then 0x2c else
              if x == 0x9b then 0x74 else if x == 0x9c then 0x9c else if x == 0x9d then 0xbf else
              if x == 0x9e then 0xda else 0x75
        else
          if x < 0xb0 then
            if x < 0xa8 then
              if x == 0xa0 then 0x9f else if x == 0xa1 then 0xba else if x == 0xa2 then 0xd5 else
              if x == 0xa3 then 0x64 else if x == 0xa4 then 0xac else if x == 0xa5 then 0xef else
              if x == 0xa6 then 0x2a else 0x7e
            else
              if x == 0xa8 then 0x82 else if x == 0xa9 then 0x9d else if x == 0xaa then 0xbc else
              if x == 0xab then 0xdf else if x == 0xac then 0x7a else if x == 0xad then 0x8e else
              if x == 0xae then 0x89 else 0x80
          else
            if x < 0xb8 then
              if x == 0xb0 then 0x9b else if x == 0xb1 then 0xb6 else if x == 0xb2 then 0xc1 else
              if x == 0xb3 then 0x58 else if x == 0xb4 then 0xe8 else if x == 0xb5 then 0x23 else
              if x == 0xb6 then 0x65 else 0xaf
            else
              if x == 0xb8 then 0xea else if x == 0xb9 then 0x25 else if x == 0xba then 0x6f else
              if x == 0xbb then 0xb1 else if x == 0xbc then 0xc8 else if x == 0xbd then 0x43 else
              if x == 0xbe then 0xc5 else 0x54
      else
        if x < 0xe0 then
          if x < 0xd0 then
            if x < 0xc8 then
              if x == 0xc0 then 0xfc else if x == 0xc1 then 0x1f else if x == 0xc2 then 0x21 else
              if x == 0xc3 then 0x63 else if x == 0xc4 then 0xa5 else if x == 0xc5 then 0xf4 else
              if x == 0xc6 then 0x07 else 0x09
            else
              if x == 0xc8 then 0x1b else if x == 0xc9 then 0x2d else if x == 0xca then 0x77 else
              if x == 0xcb then 0x99 else if x == 0xcc then 0xb0 else if x == 0xcd then 0xcb else
              if x == 0xce then 0x46 else 0xca
          else
            if x < 0xd8 then
              if x == 0xd0 then 0x45 else if x == 0xd1 then 0xcf else if x == 0xd2 then 0x4a else
              if x == 0xd3 then 0xde else if x == 0xd4 then 0x79 else if x == 0xd5 then 0x8b else
              if x == 0xd6 then 0x86 else 0x91
            else
              if x == 0xd8 then 0xa8 else if x == 0xd9 then 0xe3 else if x == 0xda then 0x3e else
              if x == 0xdb then 0x42 else if x == 0xdc then 0xc6 else if x == 0xdd then 0x51 else
              if x == 0xde then 0xf3 else 0x0e
        else
          if x < 0xf0 then
            if x < 0xe8 then
              if x == 0xe0 then 0x12 else if x == 0xe1 then 0x36 else if x == 0xe2 then 0x5a else
              if x == 0xe3 then 0xee else if x == 0xe4 then 0x29 else if x == 0xe5 then 0x7b else
              if x == 0xe6 then 0x8d else 0x8c
            else
              if x == 0xe8 then 0x8f else if x == 0xe9 then 0x8a else if x == 0xea then 0x85 else
              if x == 0xeb then 0x94 else if x == 0xec then 0xa7 else if x == 0xed then 0xf2 else
              if x == 0xee then 0x0d else 0x17
          else
            if x < 0xf8 then
              if x == 0xf0 then 0x39 else if x == 0xf1 then 0x4b else if x == 0xf2 then 0xdd else
              if x == 0xf3 then 0x7c else if x == 0xf4 then 0x84 else if x == 0xf5 then 0x97 else
              if x == 0xf6 then 0xa2 else 0xfd
            else
              if x == 0xf8 then 0x1c else if x == 0xf9 then 0x24 else if x == 0xfa then 0x6c else
              if x == 0xfb then 0xb4 else if x == 0xfc then 0xc7 else if x == 0xfd then 0x52 else
              if x == 0xfe then 0xf6 else 0x01
  }

  /** The product with x + 1. */
  function Triple(w: bv8): bv8 {
    Add(XTime(w), w)
  }

  lemma ExpLogLow(w: bv8)
    requires 0 < w < 0x80
    ensures Exp(Log(w)) == w
  {
  }

  lemma ExpLogHigh(w: bv8)
    requires w >= 0x80
    ensures Exp(Log(w)) == w
  {
  }

  /** Elements with the same logarithm are the same. */
  lemma LogInjective(v: bv8, w: bv8)
    requires v != 0 && w != 0 && Log(v) == Log(w)
    ensures v == w
  {
    hide Log, Exp;
    if v < 0x80 { ExpLogLow(v); } else { ExpLogHigh(v); }
    if w < 0x80 { ExpLogLow(w); } else { ExpLogHigh(w); }
  }

  lemma LogTripleLow(w: bv8)
    requires 0 < w < 0x80
    ensures Log(w) < 255 && Log(Triple(w)) == if Log(w) == 254 then 0 else Log(w) + 1
  {
  }

  lemma LogTripleHigh(w: bv8)
    requires w >= 0x80
    ensures Log(w) < 255 && Log(Triple(w)) == if Log(w) == 254 then 0 else Log(w) + 1
  {
  }

  /** Multiplying by the generator adds one to the logarithm, modulo 255. */
  lemma LogTriple(w: bv8)
    requires w != 0
    ensures Triple(w) != 0 && Log(w) < 255 && Log(Triple(w)) == if Log(w) == 254 then 0 else Log(w) + 1
  {
    hide Log;
    TripleInjective(w, 0);
    if w < 0x80 { LogTripleLow(w); } else { LogTripleHigh(w); }
  }

  lemma TripleInjective(v: bv8, w: bv8)
    ensures Triple(v) == Triple(w) ==> v == w
    ensures Triple(0) == 0
  {
  }
}
