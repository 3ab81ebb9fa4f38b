/**
 * The model held against FIPS-197 byte by byte: the substitution box as figure 7 prints it,
 * the key schedule and the rounds as laws on byte positions.
 */
module AesStandard {
  import opened AesField
  import opened AesProduct
  import opened AesRounds
  import opened AesCipher
  import opened AesBytes
  import opened Aes

  // ----- products of given bytes

  /** One step of Horner's rule, for the low bit of x. */
  function HornerStep<T>(f: Field<T>, x: bv8, y: T, p: T): T {
    f.add(LowBit(f, x, y), f.xt(p))
  }

  /** All eight of them, from the high bit down. */
  function Horner<T>(f: Field<T>, x: bv8, y: T): T {
    var p7 := HornerStep(f, x >> 7, y, f.zero);
    var p6 := HornerStep(f, x >> 6, y, p7);
    var p5 := HornerStep(f, x >> 5, y, p6);
    var p4 := HornerStep(f, x >> 4, y, p5);
    var p3 := HornerStep(f, x >> 3, y, p4);
    var p2 := HornerStep(f, x >> 2, y, p3);
    HornerStep(f, x, y, HornerStep(f, x >> 1, y, p2))
  }

  lemma Halves(x: bv8)
    ensures (x >> 7) >> 1 == 0 && (x >> 6) >> 1 == x >> 7 && (x >> 5) >> 1 == x >> 6 && (x >> 4) >> 1 == x >> 5
    ensures (x >> 3) >> 1 == x >> 4 && (x >> 2) >> 1 == x >> 3 && (x >> 1) >> 1 == x >> 2
  {
  }

  lemma OneStep<T(!new)>(f: Field<T>, x: bv8, z: bv8, y: T, p: T)
    requires Sound(f) && z == x >> 1 && p == Times(f, z, y)
    ensures Times(f, x, y) == HornerStep(f, x, y, p)
  {
    TimesStep(f, x, y);
  }

  lemma TimesIsHorner<T(!new)>(f: Field<T>, x: bv8, y: T)
    requires Sound(f)
    ensures Times(f, x, y) == Horner(f, x, y)
  {
    Halves(x);
    OneStep(f, x >> 7, 0, y, f.zero);
    OneStep(f, x >> 6, x >> 7, y, Times(f, x >> 7, y));
    OneStep(f, x >> 5, x >> 6, y, Times(f, x >> 6, y));
    OneStep(f, x >> 4, x >> 5, y, Times(f, x >> 5, y));
    OneStep(f, x >> 3, x >> 4, y, Times(f, x >> 4, y));
    OneStep(f, x >> 2, x >> 3, y, Times(f, x >> 3, y));
    OneStep(f, x >> 1, x >> 2, y, Times(f, x >> 2, y));
    OneStep(f, x, x >> 1, y, Times(f, x >> 1, y));
  }

  function ByteStep(x: bv8, y: bv8, p: bv8): bv8 {
    (if x & 1 == 1 then y else 0) ^ Xtime(p)
  }

  /** Horner's rule on plain bytes, which products of given bytes can be read off from. */
  function ByteHorner(x: bv8, y: bv8): bv8 {
    var p7 := ByteStep(x >> 7, y, 0);
    var p6 := ByteStep(x >> 6, y, p7);
    var p5 := ByteStep(x >> 5, y, p6);
    var p4 := ByteStep(x >> 4, y, p5);
    var p3 := ByteStep(x >> 3, y, p4);
    var p2 := ByteStep(x >> 2, y, p3);
    ByteStep(x, y, ByteStep(x >> 1, y, p2))
  }

  lemma StepOfBytes(x: bv8, y: bv8, p: bv8)
    ensures HornerStep(Bytes(), x, y, p) == ByteStep(x, y, p)
  {
    if x & 1 == 1 {} else {}
  }

  lemma HornerOfBytes(x: bv8, y: bv8)
    ensures Horner(Bytes(), x, y) == ByteHorner(x, y)
  {
    var f := Bytes();
    var p7 := HornerStep(f, x >> 7, y, 0);
    StepOfBytes(x >> 7, y, 0);
    var p6 := HornerStep(f, x >> 6, y, p7);
    StepOfBytes(x >> 6, y, p7);
    var p5 := HornerStep(f, x >> 5, y, p6);
    StepOfBytes(x >> 5, y, p6);
    var p4 := HornerStep(f, x >> 4, y, p5);
    StepOfBytes(x >> 4, y, p5);
    var p3 := HornerStep(f, x >> 3, y, p4);
    StepOfBytes(x >> 3, y, p4);
    var p2 := HornerStep(f, x >> 2, y, p3);
    StepOfBytes(x >> 2, y, p3);
    var p1 := HornerStep(f, x >> 1, y, p2);
    StepOfBytes(x >> 1, y, p2);
    StepOfBytes(x, y, p1);
  }

  lemma ProductOf(x: bv8, y: bv8)
    ensures Product(x, y) == ByteHorner(x, y)
  {
    BytesSound();
    TimesIsHorner(Bytes(), x, y);
    HornerOfBytes(x, y);
  }

  // ----- the substitution box

  /** A box entry from the byte's inverse. */
  lemma Box(x: bv8, y: bv8)
    requires x != 0 && ByteHorner(x, y) == 1
    ensures Sbox(x) == Affine(y)
  {
    ProductOf(x, y);
    assert InverseOf(x, y);
    InverseUnique(x, y, Inverse(x));
  }

  lemma BoxOfZero()
    ensures Sbox(0) == 0x63
  {
    assert InverseOf(0, Inverse(0));
  }

  // Figure 7 of FIPS-197, row by row.

  lemma Figure7Row0()
    ensures Sbox(0x00) == 0x63 && Sbox(0x01) == 0x7C && Sbox(0x02) == 0x77 && Sbox(0x03) == 0x7B
    ensures Sbox(0x04) == 0xF2 && Sbox(0x05) == 0x6B && Sbox(0x06) == 0x6F && Sbox(0x07) == 0xC5
    ensures Sbox(0x08) == 0x30 && Sbox(0x09) == 0x01 && Sbox(0x0A) == 0x67 && Sbox(0x0B) == 0x2B
    ensures Sbox(0x0C) == 0xFE && Sbox(0x0D) == 0xD7 && Sbox(0x0E) == 0xAB && Sbox(0x0F) == 0x76
  {
    BoxOfZero(); Box(0x01, 0x01); Box(0x02, 0x8D); Box(0x03, 0xF6);
    Box(0x04, 0xCB); Box(0x05, 0x52); Box(0x06, 0x7B); Box(0x07, 0xD1);
    Box(0x08, 0xE8); Box(0x09, 0x4F); Box(0x0A, 0x29); Box(0x0B, 0xC0);
    Box(0x0C, 0xB0); Box(0x0D, 0xE1); Box(0x0E, 0xE5); Box(0x0F, 0xC7);
  }

  lemma Figure7Row1()
    ensures Sbox(0x10) == 0xCA && Sbox(0x11) == 0x82 && Sbox(0x12) == 0xC9 && Sbox(0x13) == 0x7D
    ensures Sbox(0x14) == 0xFA && Sbox(0x15) == 0x59 && Sbox(0x16) == 0x47 && Sbox(0x17) == 0xF0
    ensures Sbox(0x18) == 0xAD && Sbox(0x19) == 0xD4 && Sbox(0x1A) == 0xA2 && Sbox(0x1B) == 0xAF
    ensures Sbox(0x1C) == 0x9C && Sbox(0x1D) == 0xA4 && Sbox(0x1E) == 0x72 && Sbox(0x1F) == 0xC0
  {
    Box(0x10, 0x74); Box(0x11, 0xB4); Box(0x12, 0xAA); Box(0x13, 0x4B);
    Box(0x14, 0x99); Box(0x15, 0x2B); Box(0x16, 0x60); Box(0x17, 0x5F);
    Box(0x18, 0x58); Box(0x19, 0x3F); Box(0x1A, 0xFD); Box(0x1B, 0xCC);
    Box(0x1C, 0xFF); Box(0x1D, 0x40); Box(0x1E, 0xEE); Box(0x1F, 0xB2);
  }

  lemma Figure7Row2()
    ensures Sbox(0x20) == 0xB7 && Sbox(0x21) == 0xFD && Sbox(0x22) == 0x93 && Sbox(0x23) == 0x26
    ensures Sbox(0x24) == 0x36 && Sbox(0x25) == 0x3F && Sbox(0x26) == 0xF7 && Sbox(0x27) == 0xCC
    ensures Sbox(0x28) == 0x34 && Sbox(0x29) == 0xA5 && Sbox(0x2A) == 0xE5 && Sbox(0x2B) == 0xF1
    ensures Sbox(0x2C) == 0x71 && Sbox(0x2D) == 0xD8 && Sbox(0x2E) == 0x31 && Sbox(0x2F) == 0x15
  {
    Box(0x20, 0x3A); Box(0x21, 0x6E); Box(0x22, 0x5A); Box(0x23, 0xF1);
    Box(0x24, 0x55); Box(0x25, 0x4D); Box(0x26, 0xA8); Box(0x27, 0xC9);
    Box(0x28, 0xC1); Box(0x29, 0x0A); Box(0x2A, 0x98); Box(0x2B, 0x15);
    Box(0x2C, 0x30); Box(0x2D, 0x44); Box(0x2E, 0xA2); Box(0x2F, 0xC2);
  }

  lemma Figure7Row3()
    ensures Sbox(0x30) == 0x04 && Sbox(0x31) == 0xC7 && Sbox(0x32) == 0x23 && Sbox(0x33) == 0xC3
    ensures Sbox(0x34) == 0x18 && Sbox(0x35) == 0x96 && Sbox(0x36) == 0x05 && Sbox(0x37) == 0x9A
    ensures Sbox(0x38) == 0x07 && Sbox(0x39) == 0x12 && Sbox(0x3A) == 0x80 && Sbox(0x3B) == 0xE2
    ensures Sbox(0x3C) == 0xEB && Sbox(0x3D) == 0x27 && Sbox(0x3E) == 0xB2 && Sbox(0x3F) == 0x75
  {
    Box(0x30, 0x2C); Box(0x31, 0x45); Box(0x32, 0x92); Box(0x33, 0x6C);
    Box(0x34, 0xF3); Box(0x35, 0x39); Box(0x36, 0x66); Box(0x37, 0x42);
    Box(0x38, 0xF2); Box(0x39, 0x35); Box(0x3A, 0x20); Box(0x3B, 0x6F);
    Box(0x3C, 0x77); Box(0x3D, 0xBB); Box(0x3E, 0x59); Box(0x3F, 0x19);
  }

  lemma Figure7Row4()
    ensures Sbox(0x40) == 0x09 && Sbox(0x41) == 0x83 && Sbox(0x42) == 0x2C && Sbox(0x43) == 0x1A
    ensures Sbox(0x44) == 0x1B && Sbox(0x45) == 0x6E && Sbox(0x46) == 0x5A && Sbox(0x47) == 0xA0
    ensures Sbox(0x48) == 0x52 && Sbox(0x49) == 0x3B && Sbox(0x4A) == 0xD6 && Sbox(0x4B) == 0xB3
    ensures Sbox(0x4C) == 0x29 && Sbox(0x4D) == 0xE3 && Sbox(0x4E) == 0x2F && Sbox(0x4F) == 0x84
  {
    Box(0x40, 0x1D); Box(0x41, 0xFE); Box(0x42, 0x37); Box(0x43, 0x67);
    Box(0x44, 0x2D); Box(0x45, 0x31); Box(0x46, 0xF5); Box(0x47, 0x69);
    Box(0x48, 0xA7); Box(0x49, 0x64); Box(0x4A, 0xAB); Box(0x4B, 0x13);
    Box(0x4C, 0x54); Box(0x4D, 0x25); Box(0x4E, 0xE9); Box(0x4F, 0x09);
  }

  lemma Figure7Row5()
    ensures Sbox(0x50) == 0x53 && Sbox(0x51) == 0xD1 && Sbox(0x52) == 0x00 && Sbox(0x53) == 0xED
    ensures Sbox(0x54) == 0x20 && Sbox(0x55) == 0xFC && Sbox(0x56) == 0xB1 && Sbox(0x57) == 0x5B
    ensures Sbox(0x58) == 0x6A && Sbox(0x59) == 0xCB && Sbox(0x5A) == 0xBE && Sbox(0x5B) == 0x39
    ensures Sbox(0x5C) == 0x4A && Sbox(0x5D) == 0x4C && Sbox(0x5E) == 0x58 && Sbox(0x5F) == 0xCF
  {
    Box(0x50, 0xED); Box(0x51, 0x5C); Box(0x52, 0x05); Box(0x53, 0xCA);
    Box(0x54, 0x4C); Box(0x55, 0x24); Box(0x56, 0x87); Box(0x57, 0xBF);
    Box(0x58, 0x18); Box(0x59, 0x3E); Box(0x5A, 0x22); Box(0x5B, 0xF0);
    Box(0x5C, 0x51); Box(0x5D, 0xEC); Box(0x5E, 0x61); Box(0x5F, 0x17);
  }

  lemma Figure7Row6()
    ensures Sbox(0x60) == 0xD0 && Sbox(0x61) == 0xEF && Sbox(0x62) == 0xAA && Sbox(0x63) == 0xFB
    ensures Sbox(0x64) == 0x43 && Sbox(0x65) == 0x4D && Sbox(0x66) == 0x33 && Sbox(0x67) == 0x85
    ensures Sbox(0x68) == 0x45 && Sbox(0x69) == 0xF9 && Sbox(0x6A) == 0x02 && Sbox(0x6B) == 0x7F
    ensures Sbox(0x6C) == 0x50 && Sbox(0x6D) == 0x3C && Sbox(0x6E) == 0x9F && Sbox(0x6F) == 0xA8
  {
    Box(0x60, 0x16); Box(0x61, 0x5E); Box(0x62, 0xAF); Box(0x63, 0xD3);
    Box(0x64, 0x49); Box(0x65, 0xA6); Box(0x66, 0x36); Box(0x67, 0x43);
    Box(0x68, 0xF4); Box(0x69, 0x47); Box(0x6A, 0x91); Box(0x6B, 0xDF);
    Box(0x6C, 0x33); Box(0x6D, 0x93); Box(0x6E, 0x21); Box(0x6F, 0x3B);
  }

  lemma Figure7Row7()
    ensures Sbox(0x70) == 0x51 && Sbox(0x71) == 0xA3 && Sbox(0x72) == 0x40 && Sbox(0x73) == 0x8F
    ensures Sbox(0x74) == 0x92 && Sbox(0x75) == 0x9D && Sbox(0x76) == 0x38 && Sbox(0x77) == 0xF5
    ensures Sbox(0x78) == 0xBC && Sbox(0x79) == 0xB6 && Sbox(0x7A) == 0xDA && Sbox(0x7B) == 0x21
    ensures Sbox(0x7C) == 0x10 && Sbox(0x7D) == 0xFF && Sbox(0x7E) == 0xF3 && Sbox(0x7F) == 0xD2
  {
    Box(0x70, 0x79); Box(0x71, 0xB7); Box(0x72, 0x97); Box(0x73, 0x85);
    Box(0x74, 0x10); Box(0x75, 0xB5); Box(0x76, 0xBA); Box(0x77, 0x3C);
    Box(0x78, 0xB6); Box(0x79, 0x70); Box(0x7A, 0xD0); Box(0x7B, 0x06);
    Box(0x7C, 0xA1); Box(0x7D, 0xFA); Box(0x7E, 0x81); Box(0x7F, 0x82);
  }

  lemma Figure7Row8()
    ensures Sbox(0x80) == 0xCD && Sbox(0x81) == 0x0C && Sbox(0x82) == 0x13 && Sbox(0x83) == 0xEC
    ensures Sbox(0x84) == 0x5F && Sbox(0x85) == 0x97 && Sbox(0x86) == 0x44 && Sbox(0x87) == 0x17
    ensures Sbox(0x88) == 0xC4 && Sbox(0x89) == 0xA7 && Sbox(0x8A) == 0x7E && Sbox(0x8B) == 0x3D
    ensures Sbox(0x8C) == 0x64 && Sbox(0x8D) == 0x5D && Sbox(0x8E) == 0x19 && Sbox(0x8F) == 0x73
  {
    Box(0x80, 0x83); Box(0x81, 0x7E); Box(0x82, 0x7F); Box(0x83, 0x80);
    Box(0x84, 0x96); Box(0x85, 0x73); Box(0x86, 0xBE); Box(0x87, 0x56);
    Box(0x88, 0x9B); Box(0x89, 0x9E); Box(0x8A, 0x95); Box(0x8B, 0xD9);
    Box(0x8C, 0xF7); Box(0x8D, 0x02); Box(0x8E, 0xB9); Box(0x8F, 0xA4);
  }

  lemma Figure7Row9()
    ensures Sbox(0x90) == 0x60 && Sbox(0x91) == 0x81 && Sbox(0x92) == 0x4F && Sbox(0x93) == 0xDC
    ensures Sbox(0x94) == 0x22 && Sbox(0x95) == 0x2A && Sbox(0x96) == 0x90 && Sbox(0x97) == 0x88
    ensures Sbox(0x98) == 0x46 && Sbox(0x99) == 0xEE && Sbox(0x9A) == 0xB8 && Sbox(0x9B) == 0x14
    ensures Sbox(0x9C) == 0xDE && Sbox(0x9D) == 0x5E && Sbox(0x9E) == 0x0B && Sbox(0x9F) == 0xDB
  {
    Box(0x90, 0xDE); Box(0x91, 0x6A); Box(0x92, 0x32); Box(0x93, 0x6D);
    Box(0x94, 0xD8); Box(0x95, 0x8A); Box(0x96, 0x84); Box(0x97, 0x72);
    Box(0x98, 0x2A); Box(0x99, 0x14); Box(0x9A, 0x9F); Box(0x9B, 0x88);
    Box(0x9C, 0xF9); Box(0x9D, 0xDC); Box(0x9E, 0x89); Box(0x9F, 0x9A);
  }

  lemma Figure7RowA()
    ensures Sbox(0xA0) == 0xE0 && Sbox(0xA1) == 0x32 && Sbox(0xA2) == 0x3A && Sbox(0xA3) == 0x0A
    ensures Sbox(0xA4) == 0x49 && Sbox(0xA5) == 0x06 && Sbox(0xA6) == 0x24 && Sbox(0xA7) == 0x5C
    ensures Sbox(0xA8) == 0xC2 && Sbox(0xA9) == 0xD3 && Sbox(0xAA) == 0xAC && Sbox(0xAB) == 0x62
    ensures Sbox(0xAC) == 0x91 && Sbox(0xAD) == 0x95 && Sbox(0xAE) == 0xE4 && Sbox(0xAF) == 0x79
  {
    Box(0xA0, 0xFB); Box(0xA1, 0x7C); Box(0xA2, 0x2E); Box(0xA3, 0xC3);
    Box(0xA4, 0x8F); Box(0xA5, 0xB8); Box(0xA6, 0x65); Box(0xA7, 0x48);
    Box(0xA8, 0x26); Box(0xA9, 0xC8); Box(0xAA, 0x12); Box(0xAB, 0x4A);
    Box(0xAC, 0xCE); Box(0xAD, 0xE7); Box(0xAE, 0xD2); Box(0xAF, 0x62);
  }

  lemma Figure7RowB()
    ensures Sbox(0xB0) == 0xE7 && Sbox(0xB1) == 0xC8 && Sbox(0xB2) == 0x37 && Sbox(0xB3) == 0x6D
    ensures Sbox(0xB4) == 0x8D && Sbox(0xB5) == 0xD5 && Sbox(0xB6) == 0x4E && Sbox(0xB7) == 0xA9
    ensures Sbox(0xB8) == 0x6C && Sbox(0xB9) == 0x56 && Sbox(0xBA) == 0xF4 && Sbox(0xBB) == 0xEA
    ensures Sbox(0xBC) == 0x65 && Sbox(0xBD) == 0x7A && Sbox(0xBE) == 0xAE && Sbox(0xBF) == 0x08
  {
    Box(0xB0, 0x0C); Box(0xB1, 0xE0); Box(0xB2, 0x1F); Box(0xB3, 0xEF);
    Box(0xB4, 0x11); Box(0xB5, 0x75); Box(0xB6, 0x78); Box(0xB7, 0x71);
    Box(0xB8, 0xA5); Box(0xB9, 0x8E); Box(0xBA, 0x76); Box(0xBB, 0x3D);
    Box(0xBC, 0xBD); Box(0xBD, 0xBC); Box(0xBE, 0x86); Box(0xBF, 0x57);
  }

  lemma Figure7RowC()
    ensures Sbox(0xC0) == 0xBA && Sbox(0xC1) == 0x78 && Sbox(0xC2) == 0x25 && Sbox(0xC3) == 0x2E
    ensures Sbox(0xC4) == 0x1C && Sbox(0xC5) == 0xA6 && Sbox(0xC6) == 0xB4 && Sbox(0xC7) == 0xC6
    ensures Sbox(0xC8) == 0xE8 && Sbox(0xC9) == 0xDD && Sbox(0xCA) == 0x74 && Sbox(0xCB) == 0x1F
    ensures Sbox(0xCC) == 0x4B && Sbox(0xCD) == 0xBD && Sbox(0xCE) == 0x8B && Sbox(0xCF) == 0x8A
  {
    Box(0xC0, 0x0B); Box(0xC1, 0x28); Box(0xC2, 0x2F); Box(0xC3, 0xA3);
    Box(0xC4, 0xDA); Box(0xC5, 0xD4); Box(0xC6, 0xE4); Box(0xC7, 0x0F);
    Box(0xC8, 0xA9); Box(0xC9, 0x27); Box(0xCA, 0x53); Box(0xCB, 0x04);
    Box(0xCC, 0x1B); Box(0xCD, 0xFC); Box(0xCE, 0xAC); Box(0xCF, 0xE6);
  }

  lemma Figure7RowD()
    ensures Sbox(0xD0) == 0x70 && Sbox(0xD1) == 0x3E && Sbox(0xD2) == 0xB5 && Sbox(0xD3) == 0x66
    ensures Sbox(0xD4) == 0x48 && Sbox(0xD5) == 0x03 && Sbox(0xD6) == 0xF6 && Sbox(0xD7) == 0x0E
    ensures Sbox(0xD8) == 0x61 && Sbox(0xD9) == 0x35 && Sbox(0xDA) == 0x57 && Sbox(0xDB) == 0xB9
    ensures Sbox(0xDC) == 0x86 && Sbox(0xDD) == 0xC1 && Sbox(0xDE) == 0x1D && Sbox(0xDF) == 0x9E
  {
    Box(0xD0, 0x7A); Box(0xD1, 0x07); Box(0xD2, 0xAE); Box(0xD3, 0x63);
    Box(0xD4, 0xC5); Box(0xD5, 0xDB); Box(0xD6, 0xE2); Box(0xD7, 0xEA);
    Box(0xD8, 0x94); Box(0xD9, 0x8B); Box(0xDA, 0xC4); Box(0xDB, 0xD5);
    Box(0xDC, 0x9D); Box(0xDD, 0xF8); Box(0xDE, 0x90); Box(0xDF, 0x6B);
  }

  lemma Figure7RowE()
    ensures Sbox(0xE0) == 0xE1 && Sbox(0xE1) == 0xF8 && Sbox(0xE2) == 0x98 && Sbox(0xE3) == 0x11
    ensures Sbox(0xE4) == 0x69 && Sbox(0xE5) == 0xD9 && Sbox(0xE6) == 0x8E && Sbox(0xE7) == 0x94
    ensures Sbox(0xE8) == 0x9B && Sbox(0xE9) == 0x1E && Sbox(0xEA) == 0x87 && Sbox(0xEB) == 0xE9
    ensures Sbox(0xEC) == 0xCE && Sbox(0xED) == 0x55 && Sbox(0xEE) == 0x28 && Sbox(0xEF) == 0xDF
  {
    Box(0xE0, 0xB1); Box(0xE1, 0x0D); Box(0xE2, 0xD6); Box(0xE3, 0xEB);
    Box(0xE4, 0xC6); Box(0xE5, 0x0E); Box(0xE6, 0xCF); Box(0xE7, 0xAD);
    Box(0xE8, 0x08); Box(0xE9, 0x4E); Box(0xEA, 0xD7); Box(0xEB, 0xE3);
    Box(0xEC, 0x5D); Box(0xED, 0x50); Box(0xEE, 0x1E); Box(0xEF, 0xB3);
  }

  lemma Figure7RowF()
    ensures Sbox(0xF0) == 0x8C && Sbox(0xF1) == 0xA1 && Sbox(0xF2) == 0x89 && Sbox(0xF3) == 0x0D
    ensures Sbox(0xF4) == 0xBF && Sbox(0xF5) == 0xE6 && Sbox(0xF6) == 0x42 && Sbox(0xF7) == 0x68
    ensures Sbox(0xF8) == 0x41 && Sbox(0xF9) == 0x99 && Sbox(0xFA) == 0x2D && Sbox(0xFB) == 0x0F
    ensures Sbox(0xFC) == 0xB0 && Sbox(0xFD) == 0x54 && Sbox(0xFE) == 0xBB && Sbox(0xFF) == 0x16
  {
    Box(0xF0, 0x5B); Box(0xF1, 0x23); Box(0xF2, 0x38); Box(0xF3, 0x34);
    Box(0xF4, 0x68); Box(0xF5, 0x46); Box(0xF6, 0x03); Box(0xF7, 0x8C);
    Box(0xF8, 0xDD); Box(0xF9, 0x9C); Box(0xFA, 0x7D); Box(0xFB, 0xA0);
    Box(0xFC, 0xCD); Box(0xFD, 0x1A); Box(0xFE, 0x41); Box(0xFF, 0x1C);
  }

  // ----- the key schedule

  const ROUND_CONSTANTS: seq<bv8> := [0x01, 0x02, 0x04, 0x08, 0x10, 0x20, 0x40, 0x80, 0x1B, 0x36]

  /** Byte r of the constant of row i + 1. */
  function RoundConstant(i: int, r: nat): bv8 {
    if r == 0 && 0 <= i < 10 then ROUND_CONSTANTS[i] else 0
  }

  /** Byte r of word j of a list of round keys, four words to a key. */
  ghost function WordByte(rk: seq<State<bv8>>, j: nat, r: nat): bv8
    requires j / 4 < |rk| && r < 4
  {
    FromState(rk[j / 4])[4 * (j % 4) + r]
  }

  function ByteOf<T>(c: Col<T>, r: nat): T {
    if r == 0 then c.b0 else if r == 1 then c.b1 else if r == 2 then c.b2 else c.b3
  }

  lemma WordOfKeys(ws: seq<Word>, j: nat, r: nat)
    requires |ws| % 4 == 0 && j < |ws| && r < 4
    ensures j / 4 < |RoundKeys(ws)| && WordByte(RoundKeys(ws), j, r) == ByteOf(ws[j], r)
  {
    var q := j / 4;
    assert RoundKeys(ws)[q] == State(ws[4 * q], ws[4 * q + 1], ws[4 * q + 2], ws[4 * q + 3]);
  }

  lemma SummedByte<T>(f: Field<T>, c: Col<T>, d: Col<T>, r: nat)
    requires r < 4
    ensures ByteOf(AddCol(f, c, d), r) == f.add(ByteOf(c, r), ByteOf(d, r))
  {
  }

  /** The bytes of a word that starts a row of the schedule, over any field. */
  lemma RotatedByte<T(!new)>(g: Suite<T>, one: T, c: Col<T>, p: Col<T>, i: nat, r: nat)
    requires Sound(g.f) && r < 4
    ensures ByteOf(AddCol(g.f, c, AddCol(g.f, MapCol(g.sb, RotWord(p)), Rcon(g.f, one, i))), r)
         == g.f.add(g.f.add(ByteOf(c, r), g.sb(ByteOf(p, (r + 1) % 4))), ByteOf(Rcon(g.f, one, i), r))
  {
    var b, k := MapCol(g.sb, RotWord(p)), Rcon(g.f, one, i);
    SummedByte(g.f, b, k, r);
    SummedByte(g.f, c, AddCol(g.f, b, k), r);
    assert ByteOf(b, r) == g.sb(ByteOf(p, (r + 1) % 4));
    assert GroupAt(g.f, ByteOf(c, r), ByteOf(b, r), ByteOf(k, r));
  }

  lemma BoxedByte<T>(g: Suite<T>, c: Col<T>, p: Col<T>, r: nat)
    requires r < 4
    ensures ByteOf(AddCol(g.f, c, MapCol(g.sb, p)), r) == g.f.add(ByteOf(c, r), g.sb(ByteOf(p, r)))
  {
    SummedByte(g.f, c, MapCol(g.sb, p), r);
  }

  lemma BoxIs(x: bv8)
    ensures Rijndael().sb(x) == Sbox(x)
  {
  }

  /** The sum of two bytes (section 4.1). */
  function Plus(x: bv8, y: bv8): bv8 { x ^ y }

  lemma SumOfTwo(v: bv8, a: bv8, b: bv8)
    requires v == Bytes().add(a, b)
    ensures v == Plus(a, b)
  {
  }

  lemma SumOfThree(v: bv8, a: bv8, b: bv8, k: bv8)
    requires v == Bytes().add(Bytes().add(a, b), k)
    ensures v == Plus(Plus(a, b), k)
  {
  }

  lemma ConstantIs(i: nat, v: bv8)
    requires i < 9 && PowX(Bytes(), 1, i) == v
    ensures PowX(Bytes(), 1, i + 1) == Xtime(v)
  {
    AddIsXor(v, v);
  }

  lemma Constants(i: nat)
    requires i < 10
    ensures PowX(Bytes(), 1, i) == ROUND_CONSTANTS[i]
  {
    ConstantIs(0, 0x01); ConstantIs(1, 0x02); ConstantIs(2, 0x04); ConstantIs(3, 0x08); ConstantIs(4, 0x10);
    ConstantIs(5, 0x20); ConstantIs(6, 0x40); ConstantIs(7, 0x80); ConstantIs(8, 0x1B);
  }

  lemma ConstantByte(i: nat, r: nat)
    requires i < 10 && r < 4
    ensures ByteOf(Rcon(Bytes(), 1, i), r) == RoundConstant(i, r)
  {
    Constants(i);
  }

  // The laws of section 5.2 on the bytes of the round keys of a key of nk words.

  ghost predicate KeyOf(key: seq<bv8>, nk: nat) {
    (nk == 4 || nk == 6 || nk == 8) && 4 * nk <= |key|
  }

  ghost function Expansion(key: seq<bv8>, nk: nat): (ws: seq<Word>)
    requires KeyOf(key, nk)
    ensures |ws| == 4 * (nk + 7) && |ws| % 4 == 0
  {
    KeyExpansion(Rijndael(), key, nk)
  }

  /** The first nk words are the key. */
  lemma ScheduleKey(key: seq<bv8>, nk: nat, j: nat, r: nat)
    requires KeyOf(key, nk) && j < nk && r < 4
    ensures WordByte(EncryptionKeys(key, nk), j, r) == key[4 * j + r]
  {
    KeyColumn(key, nk, j);
    KeyByte(Expansion(key, nk), key, j, r);
  }

  lemma KeyByte(ws: seq<Word>, key: seq<bv8>, j: nat, r: nat)
    requires |ws| % 4 == 0 && j < |ws| && r < 4 && 4 * j + 4 <= |key| && ws[j] == ColAt(key, 4 * j)
    ensures WordByte(RoundKeys(ws), j, r) == key[4 * j + r]
  {
    WordOfKeys(ws, j, r);
  }

  lemma KeyColumn(key: seq<bv8>, nk: nat, j: nat)
    requires KeyOf(key, nk) && j < nk
    ensures Expansion(key, nk)[j] == ColAt(key, 4 * j)
  {
  }

  /** Byte r of word j is that of word a, plus the substituted byte q of word p, plus k. */
  ghost predicate RowStartAt(w: seq<State<bv8>>, j: nat, a: nat, p: nat, r: nat, q: nat, k: bv8) {
    && j / 4 < |w| && a / 4 < |w| && p / 4 < |w| && r < 4 && q < 4
    && WordByte(w, j, r) == Plus(Plus(WordByte(w, a, r), Sbox(WordByte(w, p, q))), k)
  }

  /** Byte r of word j is that of word a plus that of word p. */
  ghost predicate WordSumAt(w: seq<State<bv8>>, j: nat, a: nat, p: nat, r: nat) {
    && j / 4 < |w| && a / 4 < |w| && p / 4 < |w| && r < 4
    && WordByte(w, j, r) == Plus(WordByte(w, a, r), WordByte(w, p, r))
  }

  /** At every nk-th word the previous word is rotated by a byte, substituted and given a round
      constant, and added to the word nk before: byte r takes byte q, the next one round. */
  lemma ScheduleRowStart(key: seq<bv8>, nk: nat, j: nat, i: nat, r: nat, q: nat)
    requires KeyOf(key, nk) && j == nk * (i + 1) < 4 * (nk + 7) && r < 4 && q == (r + 1) % 4
    ensures nk <= j && RowStartAt(EncryptionKeys(key, nk), j, j - nk, j - 1, r, q, RoundConstant(i, r))
  {
    RowForm(key, nk, j, i);
    RowBytes(Expansion(key, nk), nk, j, i, r, q);
  }

  lemma RowBytes(ws: seq<Word>, nk: nat, j: nat, i: nat, r: nat, q: nat)
    requires |ws| % 4 == 0 && 0 < nk <= j < |ws| && i < 10 && r < 4 && q == (r + 1) % 4
    requires RotatedAt(Rijndael(), ws, nk, j, i)
    ensures RowStartAt(RoundKeys(ws), j, j - nk, j - 1, r, q, RoundConstant(i, r))
  {
    var v, a, p := ByteOf(ws[j], r), ByteOf(ws[j - nk], r), ByteOf(ws[j - 1], q);
    RowStart(ws, nk, j, i, r, q, v, a, p);
    WordOfKeys(ws, j, r);
    WordOfKeys(ws, j - nk, r);
    WordOfKeys(ws, j - 1, q);
  }

  /** For 256-bit keys the word half way between is substituted. */
  lemma ScheduleRowMiddle(key: seq<bv8>, j: nat, r: nat)
    requires KeyOf(key, 8) && 8 <= j < 60 && j % 8 == 4 && r < 4
    ensures RowStartAt(EncryptionKeys(key, 8), j, j - 8, j - 1, r, r, 0)
  {
    ScheduleAt(Rijndael(), KeyWords(key, 8), 60, j);
    MiddleBytes(Expansion(key, 8), j, r);
  }

  lemma MiddleBytes(ws: seq<Word>, j: nat, r: nat)
    requires |ws| % 4 == 0 && 8 <= j < |ws| && r < 4 && SubstitutedAt(Rijndael(), ws, 8, j)
    ensures RowStartAt(RoundKeys(ws), j, j - 8, j - 1, r, r, 0)
  {
    RowMiddle(ws, 8, j, r, ByteOf(ws[j], r), ByteOf(ws[j - 8], r), ByteOf(ws[j - 1], r));
    PlusZero(Plus(ByteOf(ws[j - 8], r), Sbox(ByteOf(ws[j - 1], r))));
    WordOfKeys(ws, j, r);
    WordOfKeys(ws, j - 8, r);
    WordOfKeys(ws, j - 1, r);
  }

  lemma PlusZero(x: bv8)
    ensures Plus(x, 0) == x
  {
  }

  /** Every other word is the previous one plus the one nk before. */
  lemma SchedulePlain(key: seq<bv8>, nk: nat, j: nat, r: nat)
    requires KeyOf(key, nk) && nk <= j < 4 * (nk + 7) && j % nk != 0 && !(nk == 8 && j % 8 == 4) && r < 4
    ensures WordSumAt(EncryptionKeys(key, nk), j, j - nk, j - 1, r)
  {
    PlainForm(key, nk, j);
    PlainBytes(Expansion(key, nk), nk, j, r);
  }

  lemma PlainBytes(ws: seq<Word>, nk: nat, j: nat, r: nat)
    requires |ws| % 4 == 0 && 0 < nk <= j < |ws| && r < 4 && PlainAt(Rijndael(), ws, nk, j)
    ensures WordSumAt(RoundKeys(ws), j, j - nk, j - 1, r)
  {
    Plain(ws, nk, j, r, ByteOf(ws[j], r), ByteOf(ws[j - nk], r), ByteOf(ws[j - 1], r));
    WordOfKeys(ws, j, r);
    WordOfKeys(ws, j - nk, r);
    WordOfKeys(ws, j - 1, r);
  }

  lemma RowNumber(nk: nat, j: nat, i: nat)
    requires (nk == 4 || nk == 6 || nk == 8) && j == nk * (i + 1) < 4 * (nk + 7)
    ensures nk <= j && j % nk == 0 && j / nk - 1 == i < 10
  {
    if nk == 4 {} else if nk == 6 {} else {}
  }

  lemma PlainForm(key: seq<bv8>, nk: nat, j: nat)
    requires KeyOf(key, nk) && nk <= j < 4 * (nk + 7) && j % nk != 0 && !(nk == 8 && j % 8 == 4)
    ensures PlainAt(Rijndael(), Expansion(key, nk), nk, j)
  {
    ScheduleAt(Rijndael(), KeyWords(key, nk), 4 * (nk + 7), j);
  }

  lemma RowForm(key: seq<bv8>, nk: nat, j: nat, i: nat)
    requires KeyOf(key, nk) && j == nk * (i + 1) < 4 * (nk + 7)
    ensures nk <= j && i < 10 && RotatedAt(Rijndael(), Expansion(key, nk), nk, j, i)
  {
    RowNumber(nk, j, i);
    ScheduleAt(Rijndael(), KeyWords(key, nk), 4 * (nk + 7), j);
  }

  lemma RowStart(ws: seq<Word>, nk: nat, j: nat, i: nat, r: nat, q: nat, v: bv8, a: bv8, p: bv8)
    requires 0 < nk <= j < |ws| && i < 10 && r < 4 && q == (r + 1) % 4 && RotatedAt(Rijndael(), ws, nk, j, i)
    requires v == ByteOf(ws[j], r) && a == ByteOf(ws[j - nk], r) && p == ByteOf(ws[j - 1], q)
    ensures v == Plus(Plus(a, Sbox(p)), RoundConstant(i, r))
  {
    var g := Rijndael();
    BytesSound();
    RotatedByte(g, 1, ws[j - nk], ws[j - 1], i, r);
    BoxIs(p);
    ConstantByte(i, r);
    SumOfThree(v, a, g.sb(p), ByteOf(Rcon(g.f, 1, i), r));
  }

  lemma RowMiddle(ws: seq<Word>, nk: nat, j: nat, r: nat, v: bv8, a: bv8, p: bv8)
    requires 0 < nk <= j < |ws| && r < 4 && SubstitutedAt(Rijndael(), ws, nk, j)
    requires v == ByteOf(ws[j], r) && a == ByteOf(ws[j - nk], r) && p == ByteOf(ws[j - 1], r)
    ensures v == Plus(a, Sbox(p))
  {
    var g := Rijndael();
    BoxedByte(g, ws[j - nk], ws[j - 1], r);
    BoxIs(p);
    SumOfTwo(v, a, g.sb(p));
  }

  lemma Plain(ws: seq<Word>, nk: nat, j: nat, r: nat, v: bv8, a: bv8, p: bv8)
    requires 0 < nk <= j < |ws| && r < 4 && PlainAt(Rijndael(), ws, nk, j)
    requires v == ByteOf(ws[j], r) && a == ByteOf(ws[j - nk], r) && p == ByteOf(ws[j - 1], r)
    ensures v == Plus(a, p)
  {
    SummedByte(Bytes(), ws[j - nk], ws[j - 1], r);
    SumOfTwo(v, a, p);
  }

  /** The 256-bit key of appendix A.3 of FIPS-197. */
  const KEY_A3: seq<bv8> := [
    0x60, 0x3D, 0xEB, 0x10, 0x15, 0xCA, 0x71, 0xBE, 0x2B, 0x73, 0xAE, 0xF0, 0x85, 0x7D, 0x77, 0x81,
    0x1F, 0x35, 0x2C, 0x07, 0x3B, 0x61, 0x08, 0xD7, 0x2D, 0x98, 0x10, 0xA3, 0x09, 0x14, 0xDF, 0xF4]

  /** Its word 8 is 9ba35411, as the appendix has it. */
  lemma KnownWord(key: seq<bv8>)
    requires key == KEY_A3
    ensures KeyOf(key, 8)
    ensures var w := EncryptionKeys(key, 8);
            && WordByte(w, 8, 0) == 0x9B && WordByte(w, 8, 1) == 0xA3
            && WordByte(w, 8, 2) == 0x54 && WordByte(w, 8, 3) == 0x11
  {
    KeyA3Bytes(key);
    KnownSums();
    KnownByte(key, 0, 1, 0x60, 0x14);
    KnownByte(key, 1, 2, 0x3D, 0xDF);
    KnownByte(key, 2, 3, 0xEB, 0xF4);
    KnownByte(key, 3, 0, 0x10, 0x09);
  }

  lemma KeyA3Bytes(key: seq<bv8>)
    requires key == KEY_A3
    ensures KeyOf(key, 8)
    ensures key[0] == 0x60 && key[1] == 0x3D && key[2] == 0xEB && key[3] == 0x10
    ensures key[28] == 0x09 && key[29] == 0x14 && key[30] == 0xDF && key[31] == 0xF4
  {
  }

  /** Byte r of word 8 by the bytes a and p of the key it comes from. */
  ghost function FirstByte(a: bv8, p: bv8, r: nat): bv8 { Plus(Plus(a, Sbox(p)), RoundConstant(0, r)) }

  lemma KnownSums()
    ensures FirstByte(0x60, 0x14, 0) == 0x9B && FirstByte(0x3D, 0xDF, 1) == 0xA3
    ensures FirstByte(0xEB, 0xF4, 2) == 0x54 && FirstByte(0x10, 0x09, 3) == 0x11
  {
    Figure7Row1();
    Figure7RowD();
    Figure7RowF();
    Figure7Row0();
  }

  lemma KnownByte(key: seq<bv8>, r: nat, q: nat, a: bv8, p: bv8)
    requires KeyOf(key, 8) && r < 4 && q == (r + 1) % 4 && key[r] == a && key[28 + q] == p
    ensures WordByte(EncryptionKeys(key, 8), 8, r) == FirstByte(a, p, r)
  {
    ScheduleKey(key, 8, 0, r);
    ScheduleKey(key, 8, 7, q);
    ScheduleRowStart(key, 8, 8, 0, r, q);
  }

  // ----- the rounds

  function Column<T>(s: State<T>, c: nat): Col<T> {
    if c == 0 then s.c0 else if c == 1 then s.c1 else if c == 2 then s.c2 else s.c3
  }

  lemma BlockByte(s: State<bv8>, c: nat, r: nat)
    requires c < 4 && r < 4
    ensures FromState(s)[4 * c + r] == ByteOf(Column(s, c), r)
  {
  }

  lemma StateByte(b: Block, c: nat, r: nat)
    requires c < 4 && r < 4
    ensures ByteOf(Column(ToState(b), c), r) == b[4 * c + r]
  {
    StateRoundTrip(b, ToState(b));
    BlockByte(ToState(b), c, r);
  }

  // Single bytes of the layers, over any field.

  lemma BroughtByte<T>(g: Suite<T>, s: State<T>, c: nat, r: nat, e: nat)
    requires c < 4 && r < 4 && e == (c + r) % 4
    ensures ByteOf(Column(ShiftRows(MapState(g.sb, s)), c), r) == g.sb(ByteOf(Column(s, e), r))
  {
    if c == 0 {} else if c == 1 {} else if c == 2 {} else {}
  }

  lemma MixedByte<T>(f: Field<T>, s: State<T>, c: nat, r: nat)
    requires c < 4 && r < 4
    ensures var d, e := Column(s, c), Column(MixColumns(f, s), c);
            var d1, d2, d3 := ByteOf(d, (r + 1) % 4), ByteOf(d, (r + 2) % 4), ByteOf(d, (r + 3) % 4);
            ByteOf(e, r) == MixRow(f, ByteOf(d, r), d1, d2, d3)
  {
    if r == 0 {} else if r == 1 {} else if r == 2 {} else {}
  }

  lemma KeyedByte<T>(f: Field<T>, s: State<T>, k: State<T>, c: nat, r: nat)
    requires c < 4 && r < 4
    ensures ByteOf(Column(AddRoundKey(f, s, k), c), r) == f.add(ByteOf(Column(s, c), r), ByteOf(Column(k, c), r))
  {
    SummedByte(f, Column(s, c), Column(k, c), r);
  }

  // The same on the bytes of blocks.

  /** The substituted byte that the row shift brings to row r of column c of block x. */
  ghost function Taken(x: Block, c: nat, r: nat): bv8
    requires c < 4 && r < 4
  {
    Sbox(x[4 * ((c + r) % 4) + r])
  }

  /** A byte of MixColumns (section 5.1.3). */
  function Mixed(a: bv8, b: bv8, c: bv8, d: bv8): bv8 { Plus(Plus(Product(2, a), Product(3, b)), Plus(c, d)) }

  /** Byte r of column c after substitution, row shift and mixing of block x. */
  ghost function MixedAt(x: Block, c: nat, r: nat): bv8
    requires c < 4 && r < 4
  {
    Mixed(Taken(x, c, r), Taken(x, c, (r + 1) % 4), Taken(x, c, (r + 2) % 4), Taken(x, c, (r + 3) % 4))
  }

  /** The block after n rounds. */
  ghost function After(rk: seq<State<bv8>>, b: Block, n: nat): Block
    requires n < |rk|
  {
    FromState(Rounds(Layer(), rk, ToState(b), n))
  }

  ghost function Shifted(s: State<bv8>): State<bv8> { ShiftRows(MapState(Rijndael().sb, s)) }

  lemma TakenByte(s: State<bv8>, c: nat, r: nat)
    requires c < 4 && r < 4
    ensures ByteOf(Column(Shifted(s), c), r) == Taken(FromState(s), c, r)
  {
    var e := (c + r) % 4;
    BroughtByte(Rijndael(), s, c, r, e);
    BlockByte(s, e, r);
    BoxIs(ByteOf(Column(s, e), r));
  }

  lemma Doubled(y: bv8)
    ensures Product(2, y) == Bytes().xt(y) && Product(3, y) == Mul3(Bytes(), y)
  {
    BytesSound();
    TimesOne(Bytes(), y);
    TimesEven(Bytes(), 2, y);
    TimesOdd(Bytes(), 3, y);
  }

  lemma MixedIs(v: bv8, a: bv8, b: bv8, c: bv8, d: bv8)
    requires v == MixRow(Bytes(), a, b, c, d)
    ensures v == Mixed(a, b, c, d)
  {
    var f := Bytes();
    Doubled(a);
    Doubled(b);
    SumOfTwo(v, f.add(f.xt(a), Mul3(f, b)), f.add(c, d));
    SumOfTwo(f.add(f.xt(a), Mul3(f, b)), Product(2, a), Product(3, b));
    SumOfTwo(f.add(c, d), c, d);
  }

  lemma MixedOfTaken(s: State<bv8>, c: nat, r: nat)
    requires c < 4 && r < 4
    ensures ByteOf(Column(MixColumns(Bytes(), Shifted(s)), c), r) == MixedAt(FromState(s), c, r)
  {
    var x := FromState(s);
    MixedByte(Bytes(), Shifted(s), c, r);
    TakenByte(s, c, r);
    TakenByte(s, c, (r + 1) % 4);
    TakenByte(s, c, (r + 2) % 4);
    TakenByte(s, c, (r + 3) % 4);
    MixedIs(ByteOf(Column(MixColumns(Bytes(), Shifted(s)), c), r),
            Taken(x, c, r), Taken(x, c, (r + 1) % 4), Taken(x, c, (r + 2) % 4), Taken(x, c, (r + 3) % 4));
  }

  lemma KeyedBlock(s: State<bv8>, k: State<bv8>, c: nat, r: nat)
    requires c < 4 && r < 4
    ensures FromState(AddRoundKey(Bytes(), s, k))[4 * c + r] == Plus(ByteOf(Column(s, c), r), FromState(k)[4 * c + r])
  {
    KeyedByte(Bytes(), s, k, c, r);
    BlockByte(AddRoundKey(Bytes(), s, k), c, r);
    BlockByte(k, c, r);
    SumOfTwo(ByteOf(Column(AddRoundKey(Bytes(), s, k), c), r), ByteOf(Column(s, c), r), ByteOf(Column(k, c), r));
  }

  /** The cipher starts by adding the first round key to the block. */
  lemma FirstAdded(rk: seq<State<bv8>>, b: Block, c: nat, r: nat)
    requires |rk| > 0 && c < 4 && r < 4
    ensures After(rk, b, 0)[4 * c + r] == Plus(b[4 * c + r], FromState(rk[0])[4 * c + r])
  {
    KeyedBlock(ToState(b), rk[0], c, r);
    StateByte(b, c, r);
  }

  /** A full round takes four substituted bytes of the block before, mixes them and adds the key. */
  lemma RoundBytes(rk: seq<State<bv8>>, b: Block, n: nat, c: nat, r: nat)
    requires n + 1 < |rk| && c < 4 && r < 4
    ensures After(rk, b, n + 1)[4 * c + r] == Plus(MixedAt(After(rk, b, n), c, r), FromState(rk[n + 1])[4 * c + r])
  {
    var s := Rounds(Layer(), rk, ToState(b), n);
    MixedOfTaken(s, c, r);
    KeyedBlock(MixColumns(Bytes(), Shifted(s)), rk[n + 1], c, r);
  }

  /** The last round leaves the mixing out. */
  lemma LastBytes(rk: seq<State<bv8>>, b: Block, c: nat, r: nat)
    requires |rk| >= 2 && c < 4 && r < 4
    ensures EncryptBlock(rk, b)[4 * c + r]
         == Plus(Taken(After(rk, b, |rk| - 2), c, r), FromState(rk[|rk| - 1])[4 * c + r])
  {
    var s := Rounds(Layer(), rk, ToState(b), |rk| - 2);
    TakenByte(s, c, r);
    KeyedBlock(Shifted(s), rk[|rk| - 1], c, r);
  }
}
