/** Which code this is. Nothing here is derived from the polynomial by name: the values are those
    that the code is known by. */
module Crc32Values {
  import opened Crc32
  import opened Crc32Detection

  lemma ShiftedOnce(c: bv32, n: nat)
    ensures Shifts(c, n + 8) == Shifts(Shift8(c), n)
  {
    hide Shift;
    ShiftsAdd(c, 8, n);
  }

  lemma OnesByBytes()
    ensures Shift8(0xFFFFFFFF) == 0x2DFD1072
    ensures Shift8(0x2DFD1072) == 0xBE26ED00
    ensures Shift8(0xBE26ED00) == 0x00BE26ED
    ensures Shift8(0x00BE26ED) == 0xDEBB20E3
  {
    EightShifts(0xFFFFFFFF);
    EightShifts(0x2DFD1072);
    EightShifts(0xBE26ED00);
    EightShifts(0x00BE26ED);
  }

  lemma OnesShifted()
    ensures Shifts(0xFFFFFFFF, 32) == 0xDEBB20E3
  {
    hide Shift, Shift8, Shifts;
    OnesByBytes();
    ShiftedOnce(0xFFFFFFFF, 24);
    ShiftedOnce(0x2DFD1072, 16);
    ShiftedOnce(0xBE26ED00, 8);
    Shift8Is(0x00BE26ED);
  }

  /** The first entry of the table that is not zero. */
  lemma SecondEntry()
    ensures Lookup(0, 1) == 0x77073096
  {
    EightShifts(1);
  }

  lemma OwnBytes(c: bv32)
    ensures Xor(Not(c), Word((c & 0xFF) as bv8, ((c >> 8) & 0xFF) as bv8, ((c >> 16) & 0xFF) as bv8, ((c >> 24) & 0xFF) as bv8)) == 0xFFFFFFFF
  {
  }

  lemma NotResidue()
    ensures Not(0xDEBB20E3) == 0x2144DF1C
  {
  }

  /** Any data followed by its own CRC, lowest byte first, has the same CRC. */
  lemma Residue(data: seq<bv8>, previous: bv32)
    ensures var c := Crc(data, previous);
            var own := [(c & 0xFF) as bv8, ((c >> 8) & 0xFF) as bv8, ((c >> 16) & 0xFF) as bv8, ((c >> 24) & 0xFF) as bv8];
            Crc(data + own, previous) == 0x2144DF1C
  {
    hide Xor, Word, Shift, Shifts, Register, Not;
    var c := Crc(data, previous);
    var own := [(c & 0xFF) as bv8, ((c >> 8) & 0xFF) as bv8, ((c >> 16) & 0xFF) as bv8, ((c >> 24) & 0xFF) as bv8];
    CrcInPieces(data, own, previous);
    RegisterWord(Not(c), own);
    OwnBytes(c);
    OnesShifted();
    assert own[4..] == [];
    RegisterDone(0xDEBB20E3);
    NotResidue();
  }

  lemma OneByte(c: bv32, data: seq<bv8>, next: bv32)
    requires data != [] && Shift8(Xor(c, data[0] as bv32)) == next
    ensures Register(c, data) == Register(next, data[1..])
  {
    hide Shift8, Xor;
  }

  lemma Digits1()
    ensures Shift8(0xFFFFFFCE) == 0x7C231048
    ensures Shift8(0x7C23107A) == 0xB0ACBB32
    ensures Shift8(0xB0ACBB01) == 0x77B79C2D
  {
    EightShifts(0xFFFFFFCE);
    EightShifts(0x7C23107A);
    EightShifts(0xB0ACBB01);
  }

  lemma Digits2()
    ensures Shift8(0x77B79C19) == 0x641C1F5C
    ensures Shift8(0x641C1F69) == 0x340AC5E3
    ensures Shift8(0x340AC5D5) == 0xF68D2C9E
  {
    EightShifts(0x77B79C19);
    EightShifts(0x641C1F69);
    EightShifts(0x340AC5D5);
  }

  lemma Digits3()
    ensures Shift8(0xF68D2CA9) == 0xAFFC9660
    ensures Shift8(0xAFFC9658) == 0x651F2550
    ensures Shift8(0x651F2569) == 0x340BC6D9
  {
    EightShifts(0xF68D2CA9);
    EightShifts(0xAFFC9658);
    EightShifts(0x651F2569);
  }

  /** The check value of the code: the CRC of the digits from 1 to 9. */
  lemma CheckValue()
    ensures Crc([0x31, 0x32, 0x33, 0x34, 0x35, 0x36, 0x37, 0x38, 0x39], 0) == 0xCBF43926
  {
    hide Shift, Shift8, Register;
    var data: seq<bv8> := [0x31, 0x32, 0x33, 0x34, 0x35, 0x36, 0x37, 0x38, 0x39];
    Digits1();
    Digits2();
    Digits3();
    OneByte(0xFFFFFFFF, data[0..], 0x7C231048);
    OneByte(0x7C231048, data[1..], 0xB0ACBB32);
    OneByte(0xB0ACBB32, data[2..], 0x77B79C2D);
    OneByte(0x77B79C2D, data[3..], 0x641C1F5C);
    OneByte(0x641C1F5C, data[4..], 0x340AC5E3);
    OneByte(0x340AC5E3, data[5..], 0xF68D2C9E);
    OneByte(0xF68D2C9E, data[6..], 0xAFFC9660);
    OneByte(0xAFFC9660, data[7..], 0x651F2550);
    OneByte(0x651F2550, data[8..], 0x340BC6D9);
    assert data[9..] == [];
    RegisterDone(0x340BC6D9);
    assert data[0..] == data;
  }
}
