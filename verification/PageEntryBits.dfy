// The words behind PageTables.Entry: what the masks of paging.c do to the 64 bits of an entry is
// what the record updates of the model do to its fields.
module PageEntryBits {
  import opened PageTables
  import opened DirectMap

  function Num(w: bv64): nat {
    w as nat
  }

  function Decode(w: bv64): Entry {
    Entry(w & 0x1 != 0, w & 0x2 != 0, w & 0x4 != 0, Num((w >> 3) & 0xF), w & 0x80 != 0,
          Num((w >> 8) & 0xF), Num((w >> 12) & 0xFF_FFFF_FFFF), Num((w >> 52) & 0x7FF),
          w & 0x8000_0000_0000_0000 != 0)
  }

  // The word of a cloned entry: bit 63 and the low 12 bits of the old one, and the new frame
  lemma CloneWord(w: bv64, phys: bv64)
    ensures Decode((w & 0x8000_0000_0000_0FFF) | (phys & 0x000F_FFFF_FFFF_F000))
      == Decode(w).(frame := Decode(phys).frame, high := 0)
  {
    assert Num(0) == 0;
    hide Num;
    var n := (w & 0x8000_0000_0000_0FFF) | (phys & 0x000F_FFFF_FFFF_F000);
    assert n & 0x1 == w & 0x1;
    assert n & 0x2 == w & 0x2;
    assert n & 0x4 == w & 0x4;
    assert (n >> 3) & 0xF == (w >> 3) & 0xF;
    assert n & 0x80 == w & 0x80;
    assert (n >> 8) & 0xF == (w >> 8) & 0xF;
    assert (n >> 12) & 0xFF_FFFF_FFFF == (phys >> 12) & 0xFF_FFFF_FFFF;
    assert (n >> 52) & 0x7FF == 0;
    assert n & 0x8000_0000_0000_0000 == w & 0x8000_0000_0000_0000;
  }

  // set_flags on the word itself, one bit after the other
  function WithNx(w: bv64, nx: bool): bv64 {
    if nx then w | 0x8000_0000_0000_0000 else w & 0x7FFF_FFFF_FFFF_FFFF
  }

  function WithWrite(w: bv64, write: bool): bv64 {
    if write then w | 0x2 else w & 0xFFFF_FFFF_FFFF_FFFD
  }

  function SetFlagsWord(w: bv64, flags: MemFlags, stayPermissive: bool): bv64 {
    WithWrite(WithNx(w, !(flags.exec || stayPermissive)), flags.write || stayPermissive)
  }

  // Bit 63 cleared
  lemma ClearNx(w: bv64)
    ensures Decode(w & 0x7FFF_FFFF_FFFF_FFFF) == Decode(w).(noExec := false)
  {
    hide Num;
    var n := w & 0x7FFF_FFFF_FFFF_FFFF;
    assert n & 0x8000_0000_0000_0000 == 0;
    assert n & 0x1 == w & 0x1;
    assert n & 0x2 == w & 0x2;
    assert n & 0x4 == w & 0x4;
    assert (n >> 3) & 0xF == (w >> 3) & 0xF;
    assert n & 0x80 == w & 0x80;
    assert (n >> 8) & 0xF == (w >> 8) & 0xF;
    assert (n >> 12) & 0xFF_FFFF_FFFF == (w >> 12) & 0xFF_FFFF_FFFF;
    assert (n >> 52) & 0x7FF == (w >> 52) & 0x7FF;
  }

  // Bit 63 set
  lemma SetNx(w: bv64)
    ensures Decode(w | 0x8000_0000_0000_0000) == Decode(w).(noExec := true)
  {
    hide Num;
    var n := w | 0x8000_0000_0000_0000;
    assert n & 0x8000_0000_0000_0000 == 0x8000_0000_0000_0000;
    assert n & 0x1 == w & 0x1;
    assert n & 0x2 == w & 0x2;
    assert n & 0x4 == w & 0x4;
    assert (n >> 3) & 0xF == (w >> 3) & 0xF;
    assert n & 0x80 == w & 0x80;
    assert (n >> 8) & 0xF == (w >> 8) & 0xF;
    assert (n >> 12) & 0xFF_FFFF_FFFF == (w >> 12) & 0xFF_FFFF_FFFF;
    assert (n >> 52) & 0x7FF == (w >> 52) & 0x7FF;
  }

  // Bit 1 cleared
  lemma ClearWrite(w: bv64)
    ensures Decode(w & 0xFFFF_FFFF_FFFF_FFFD) == Decode(w).(writable := false)
  {
    hide Num;
    var n := w & 0xFFFF_FFFF_FFFF_FFFD;
    assert n & 0x2 == 0;
    assert n & 0x1 == w & 0x1;
    assert n & 0x4 == w & 0x4;
    assert (n >> 3) & 0xF == (w >> 3) & 0xF;
    assert n & 0x80 == w & 0x80;
    assert (n >> 8) & 0xF == (w >> 8) & 0xF;
    assert (n >> 12) & 0xFF_FFFF_FFFF == (w >> 12) & 0xFF_FFFF_FFFF;
    assert (n >> 52) & 0x7FF == (w >> 52) & 0x7FF;
    assert n & 0x8000_0000_0000_0000 == w & 0x8000_0000_0000_0000;
  }

  // Bit 1 set
  lemma SetWrite(w: bv64)
    ensures Decode(w | 0x2) == Decode(w).(writable := true)
  {
    hide Num;
    var n := w | 0x2;
    assert n & 0x2 == 0x2;
    assert n & 0x1 == w & 0x1;
    assert n & 0x4 == w & 0x4;
    assert (n >> 3) & 0xF == (w >> 3) & 0xF;
    assert n & 0x80 == w & 0x80;
    assert (n >> 8) & 0xF == (w >> 8) & 0xF;
    assert (n >> 12) & 0xFF_FFFF_FFFF == (w >> 12) & 0xFF_FFFF_FFFF;
    assert (n >> 52) & 0x7FF == (w >> 52) & 0x7FF;
    assert n & 0x8000_0000_0000_0000 == w & 0x8000_0000_0000_0000;
  }

  lemma NxFields(w: bv64, nx: bool)
    ensures Decode(WithNx(w, nx)) == Decode(w).(noExec := nx)
  {
    hide Decode;
    ClearNx(w);
    SetNx(w);
  }

  lemma WriteFields(w: bv64, write: bool)
    ensures Decode(WithWrite(w, write)) == Decode(w).(writable := write)
  {
    hide Decode;
    ClearWrite(w);
    SetWrite(w);
  }

  lemma FlagsWord(w: bv64, flags: MemFlags, stayPermissive: bool)
    ensures Decode(SetFlagsWord(w, flags, stayPermissive)) == SetFlags(Decode(w), flags, stayPermissive)
  {
    hide Decode, WithNx, WithWrite;
    var nx := !(flags.exec || stayPermissive);
    NxFields(w, nx);
    WriteFields(WithNx(w, nx), flags.write || stayPermissive);
  }
}
