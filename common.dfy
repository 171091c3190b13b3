/** Small value types shared by the modules of the model. */
module Common {

  /** An unsigned 8-bit value (the source's uint8_t / BYTE / char cells). */
  newtype byte = x: int | 0 <= x < 256

  /** An unsigned 32-bit value (the source's DWORD / ARGB cells). */
  newtype uint32 = x: int | 0 <= x < 0x1_0000_0000

  /** The conventional optional value, standing in for a nullable pointer. */
  datatype Option<+T> = None | Some(value: T)

  /** The offset of row y in rows of `eff` cells each, added up row by row. */
  function RowAt(eff: nat, y: nat): nat {
    if y == 0 then 0 else RowAt(eff, y - 1) + eff
  }

  /** RowAt is the product `y * eff`. */
  lemma {:induction false} RowAtIs(eff: nat, y: nat)
    ensures RowAt(eff, y) == y * eff == eff * y
  {
    if y > 0 {
      RowAtIs(eff, y - 1);
      assert y * eff == (y - 1) * eff + eff;
    }
  }

  /** Later rows start later. */
  lemma {:induction false} RowAtMono(eff: nat, y: nat, z: nat)
    requires y <= z
    ensures RowAt(eff, y) <= RowAt(eff, z)
  {
    if y < z {
      RowAtMono(eff, y, z - 1);
    }
  }

  /** A row offset plus a column offset inside the row stays before row h. */
  lemma RowOffset(y: nat, h: nat, eff: nat, k: nat)
    requires y < h && k < eff
    ensures RowAt(eff, y) + k < RowAt(eff, h)
  {
    RowAtMono(eff, y + 1, h);
  }
}
