/** The flag byte of a BIR element (compiler/ir/bir/tree/src/org/jetbrains/kotlin/bir/BirElementBase.kt):
    the low bits hold boolean flags, the top `CONTAINING_LIST_ID_BITS` bits hold the id of the
    children list the element sits in. Kotlin's `Byte` is a signed 8-bit value; the model keeps
    its bits as a `bv8` and sign-extends explicitly where the source calls `toInt()`. */
module BirFlags {
  import opened Wrappers

  const FLAG_IS_IN_CLASS_INDEX: bv8 := 1
  const FLAG_HAS_VALID_FORWARD_REFERENCES_INDEX: bv8 := 2
  const FLAG_IS_IN_MOVED_ELEMENTS_BUFFER: bv8 := 4
  const FLAG_HAS_BEEN_REGISTERED_AS_BACK_REFERENCE: bv8 := 8

  const CONTAINING_LIST_ID_BITS: nat := 3

  /** The flags below the list id: `-1 ushr (32 - 8 + CONTAINING_LIST_ID_BITS)` cut to a byte. */
  const LOW_MASK: bv8 := 0x1F

  /** `Byte.toInt()`: the two's-complement value of the byte. */
  function SignedValue(b: bv8): (v: int)
    ensures -128 <= v < 128
    ensures v % 256 == b as int
  {
    if b < 128 then b as int else b as int - 256
  }

  /** `hasFlag`. */
  function HasFlag(flags: bv8, flag: bv8): bool {
    flags & flag != 0
  }

  /** `setFlag`: the bits of `flag` are set or cleared; every other bit keeps its value. */
  function SetFlag(flags: bv8, flag: bv8, value: bool): (r: bv8)
    ensures value ==> r & flag == flag
    ensures !value ==> r & flag == 0
    ensures r & !flag == flags & !flag
  {
    if value then flags | flag else flags & !flag
  }

  /** Reading a flag back after setting it gives the value set, for any non-zero flag. */
  lemma SetThenHas(flags: bv8, flag: bv8, value: bool)
    requires flag != 0
    ensures HasFlag(SetFlag(flags, flag, value), flag) == value
  {
  }

  /** Setting one flag leaves every flag that shares no bit with it as it was. */
  lemma SetFlagOthers(flags: bv8, flag: bv8, other: bv8, value: bool)
    requires flag & other == 0
    ensures HasFlag(SetFlag(flags, flag, value), other) == HasFlag(flags, other)
  {
    assert SetFlag(flags, flag, value) & other == flags & other by {
      assert other & !flag == other;
    }
  }

  /** The getter of `containingListId`: `flags.toInt() shr 5`, an arithmetic shift of the
      sign-extended byte, so ids read back lie in -4..3. Dafny's `/` by a positive divisor
      rounds down, as the shift does. */
  function ContainingListId(flags: bv8): (id: int)
    ensures -4 <= id < 4
    ensures id == SignedValue(flags) / 32
  {
    SignedValue(flags) / 32
  }

  /** The setter of `containingListId`: the low five bits are kept and the top three bits
      take the low three bits of `value` (`(value shl 5).toByte()` drops everything else). */
  function SetContainingListId(flags: bv8, value: int): (r: bv8)
    ensures r & LOW_MASK == flags & LOW_MASK
    ensures (r >> 5) as int == value % 8
  {
    var top := (value % 8) as bv8;
    (flags & LOW_MASK) | (top << 5)
  }

  /** Writing the list id touches none of the boolean flags. */
  lemma ListIdKeepsFlags(flags: bv8, value: int, flag: bv8)
    requires flag == FLAG_IS_IN_CLASS_INDEX || flag == FLAG_HAS_VALID_FORWARD_REFERENCES_INDEX
          || flag == FLAG_IS_IN_MOVED_ELEMENTS_BUFFER || flag == FLAG_HAS_BEEN_REGISTERED_AS_BACK_REFERENCE
    ensures HasFlag(SetContainingListId(flags, value), flag) == HasFlag(flags, flag)
  {
    var r := SetContainingListId(flags, value);
    assert r & flag == (r & LOW_MASK) & flag;
    assert flags & flag == (flags & LOW_MASK) & flag;
  }

  /** Setting a boolean flag does not move the list id. */
  lemma FlagKeepsListId(flags: bv8, flag: bv8, value: bool)
    requires flag & !LOW_MASK == 0
    ensures ContainingListId(SetFlag(flags, flag, value)) == ContainingListId(flags)
  {
    var r := SetFlag(flags, flag, value);
    assert r & !LOW_MASK == flags & !LOW_MASK;
    TopBitsDecide(r, flags);
  }

  /** Bytes that agree in their top three bits have the same list id. */
  lemma TopBitsDecide(a: bv8, b: bv8)
    requires a & !LOW_MASK == b & !LOW_MASK
    ensures ContainingListId(a) == ContainingListId(b)
  {
    assert a >> 5 == b >> 5 by {
      assert a >> 5 == (a & !LOW_MASK) >> 5;
      assert b >> 5 == (b & !LOW_MASK) >> 5;
    }
    ShiftIsDivision(a);
    ShiftIsDivision(b);
  }

  /** The id is the top three bits read as a signed 3-bit number. */
  lemma ShiftIsDivision(b: bv8)
    ensures ContainingListId(b) == if (b >> 5) < 4 then (b >> 5) as int else (b >> 5) as int - 8
  {
    var t := (b >> 5) as int;
    var low := (b & LOW_MASK) as int;
    assert b as int == 32 * t + low by {
      assert b == ((b >> 5) << 5) | (b & LOW_MASK);
      assert ((b >> 5) << 5) & (b & LOW_MASK) == 0;
      assert (((b >> 5) << 5) as int) == 32 * t;
    }
    assert 0 <= low < 32;
  }

  /** A written id reads back as itself when it is 0..3, and as itself minus 8 when its low
      three bits are 4..7: the getter sign-extends the top bit of the byte. */
  lemma ListIdRoundTrip(flags: bv8, value: int)
    ensures var m := value % 8;
            ContainingListId(SetContainingListId(flags, value)) == if m < 4 then m else m - 8
    ensures 0 <= value < 4 ==> ContainingListId(SetContainingListId(flags, value)) == value
  {
    ShiftIsDivision(SetContainingListId(flags, value));
  }

  /** `getContainingList`: no list for id 0 or without a parent element; otherwise the parent's
      list with that id (looked up by `getChildrenListById`, which is not part of this model). */
  function ContainingList<P>(flags: bv8, parent: Option<P>): (r: Option<(P, int)>)
    ensures r.None? <==> ContainingListId(flags) == 0 || parent.None?
    ensures r.Some? ==> r.value == (parent.value, ContainingListId(flags))
  {
    var id := ContainingListId(flags);
    if id == 0 then None
    else match parent
      case None => None
      case Some(p) => Some((p, id))
  }
}
