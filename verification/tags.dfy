/** uCini.h: the packed `enum eType` tag byte and the flag macros
    MASK, GET, SET and CLR. */
module Tags {
  import opened Options

  /** Bits 0-3: integer size in bytes, or the bit position of a flag. */
  const MaskNum: bv8 := 0x0F
  /** Bit 4: the integer is signed. */
  const Sgnd: bv8 := 0x10
  /** Bits 5-7: the type selector. */
  const MaskType: bv8 := 0xE0

  const TypeSz: bv8 := 0x00
  const TypeInt: bv8 := 0x20
  const TypeFlag: bv8 := 0x40
  const TypeFunc: bv8 := 0x60

  /** The three masks split a byte: no bit in two of them, every bit in one. */
  lemma MasksPartition()
    ensures MaskNum & Sgnd == 0 && MaskNum & MaskType == 0 && Sgnd & MaskType == 0
    ensures MaskNum | Sgnd | MaskType == 0xFF
  {
  }

  /** The type selectors the header names. */
  datatype TypeName = SzType | IntType | FlagType | FuncType

  function Selector(t: TypeName): (b: bv8)
    ensures b & MaskType == b
    ensures TypeOf(b) == Some(t)
  {
    match t
    case SzType => TypeSz
    case IntType => TypeInt
    case FlagType => TypeFlag
    case FuncType => TypeFunc
  }

  /** The type a tag's selector bits name; the selectors 0x80 to 0xE0 name none. */
  function TypeOf(tag: bv8): Option<TypeName> {
    var sel := tag & MaskType;
    if sel == TypeSz then Some(SzType)
    else if sel == TypeInt then Some(IntType)
    else if sel == TypeFlag then Some(FlagType)
    else if sel == TypeFunc then Some(FuncType)
    else None
  }

  /** Distinct type names have distinct selectors. */
  lemma SelectorInjective(s: TypeName, t: TypeName)
    ensures Selector(s) == Selector(t) ==> s == t
  {
  }

  /** A tag taken apart into its three fields. */
  datatype Fields = Fields(num: bv8, signed: bool, selector: bv8)

  predicate ValidFields(f: Fields) {
    f.num & MaskNum == f.num && f.selector & MaskType == f.selector
  }

  /** Reads the three fields out of a tag; putting them back gives the tag. */
  function Split(tag: bv8): (f: Fields)
    ensures ValidFields(f)
    ensures Join(f) == tag
  {
    Fields(tag & MaskNum, tag & Sgnd != 0, tag & MaskType)
  }

  /** Builds a tag the way the schema tables do (`eType_INT + 4 + eType_SGND`);
      each field reads back unchanged. */
  function Join(f: Fields): (tag: bv8)
    requires ValidFields(f)
    ensures tag & MaskNum == f.num
    ensures (tag & Sgnd != 0) == f.signed
    ensures tag & MaskType == f.selector
  {
    f.num | (if f.signed then Sgnd else 0) | f.selector
  }

  /** MASK(pos): `1u << pos`, an unsigned int; shifting by 32 or more is
      undefined in C. */
  function Mask(pos: nat): bv32
    requires pos < 32
  {
    1 << pos
  }

  /** Whether bit `q` of a flag byte is set. */
  predicate Bit(data: bv8, q: nat)
    requires q < 8
  {
    (data >> q) & 1 == 1
  }

  /** A plain (signed) char operand of `&` or `|` with an unsigned int is
      converted by sign extension: bit 7 is copied into bits 8 to 31. */
  function Promote(data: bv8): (p: bv32)
    ensures (p & 0xFF) as bv8 == data
    ensures p >> 8 == (if Bit(data, 7) then 0xFF_FFFF else 0)
  {
    if data & 0x80 != 0 then (data as bv32) | 0xFFFF_FF00 else data as bv32
  }

  /** GET(data, pos) on a plain char flag byte: nonzero exactly when bit
      `pos` is set, and for positions 8 to 31, which read the sign
      extension, exactly when bit 7 is set. */
  function Get(data: bv8, pos: nat): (r: bv32)
    requires pos < 32
    ensures pos < 8 ==> (r != 0 <==> Bit(data, pos))
    ensures pos >= 8 ==> (r != 0 <==> Bit(data, 7))
  {
    Promote(data) & Mask(pos)
  }

  /** SET(data, pos) on a char: or-assigns the mask and truncates back to
      8 bits, so only the mask's low byte matters (SetPromoted) and a
      position of 8 or more changes nothing. */
  function Set(data: bv8, pos: nat): (r: bv8)
    requires pos < 32
    ensures pos < 8 ==> Bit(r, pos)
    ensures forall q | 0 <= q < 8 && q != pos :: Bit(r, q) == Bit(data, q)
  {
    var low := LowMask(pos);
    SetBits(data, low, pos);
    data | low
  }

  /** Computing SET on the promoted char and truncating the result back to
      a char is the same as setting the mask's low byte in the char. */
  lemma SetPromoted(data: bv8, pos: nat)
    requires pos < 32
    ensures ((Promote(data) | Mask(pos)) & 0xFF) as bv8 == Set(data, pos)
  {
    assert (Promote(data) & 0xFF) as bv8 == data;
  }

  lemma SetBits(data: bv8, low: bv8, pos: nat)
    requires pos < 8 ==> low == 1 << pos
    requires pos >= 8 ==> low == 0
    ensures pos < 8 ==> Bit(data | low, pos)
    ensures forall q | 0 <= q < 8 && q != pos :: Bit(data | low, q) == Bit(data, q)
  {
    forall q | 0 <= q < 8 && q != pos
      ensures Bit(data | low, q) == Bit(data, q)
    {
      assert (low >> q) & 1 == 0;
    }
  }

  /** CLR(data, pos) on a char: and-assigns the complement of the mask; in
      8 bits only the mask's low byte matters (ClrPromoted). */
  function Clr(data: bv8, pos: nat): (r: bv8)
    requires pos < 32
    ensures pos < 8 ==> !Bit(r, pos)
    ensures forall q | 0 <= q < 8 && q != pos :: Bit(r, q) == Bit(data, q)
  {
    var low := LowMask(pos);
    ClearedBits(data, low, pos);
    data & !low
  }

  lemma ClearedBits(data: bv8, low: bv8, pos: nat)
    requires pos < 8 ==> low == 1 << pos
    requires pos >= 8 ==> low == 0
    ensures pos < 8 ==> !Bit(data & !low, pos)
    ensures forall q | 0 <= q < 8 && q != pos :: Bit(data & !low, q) == Bit(data, q)
  {
    forall q | 0 <= q < 8 && q != pos
      ensures Bit(data & !low, q) == Bit(data, q)
    {
      KeptBit(data, low, pos, q);
    }
  }

  /** Clearing the bits of `low` keeps every bit outside it. */
  lemma KeptBit(data: bv8, low: bv8, pos: nat, q: nat)
    requires pos < 8 ==> low == 1 << pos
    requires pos >= 8 ==> low == 0
    requires q < 8 && q != pos
    ensures Bit(data & !low, q) == Bit(data, q)
  {
    assert (low >> q) & 1 == 0;
  }

  /** Computing CLR on the promoted unsigned int and truncating the result
      to a char is the same as clearing the mask's low byte in the char. */
  lemma ClrPromoted(data: bv8, pos: nat)
    requires pos < 32
    ensures ((Promote(data) & !Mask(pos)) & 0xFF) as bv8 == Clr(data, pos)
  {
  }

  /** The bits of MASK(pos) that land in a char. */
  function LowMask(pos: nat): (m: bv8)
    requires pos < 32
    ensures pos < 8 ==> m == 1 << pos
    ensures pos >= 8 ==> m == 0
  {
    (Mask(pos) & 0xFF) as bv8
  }

  /** SET and CLR are idempotent, and the last of the two wins. */
  lemma SetClrIdempotent(data: bv8, pos: nat)
    requires pos < 32
    ensures Set(Set(data, pos), pos) == Set(data, pos)
    ensures Clr(Clr(data, pos), pos) == Clr(data, pos)
    ensures Set(Clr(data, pos), pos) == Set(data, pos)
    ensures Clr(Set(data, pos), pos) == Clr(data, pos)
  {
  }
}
