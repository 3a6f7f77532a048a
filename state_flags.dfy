/**
 * The packed state word of a catalog entry: one 32-bit `int` holding the
 * document-flag bits (0..15), the reading state (16..19), the rate (20..23),
 * the info type (24..25) and the profile id (26..29).
 * Java's `int` is modelled as its two's-complement bit pattern, a `bv32`.
 */
module StateFlags {

  // Low document-flag bits.
  const DONT_USE_DOCUMENT_STYLES_FLAG: bv32 := 1
  const DONT_REFLOW_TXT_FILES_FLAG: bv32 := 2
  const USE_DOCUMENT_FONTS_FLAG: bv32 := 4
  /** The 16 lower bits reserved for document flags. */
  const DOCUMENT_FLAG_BITS: bv32 := 0xFFFF

  // Bits 16..19: reading state.
  const READING_STATE_SHIFT: bv32 := 16
  const READING_STATE_MASK: bv32 := 0x0F
  const STATE_NEW: bv32 := 0
  const STATE_TO_READ: bv32 := 1
  const STATE_READING: bv32 := 2
  const STATE_FINISHED: bv32 := 3

  // Bits 20..23: rate.
  const RATE_SHIFT: bv32 := 20
  const RATE_MASK: bv32 := 0x0F

  // Bits 24..25: info type.
  const TYPE_SHIFT: bv32 := 24
  const TYPE_MASK: bv32 := 0x03
  const TYPE_NOT_SET: bv32 := 0
  const TYPE_FS_ROOT: bv32 := 1
  const TYPE_DOWNLOAD_DIR: bv32 := 2

  // Bits 26..29: profile id.
  const PROFILE_ID_SHIFT: bv32 := 26
  const PROFILE_ID_MASK: bv32 := 0x0F

  /** The named fields of the word; each is a (shift, mask) pair of the constants above. */
  datatype Field = ReadingState | Rate | InfoType | ProfileId

  function Shift(f: Field): bv32
  {
    match f
    case ReadingState => READING_STATE_SHIFT
    case Rate => RATE_SHIFT
    case InfoType => TYPE_SHIFT
    case ProfileId => PROFILE_ID_SHIFT
  }

  function Mask(f: Field): bv32
  {
    match f
    case ReadingState => READING_STATE_MASK
    case Rate => RATE_MASK
    case InfoType => TYPE_MASK
    case ProfileId => PROFILE_ID_MASK
  }

  /** The bits of the word that field `f` occupies. */
  function Bits(f: Field): bv32
  {
    Mask(f) << Shift(f)
  }

  /** `getBitValue`: the field at `shift` selected by `mask`. */
  function GetBitValue(flags: bv32, shift: bv32, mask: bv32): bv32
    requires shift < 32
  {
    (flags >> shift) & mask
  }

  /** The word `setBitValue` stores: the field at `shift` replaced by `value & mask`. */
  function SetBitValue(flags: bv32, value: bv32, shift: bv32, mask: bv32): bv32
    requires shift < 32
  {
    (flags & !(mask << shift)) | ((value & mask) << shift)
  }

  /** The getter of a named field (`getReadingState`, `getRate`, `getType`, `getProfileId`). */
  function Get(flags: bv32, f: Field): bv32
  {
    GetBitValue(flags, Shift(f), Mask(f))
  }

  /** The word a named setter (`setReadingState`, `setRate`, `setType`, `setProfileId`) stores. */
  function Set(flags: bv32, f: Field, value: bv32): bv32
  {
    SetBitValue(flags, value, Shift(f), Mask(f))
  }

  /** Reading a field back after writing it yields the written value truncated to the field's mask. */
  lemma GetAfterSet(flags: bv32, f: Field, value: bv32)
    ensures Get(Set(flags, f, value), f) == value & Mask(f)
  {
    match f
    case ReadingState =>
    case Rate =>
    case InfoType =>
    case ProfileId =>
  }

  /** Writing a field leaves every bit outside `mask << shift` as it was, the document flags included. */
  lemma SetKeepsOtherBits(flags: bv32, f: Field, value: bv32)
    ensures Set(flags, f, value) & !Bits(f) == flags & !Bits(f)
    ensures Set(flags, f, value) & DOCUMENT_FLAG_BITS == flags & DOCUMENT_FLAG_BITS
  {
  }

  /** Writing a field never changes the value of another named field. */
  lemma SetKeepsOtherFields(flags: bv32, f: Field, value: bv32, g: Field)
    requires f != g
    ensures Get(Set(flags, f, value), g) == Get(flags, g)
  {
  }

  /** The setter reports a change (`flags != oldFlags`) exactly when the field held something other than `value & mask`. */
  lemma SetChangesIff(flags: bv32, f: Field, value: bv32)
    ensures Set(flags, f, value) != flags <==> Get(flags, f) != value & Mask(f)
  {
    match f
    case ReadingState =>
    case Rate =>
    case InfoType =>
    case ProfileId =>
  }

  /** A field read is already within its mask, so writing it back masks nothing away. */
  lemma GetIsMasked(flags: bv32, f: Field)
    ensures Get(flags, f) & Mask(f) == Get(flags, f)
  {
  }

  /** The four named fields occupy pairwise disjoint bit ranges, all clear of the document-flag bits. */
  lemma FieldsDisjoint(f: Field, g: Field)
    ensures f != g ==> Bits(f) & Bits(g) == 0
    ensures Bits(f) & DOCUMENT_FLAG_BITS == 0
  {
  }

  /** `setFlag`: sets or clears the bits of `flag`. */
  function SetFlag(flags: bv32, flag: bv32, value: bool): bv32
  {
    (flags & !flag) | (if value then flag else 0)
  }

  /** `getFlag`: whether any bit of `flag` is set. */
  predicate GetFlag(flags: bv32, flag: bv32)
  {
    flags & flag != 0
  }

  /** After `setFlag(flag, true)` every bit of `flag` is set. */
  lemma SetFlagTrue(flags: bv32, flag: bv32)
    ensures SetFlag(flags, flag, true) & flag == flag
  {
  }

  /** After `setFlag(flag, false)` no bit of `flag` is set. */
  lemma SetFlagFalse(flags: bv32, flag: bv32)
    ensures SetFlag(flags, flag, false) & flag == 0
  {
  }

  /** `setFlag` leaves every bit outside `flag` as it was. */
  lemma SetFlagKeepsOtherBits(flags: bv32, flag: bv32, value: bool)
    ensures SetFlag(flags, flag, value) & !flag == flags & !flag
  {
  }

  /** `setFlag` then `getFlag` reads back the value written, for a non-zero flag. */
  lemma GetFlagAfterSetFlag(flags: bv32, flag: bv32, value: bool)
    requires flag != 0
    ensures GetFlag(SetFlag(flags, flag, value), flag) <==> value
  {
    if value {
      SetFlagTrue(flags, flag);
    } else {
      SetFlagFalse(flags, flag);
    }
  }
}
