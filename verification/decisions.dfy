/**
 * The small decisions of the Voice Recognition V3 driver that compute a
 * value without touching the module: the autoload bitmap, the argument
 * rules of set-signature, the reading of the group byte of a recognition
 * result and the dispatch on the recognized record number.
 */
module Decisions {
  import opened Protocol

  /** Bit b (0 = least significant) of an 8-bit value. */
  predicate BitSet(m: bv8, b: nat)
    requires b < 8
  {
    m & (1 << b) != 0
  }

  /** Bit b of a byte. */
  predicate ByteBit(m: byte, b: nat)
    requires b < 8
  {
    BitSet(m as bv8, b)
  }

  /** The map whose set bits are exactly the positions below n. */
  predicate LowBits(m: byte, n: int)
  {
    forall b: nat | b < 8 :: ByteBit(m, b) <==> b < n
  }

  /**
   * The subcommand byte of `handle_VR_setAutoLoad`: one bit ORed in per
   * list position, into a `uint8_t`. Positions from 8 on add no bit that a
   * `uint8_t` keeps, so the map has exactly the low min(len, 8) bits set,
   * whatever the record values are.
   */
  method AutoLoadBitmap(len: byte) returns (mask: byte)
    ensures LowBits(mask, len as int)
    ensures len >= 8 ==> mask == 0xFF
    ensures len == 0 ==> mask == 0
  {
    var bits: bv8 := 0;
    var i := 0;
    while i < len as int
      invariant 0 <= i <= len as int
      invariant forall b: nat | b < 8 :: BitSet(bits, b) <==> b < i
    {
      if i < 8 {
        ghost var before := bits;
        bits := bits | (1 << i);
        forall b: nat | b < 8
          ensures BitSet(bits, b) <==> b < i + 1
        {
          OrBit(before, i, b);
        }
      }
      i := i + 1;
    }
    if len >= 8 {
      AllBitsSet(bits);
    }
    if len == 0 {
      NoBitsSet(bits);
    }
    mask := bits as byte;
    assert mask as bv8 == bits;
  }

  /** ORing in bit i sets bit i and leaves the other bits as they were. */
  lemma OrBit(m: bv8, i: nat, b: nat)
    requires i < 8 && b < 8
    ensures BitSet(m | (1 << i), b) <==> BitSet(m, b) || b == i
  {
  }

  /** A byte with all eight bits set is 0xFF. */
  lemma AllBitsSet(m: bv8)
    requires forall b: nat | b < 8 :: BitSet(m, b)
    ensures m == 0xFF
  {
    assert BitSet(m, 0) && BitSet(m, 1) && BitSet(m, 2) && BitSet(m, 3);
    assert BitSet(m, 4) && BitSet(m, 5) && BitSet(m, 6) && BitSet(m, 7);
  }

  /** A byte with no bit set is 0. */
  lemma NoBitsSet(m: bv8)
    requires forall b: nat | b < 8 :: !BitSet(m, b)
    ensures m == 0
  {
    assert !BitSet(m, 0) && !BitSet(m, 1) && !BitSet(m, 2) && !BitSet(m, 3);
    assert !BitSet(m, 4) && !BitSet(m, 5) && !BitSet(m, 6) && !BitSet(m, 7);
  }

  /** `strlen`: the number of bytes before the first NUL. */
  function Strlen(s: seq<byte>): (n: nat)
    requires 0 in s
    ensures n < |s| && s[n] == 0 && 0 !in s[..n]
  {
    if s[0] == 0 then 0 else 1 + Strlen(s[1..])
  }

  /**
   * The payload `handle_VR_setSignature` sends, or None when it returns -1
   * without sending. `buf` is None for NULL and otherwise the
   * memory it designates. With `len` 0 and a string, the length
   * is taken with `strlen` and stored in the `uint8_t len`, so it is kept
   * modulo 256 before the 10-byte cap is applied.
   */
  function SignaturePayload(buf: Option<seq<byte>>, len: byte): (r: Option<seq<byte>>)
    requires buf.Some? && len == 0 ==> 0 in buf.value
    requires buf.Some? && len != 0 ==> len as int <= |buf.value|
    ensures buf.None? ==> (r.Some? <==> len == 0) && (r.Some? ==> r.value == [])
    ensures buf.Some? && len != 0 ==> r == Some(buf.value[..len])
    ensures buf.Some? && len == 0 ==>
              && (r.None? <==> Strlen(buf.value) % 256 > 10)
              && (r.Some? ==> |r.value| <= 10 && 0 !in r.value && r.value <= buf.value)
              && (r.Some? && Strlen(buf.value) < 256 ==> r.value == buf.value[..Strlen(buf.value)])
  {
    match buf
    case None => if len == 0 then Some([]) else None
    case Some(s) =>
      if len == 0 then
        var n := Uint8(Strlen(s));
        if n > 10 then None else Some(s[..n])
      else Some(s[..len])
  }

  /**
   * An empty string with length 0 sends exactly what NULL with
   * length 0 (delete) sends: the two requests cannot be told apart.
   */
  lemma EmptySignatureIsDelete(s: seq<byte>)
    requires |s| > 0 && s[0] == 0
    ensures SignaturePayload(Some(s), 0) == SignaturePayload(None, 0) == Some([])
  {
  }

  /**
   * A string of 256 + k bytes (k at most 10) passes the 10-byte cap,
   * because its length is stored in a `uint8_t`, and only its first k
   * bytes are sent.
   */
  lemma {:induction false} LongSignatureLengthWraps(s: seq<byte>, k: nat)
    requires k <= 10 && 256 + k < |s| && s[256 + k] == 0 && 0 !in s[..256 + k]
    ensures SignaturePayload(Some(s), 0) == Some(s[..k])
  {
    assert 0 in s;
    assert Strlen(s) == 256 + k;
  }

  /** The group mode named by byte 0 of a recognition result. */
  datatype Group = NoGroup | UserGroup(n: byte) | SystemGroup(n: byte)

  /** A group that a single byte can name. */
  predicate Representable(g: Group)
  {
    match g
    case NoGroup => true
    case UserGroup(n) => n < 0x7F
    case SystemGroup(n) => n < 0x80
  }

  /** The byte that names a group: 0xFF, 0x80 | n or n. */
  function GroupByte(g: Group): byte
    requires Representable(g)
  {
    match g
    case NoGroup => 0xFF
    case UserGroup(n) => n + 0x80
    case SystemGroup(n) => n
  }

  /**
   * `resource_VR_printVR`'s reading of the group byte: 0xFF is no group,
   * bit 0x80 set is user group (low seven bits), otherwise system group.
   */
  function GroupOf(b: byte): (g: Group)
    ensures g == NoGroup <==> b == 0xFF
    ensures g.UserGroup? <==> 0x80 <= b < 0xFF
    ensures g.SystemGroup? <==> b < 0x80
    ensures Representable(g) && GroupByte(g) == b
  {
    HighBit(b);
    if b == 0xFF then NoGroup
    else if (b as bv8) & 0x80 != 0 then UserGroup(((b as bv8) & 0x7F) as byte)
    else SystemGroup(b)
  }

  /** Bit 0x80 of a byte is its high half, and masking it off subtracts 0x80. */
  lemma HighBit(b: byte)
    ensures ((b as bv8) & 0x80 != 0) <==> b >= 0x80
    ensures b >= 0x80 ==> ((b as bv8) & 0x7F) as int == b as int - 0x80
  {
  }

  /** Every group a byte can name is read back from its byte. */
  lemma GroupRoundTrip(g: Group)
    requires Representable(g)
    ensures GroupOf(GroupByte(g)) == g
  {
    var b := GroupByte(g);
    match g
    case NoGroup =>
    case UserGroup(n) =>
      assert GroupOf(b).UserGroup? && GroupByte(GroupOf(b)) == b;
    case SystemGroup(n) =>
  }

  /** The four record numbers `handle_VR_loop_check` acts on. */
  const ON_RECORD: byte := 1
  const OFF_RECORD: byte := 2
  const FW_RECORD: byte := 3
  const BW_RECORD: byte := 4

  datatype Action = TurnOn | TurnOff | Forward | Backward | Undefined

  /** The record number that triggers an action. */
  function ActionRecord(a: Action): byte
    requires a != Undefined
  {
    match a
    case TurnOn => ON_RECORD
    case TurnOff => OFF_RECORD
    case Forward => FW_RECORD
    case Backward => BW_RECORD
  }

  /** The `switch` of `handle_VR_loop_check` on the recognized record number. */
  function RecordAction(record: byte): (a: Action)
    ensures a == Undefined <==> !(1 <= record <= 4)
    ensures a != Undefined ==> ActionRecord(a) == record
  {
    if record == ON_RECORD then TurnOn
    else if record == OFF_RECORD then TurnOff
    else if record == FW_RECORD then Forward
    else if record == BW_RECORD then Backward
    else Undefined
  }

  /** Each action is dispatched from its own record number. */
  lemma ActionRoundTrip(a: Action)
    requires a != Undefined
    ensures RecordAction(ActionRecord(a)) == a
  {
  }
}
