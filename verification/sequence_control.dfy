/**
 wifi_sniffer.c's rotate and get_seq. The C code computes in 32-bit int on values that fit in 16 bits, so
 every word here is a bv32 and the 16-bit types appear as truncations and sign extensions.
 */
module SequenceControl {

  type Short = x: bv32 | x < 0x1_0000

  /** rotate: a zero-extended unsigned short is shifted in int; the result is not truncated. */
  function Rotate(x: Short, shift: bv32): bv32
    requires shift <= 16
  {
    (x >> shift) | (x << ((16 - shift) % 16))
  }

  function Truncate(x: bv32): Short {
    x & 0xFFFF
  }

  /** An int16_t used in an int expression extends its sign. */
  function SignExtend(x: Short): bv32 {
    if x & 0x8000 != 0 then x | 0xFFFF_0000 else x
  }

  datatype SeqCtrl = SeqCtrl(frag: bv32, seqNo: bv32)

  /**
   Sequence Control is a 12-bit sequence number above a 4-bit fragment number
   (IEEE 802.11-2016, section 9.2.4.4); the split loses nothing, whatever the sign bit.
   */
  function GetSeq(seqctl: Short): (s: SeqCtrl)
    ensures s.frag < 16 && s.seqNo < 4096
    ensures (s.seqNo << 4) | s.frag == seqctl
  {
    var sq := SignExtend(Truncate(Rotate(seqctl, 4)));
    SeqCtrl((sq & 0xF000) >> 12, sq & 0x0FFF)
  }

  /** Rotating on by the complement brings every 16-bit word back. */
  lemma RotateBack(x: Short, k: bv32)
    requires 0 < k < 16
    ensures Truncate(Rotate(Truncate(Rotate(x, k)), 16 - k)) == x
  {
  }
}
