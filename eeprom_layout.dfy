/** Fixed layout of the node EEPROM table: a 0x400-byte image of which only the
    first half (up to and including the checksum at 0x1FF) is used. */
module EepromLayout {

  /** One EEPROM cell. */
  type Byte = b: int | 0 <= b < 256

  /** Text as the bytes `puts` writes (one byte per character). */
  type Text = seq<Byte>

  const EepromSize: nat := 0x400
  const TableVersionAddr: nat := 0x0
  const NodeIdAddr: nat := 0x4
  const SerNumAddr: nat := 0x10
  const MaxSerNumLen: nat := 0x20
  const DescAddr: nat := 0x40
  const MaxDescLen: nat := 0x40
  const NodeNameAddr: nat := 0x80
  const MaxNodeNameLen: nat := 0x20
  /** Only half of the EEPROM is used: the checksum is its last byte. */
  const CheckSumAddr: nat := 0x1ff

  /** Table format version 1.0, stored at TableVersionAddr. */
  const TableVersion: seq<Byte> := [0x1, 0x0]

  /** The bytes of a literal ASCII string. */
  function Ascii(s: string): (b: Text)
    requires forall i | 0 <= i < |s| :: s[i] < 128 as char
    ensures |b| == |s|
    ensures forall i | 0 <= i < |s| :: b[i] == s[i] as int
  {
    seq(|s|, i requires 0 <= i < |s| => s[i] as int)
  }

  /** Address range [lo, hi) of the image. */
  datatype Region = Region(lo: nat, hi: nat) {
    predicate Contains(a: int) { lo <= a < hi }
    predicate DisjointFrom(other: Region) { hi <= other.lo || other.hi <= lo }
  }

  /** The slot reserved for each text field: its base address and its maximum
      length including the NUL terminator. */
  const SerNumRegion := Region(SerNumAddr, SerNumAddr + MaxSerNumLen)
  const DescRegion := Region(DescAddr, DescAddr + MaxDescLen)
  const NodeNameRegion := Region(NodeNameAddr, NodeNameAddr + MaxNodeNameLen)

  /** Every write of the build stays inside the image (IntelHex would otherwise
      grow its sparse map past the EEPROM). */
  predicate FitsImage(sn: Text, desc: Text, name: Text)
  {
    SerNumAddr + |sn| <= EepromSize &&
    DescAddr + |desc| <= EepromSize &&
    NodeNameAddr + |name| <= EepromSize
  }

  /** The three slots are pairwise disjoint, they lie after the version and node-ID
      bytes and below the checksum byte, and a text that passes its length check
      (at most the slot size minus one) fits, terminator included, in its slot. */
  lemma SlotsDisjoint(snLen: nat, descLen: nat, nameLen: nat)
    requires snLen <= MaxSerNumLen - 1
    requires descLen <= MaxDescLen - 1
    requires nameLen <= MaxNodeNameLen - 1
    ensures SerNumRegion.DisjointFrom(DescRegion)
    ensures SerNumRegion.DisjointFrom(NodeNameRegion)
    ensures DescRegion.DisjointFrom(NodeNameRegion)
    ensures forall r | r in {SerNumRegion, DescRegion, NodeNameRegion} ::
      r.hi <= CheckSumAddr && TableVersionAddr + |TableVersion| <= r.lo && NodeIdAddr < r.lo
    ensures SerNumRegion.Contains(SerNumAddr + snLen)
    ensures DescRegion.Contains(DescAddr + descLen)
    ensures NodeNameRegion.Contains(NodeNameAddr + nameLen)
  {
  }
}
