/** The EEPROM image the script builds, as a value: each step of the build is a
    function on the byte sequence, and the lemmas state what the finished image holds. */
module ImageSpec {
  import opened EepromLayout
  import opened InputValidator

  /** `[0x00] * n`. */
  function Zeros(n: nat): (z: seq<Byte>)
    ensures |z| == n && forall i | 0 <= i < n :: z[i] == 0
  {
    seq(n, _ => 0)
  }

  /** The image after storing `bytes` from address `addr` on (slice store or `puts`):
      those addresses hold `bytes`, every other address keeps its value. */
  function WriteAt(img: seq<Byte>, addr: nat, bytes: seq<Byte>): (r: seq<Byte>)
    requires addr + |bytes| <= |img|
    ensures |r| == |img|
    ensures forall i | 0 <= i < |bytes| :: r[addr + i] == bytes[i]
    ensures forall i | 0 <= i < |img| && !(addr <= i < addr + |bytes|) :: r[i] == img[i]
  {
    img[..addr] + bytes + img[addr + |bytes|..]
  }

  /** Sum of the bytes at addresses lo .. hi-1; at most 255 per byte. */
  function Sum(s: seq<Byte>, lo: nat, hi: nat): (total: nat)
    requires lo <= hi <= |s|
    ensures total <= 255 * (hi - lo)
    decreases hi - lo
  {
    if lo == hi then 0 else Sum(s, lo, hi - 1) + s[hi - 1]
  }

  /** The additive checksum: bytes 0 .. CheckSumAddr-1 summed and masked with 0xff. */
  function Checksum(img: seq<Byte>): Byte
    requires CheckSumAddr <= |img|
  {
    Sum(img, 0, CheckSumAddr) % 256
  }

  /** The stored checksum matches the bytes it covers. */
  predicate ChecksumValid(img: seq<Byte>)
  {
    CheckSumAddr < |img| && img[CheckSumAddr] == Checksum(img)
  }

  /** The image after the table fields are written, before the checksum. */
  function Fields(nodeId: Byte, sn: Text, desc: Text, name: Text): (f: seq<Byte>)
    requires FitsImage(sn, desc, name)
    ensures |f| == EepromSize
  {
    var zeroed := Zeros(EepromSize);
    var versioned := WriteAt(zeroed, TableVersionAddr, TableVersion);
    var identified := versioned[NodeIdAddr := nodeId];
    var serial := WriteAt(identified, SerNumAddr, sn);
    var described := WriteAt(serial, DescAddr, desc);
    WriteAt(described, NodeNameAddr, name)
  }

  /** The finished image: the fields, then the checksum stored at CheckSumAddr. */
  function Image(nodeId: Byte, sn: Text, desc: Text, name: Text): (img: seq<Byte>)
    requires FitsImage(sn, desc, name)
    ensures |img| == EepromSize
  {
    var f := Fields(nodeId, sn, desc, name);
    f[CheckSumAddr := Checksum(f)]
  }

  /** Address `a` is written by some step of the build (the bytes of a text, not its terminator). */
  predicate Written(a: int, sn: Text, desc: Text, name: Text)
  {
    Region(TableVersionAddr, TableVersionAddr + |TableVersion|).Contains(a) || a == NodeIdAddr ||
    Region(SerNumAddr, SerNumAddr + |sn|).Contains(a) ||
    Region(DescAddr, DescAddr + |desc|).Contains(a) ||
    Region(NodeNameAddr, NodeNameAddr + |name|).Contains(a) ||
    a == CheckSumAddr
  }

  /** Two sequences that agree on [lo, hi) have the same sum there. */
  lemma {:induction false} SumAgree(s: seq<Byte>, t: seq<Byte>, lo: nat, hi: nat)
    requires lo <= hi <= |s| && hi <= |t|
    requires forall i | lo <= i < hi :: s[i] == t[i]
    ensures Sum(s, lo, hi) == Sum(t, lo, hi)
    decreases hi - lo
  {
    if lo < hi {
      SumAgree(s, t, lo, hi - 1);
    }
  }

  /** Format version 1.0 at address 0, the node ID at address 4. */
  lemma ImageHeader(nodeId: Byte, sn: Text, desc: Text, name: Text)
    requires FitsImage(sn, desc, name)
    ensures Image(nodeId, sn, desc, name)[TableVersionAddr] == 0x01
    ensures Image(nodeId, sn, desc, name)[TableVersionAddr + 1] == 0x00
    ensures Image(nodeId, sn, desc, name)[NodeIdAddr] == nodeId
  {
  }

  /** The byte at 0x1FF is the checksum of the bytes 0 .. 0x1FE of the finished image:
      storing it changes none of the bytes it covers. */
  lemma {:induction false} ImageChecksumValid(nodeId: Byte, sn: Text, desc: Text, name: Text)
    requires FitsImage(sn, desc, name)
    ensures ChecksumValid(Image(nodeId, sn, desc, name))
  {
    var f := Fields(nodeId, sn, desc, name);
    SumAgree(f, Image(nodeId, sn, desc, name), 0, CheckSumAddr);
  }

  /** Every byte no step writes keeps the 0 of the fill, whatever the lengths of the
      texts; this includes the unused upper half, and the byte after a text when no
      other write covers it. */
  lemma ImageUnwrittenZero(nodeId: Byte, sn: Text, desc: Text, name: Text)
    requires FitsImage(sn, desc, name)
    ensures forall a | 0 <= a < EepromSize && !Written(a, sn, desc, name) ::
      Image(nodeId, sn, desc, name)[a] == 0
  {
  }

  /** The node name, written last, always sits intact at NodeNameAddr, whatever the
      other texts hold. The byte after it is the description's byte there when the
      description reaches it, else the serial number's when that reaches it, else 0. */
  lemma ImageNodeName(nodeId: Byte, sn: Text, desc: Text, name: Text)
    requires FitsImage(sn, desc, name)
    requires NodeNameAccepted(name)
    ensures Image(nodeId, sn, desc, name)[NodeNameAddr..NodeNameAddr + |name|] == name
    ensures Image(nodeId, sn, desc, name)[NodeNameAddr + |name|] ==
      if DescAddr + |desc| > NodeNameAddr + |name| then desc[NodeNameAddr + |name| - DescAddr]
      else if SerNumAddr + |sn| > NodeNameAddr + |name| then sn[NodeNameAddr + |name| - SerNumAddr]
      else 0
  {
    AcceptedNameFits(name);
    var img := Image(nodeId, sn, desc, name);
    var f := Fields(nodeId, sn, desc, name);
    assert img[NodeNameAddr + |name|] == f[NodeNameAddr + |name|];
    if DescAddr + |desc| <= NodeNameAddr + |name| && SerNumAddr + |sn| <= NodeNameAddr + |name| {
      ImageUnwrittenZero(nodeId, sn, desc, name);
      assert !Written(NodeNameAddr + |name|, sn, desc, name);
    }
  }

  /** When every length check passes, each text sits intact at its base address and
      the byte after it is 0: `puts` writes no terminator, the zero fill provides it. */
  lemma ImageTexts(nodeId: Byte, sn: Text, desc: Text, name: Text)
    requires LengthsOk(sn, desc, name)
    ensures FitsImage(sn, desc, name)
    ensures Image(nodeId, sn, desc, name)[SerNumAddr..SerNumAddr + |sn|] == sn
    ensures Image(nodeId, sn, desc, name)[SerNumAddr + |sn|] == 0
    ensures Image(nodeId, sn, desc, name)[DescAddr..DescAddr + |desc|] == desc
    ensures Image(nodeId, sn, desc, name)[DescAddr + |desc|] == 0
    ensures Image(nodeId, sn, desc, name)[NodeNameAddr..NodeNameAddr + |name|] == name
    ensures Image(nodeId, sn, desc, name)[NodeNameAddr + |name|] == 0
  {
    var img := Image(nodeId, sn, desc, name);
    ImageUnwrittenZero(nodeId, sn, desc, name);
    assert !Written(SerNumAddr + |sn|, sn, desc, name);
    assert !Written(DescAddr + |desc|, sn, desc, name);
    assert !Written(NodeNameAddr + |name|, sn, desc, name);
  }

  /** The serial number needs only its own length check: it is then intact at
      SerNumAddr and followed by a 0, whatever the other texts hold. */
  lemma ImageSerialNum(nodeId: Byte, sn: Text, desc: Text, name: Text)
    requires FitsImage(sn, desc, name)
    requires |sn| <= MaxSerNumLen - 1
    ensures Image(nodeId, sn, desc, name)[SerNumAddr..SerNumAddr + |sn|] == sn
    ensures Image(nodeId, sn, desc, name)[SerNumAddr + |sn|] == 0
  {
    ImageUnwrittenZero(nodeId, sn, desc, name);
    assert !Written(SerNumAddr + |sn|, sn, desc, name);
  }

  /** A description that passes its own check is intact at DescAddr, but the byte
      after it is 0 only when the serial number, written before it, does not reach
      that byte; otherwise it is the serial number's byte there. */
  lemma ImageDescription(nodeId: Byte, sn: Text, desc: Text, name: Text)
    requires FitsImage(sn, desc, name)
    requires |desc| <= MaxDescLen - 1
    ensures Image(nodeId, sn, desc, name)[DescAddr..DescAddr + |desc|] == desc
    ensures Image(nodeId, sn, desc, name)[DescAddr + |desc|] ==
      if SerNumAddr + |sn| > DescAddr + |desc| then sn[DescAddr + |desc| - SerNumAddr] else 0
  {
    var img := Image(nodeId, sn, desc, name);
    var f := Fields(nodeId, sn, desc, name);
    assert img[DescAddr + |desc|] == f[DescAddr + |desc|];
    if SerNumAddr + |sn| <= DescAddr + |desc| {
      ImageUnwrittenZero(nodeId, sn, desc, name);
      assert !Written(DescAddr + |desc|, sn, desc, name);
    }
  }

  /** Because a too-long text is only reported, a serial number reaching the
      description's address is overwritten there by a description whose first
      byte differs from the serial number's byte at that address (one of the ways an unchecked length corrupts the table). */
  lemma OverlongSerialClobbered(nodeId: Byte, sn: Text, desc: Text, name: Text)
    requires FitsImage(sn, desc, name)
    requires |sn| > DescAddr - SerNumAddr && |desc| > 0 && desc[0] != sn[DescAddr - SerNumAddr]
    ensures Reported(LengthErrors(sn, desc, name), SerialNum)
    ensures Image(nodeId, sn, desc, name)[SerNumAddr..SerNumAddr + |sn|] != sn
  {
    var img := Image(nodeId, sn, desc, name);
    assert img[DescAddr] == desc[0];
    assert img[SerNumAddr..SerNumAddr + |sn|][DescAddr - SerNumAddr] == img[DescAddr];
  }
}
