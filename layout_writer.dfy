/** The build itself: the image `ih` is a 0x400-byte array updated in place by
    slice stores, an indexed store and `puts`, then the checksum loop. */
module LayoutWriter {
  import opened EepromLayout
  import opened InputValidator
  import opened ImageSpec

  /** Stores `bytes` at addresses addr .. addr+|bytes|-1 (a slice store
      `ih[addr:addr+n] = bytes`, or `ih.puts(addr, bytes)`), leaving every other
      byte as it was. No terminator is written. */
  method Puts(ih: array<Byte>, addr: nat, bytes: seq<Byte>)
    requires addr + |bytes| <= ih.Length
    modifies ih
    ensures ih[..] == WriteAt(old(ih[..]), addr, bytes)
    ensures forall a | 0 <= a < ih.Length && !(addr <= a < addr + |bytes|) :: ih[a] == old(ih[a])
  {
    forall a | addr <= a < addr + |bytes| {
      ih[a] := bytes[a - addr];
    }
    assert forall a | 0 <= a < ih.Length :: ih[..][a] == WriteAt(old(ih[..]), addr, bytes)[a] by {
      forall a | 0 <= a < ih.Length
        ensures ih[..][a] == WriteAt(old(ih[..]), addr, bytes)[a]
      {
        if addr <= a < addr + |bytes| {
          assert WriteAt(old(ih[..]), addr, bytes)[addr + (a - addr)] == bytes[a - addr];
        }
      }
    }
  }

  /** The checksum loop: sums bytes 0 .. CheckSumAddr-1 of the image and masks
      the sum with 0xff. Reads the image, changes nothing. */
  method ComputeChecksum(ih: array<Byte>) returns (checkSum: Byte)
    requires CheckSumAddr <= ih.Length
    ensures checkSum == Sum(ih[..], 0, CheckSumAddr) % 256
  {
    var sum: nat := 0;
    for i := 0 to CheckSumAddr
      invariant sum == Sum(ih[..], 0, i)
    {
      sum := sum + ih[i];
    }
    // `checkSum &= 0xff` on a non-negative sum keeps its remainder modulo 256
    checkSum := sum % 256;
  }

  /** Builds the image: zero fill, version, node ID, the three texts and the checksum.
      The length checks do not gate it: it runs on any texts that fit the EEPROM. */
  method Build(nodeId: int, sn: Text, desc: Text, name: Text) returns (ih: array<Byte>)
    requires ArgsAccepted(nodeId, name)
    requires FitsImage(sn, desc, name)
    ensures fresh(ih) && ih.Length == EepromSize
    ensures ih[..] == Image(nodeId as Byte, sn, desc, name)
  {
    ih := new Byte[EepromSize];
    Puts(ih, 0, Zeros(EepromSize));
    ghost var versioned := WriteAt(Zeros(EepromSize), TableVersionAddr, TableVersion);
    Puts(ih, TableVersionAddr, TableVersion);
    ghost var identified := versioned[NodeIdAddr := nodeId as Byte];
    ih[NodeIdAddr] := nodeId as Byte;
    assert ih[..] == identified;
    Puts(ih, SerNumAddr, sn);
    Puts(ih, DescAddr, desc);
    Puts(ih, NodeNameAddr, name);
    assert ih[..] == Fields(nodeId as Byte, sn, desc, name);
    var checkSum := ComputeChecksum(ih);
    ih[CheckSumAddr] := checkSum;
  }
}
