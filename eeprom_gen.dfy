/** One run of the generator: the argument parser's checks, the length reports,
    then the image that is handed to the Intel HEX writer. */
module EepromGen {
  import opened EepromLayout
  import opened InputValidator
  import opened ImageSpec
  import LayoutWriter

  /** What stops the argument parser before anything is built. */
  datatype Rejection = NodeIdOutOfRange(nodeId: int) | NodeNameNotAllowed(name: Text)

  datatype Run =
    | Rejected(reason: Rejection)
    | Generated(errors: seq<LengthError>, image: seq<Byte>)

  /** A run of the script on the given arguments. The node ID is checked before the
      node name. A run the parser accepts always produces an image, whatever the
      length checks report. */
  method Generate(nodeId: int, sn: Text, desc: Text, name: Text) returns (run: Run)
    requires ArgsAccepted(nodeId, name) ==> FitsImage(sn, desc, name)
    ensures run.Rejected? <==> !ArgsAccepted(nodeId, name)
    ensures run == Rejected(NodeIdOutOfRange(nodeId)) <==> !(1 <= nodeId <= 255)
    ensures run == Rejected(NodeNameNotAllowed(name)) <==> 1 <= nodeId <= 255 && !NodeNameAccepted(name)
    ensures run.Generated? ==> 1 <= nodeId <= 255 && run.errors == LengthErrors(sn, desc, name)
    ensures run.Generated? ==> run.image == Image(nodeId as Byte, sn, desc, name)
  {
    if !NodeIdAccepted(nodeId) {
      return Rejected(NodeIdOutOfRange(nodeId));
    }
    if !NodeNameAccepted(name) {
      return Rejected(NodeNameNotAllowed(name));
    }
    var errors := LengthErrors(sn, desc, name);
    var ih := LayoutWriter.Build(nodeId, sn, desc, name);
    run := Generated(errors, ih[..]);
  }

  /** Every image a run generates carries a valid checksum, the version and node ID
      in its header, the node name intact, and zero wherever nothing was written. */
  lemma {:induction false} GeneratedImage(nodeId: int, sn: Text, desc: Text, name: Text, image: seq<Byte>)
    requires FitsImage(sn, desc, name)
    requires ArgsAccepted(nodeId, name)
    requires image == Image(nodeId as Byte, sn, desc, name)
    ensures |image| == EepromSize && ChecksumValid(image)
    ensures image[TableVersionAddr] == 0x01 && image[TableVersionAddr + 1] == 0x00
    ensures image[NodeIdAddr] == nodeId
    ensures image[NodeNameAddr..NodeNameAddr + |name|] == name
    ensures forall a | 0 <= a < EepromSize && !Written(a, sn, desc, name) :: image[a] == 0
  {
    ImageChecksumValid(nodeId as Byte, sn, desc, name);
    ImageHeader(nodeId as Byte, sn, desc, name);
    ImageNodeName(nodeId as Byte, sn, desc, name);
    ImageUnwrittenZero(nodeId as Byte, sn, desc, name);
  }
}
