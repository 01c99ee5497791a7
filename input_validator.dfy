/** The checks the script makes on its command-line arguments: the `choices` of
    the argument parser, which reject the run, and the length checks, which only
    report. */
module InputValidator {
  import opened EepromLayout

  const AllowedNodeNames: seq<Text> := [
    Ascii("escNode"), Ascii("bstNode"), Ascii("icNode"), Ascii("awNode"),
    Ascii("asNode"), Ascii("tpmsNode"), Ascii("aeNode")
  ]

  /** `--nodeId` has `choices=range(1, 256)`: ID 0 is reserved. */
  predicate NodeIdAccepted(nodeId: int)
  {
    1 <= nodeId < 256
  }

  /** `--nodeName` has `choices=allowedNodeNames`. */
  predicate NodeNameAccepted(name: Text)
  {
    name in AllowedNodeNames
  }

  /** The argument parser accepts the run: otherwise it exits before any image is built. */
  predicate ArgsAccepted(nodeId: int, name: Text)
  {
    NodeIdAccepted(nodeId) && NodeNameAccepted(name)
  }

  /** Every allow-listed name is ASCII text of at most 31 bytes, so the node-name
      length check never fires for a name the parser accepted. */
  lemma AcceptedNameFits(name: Text)
    requires NodeNameAccepted(name)
    ensures |name| <= MaxNodeNameLen - 1
    ensures NodeNameAddr + |name| <= CheckSumAddr
  {
  }

  datatype Field = SerialNum | Description | NodeName {
    /** The position of the field's check in the script. */
    function Rank(): nat {
      match this
      case SerialNum => 0
      case Description => 1
      case NodeName => 2
    }
  }

  /** One "[ERROR] ... too long, max len: ..." report. */
  datatype LengthError = TooLong(field: Field, length: nat, maxLength: nat)

  /** The report for one field: its length is at most `maxLen - 1`, leaving room
      for the terminating NUL. */
  function CheckLength(field: Field, s: Text, maxLen: nat): (errs: seq<LengthError>)
    requires maxLen >= 1
    ensures errs == [] <==> |s| <= maxLen - 1
    ensures |errs| <= 1
    ensures forall f :: Reported(errs, f) <==> f == field && |s| > maxLen - 1
    ensures forall e | e in errs :: e.field == field && e.length == |s| && e.maxLength == maxLen - 1
  {
    if |s| > maxLen - 1 then
      var errs := [TooLong(field, |s|, maxLen - 1)];
      assert Reported(errs, field) by { assert errs[0].field == field; }
      errs
    else
      []
  }

  /** The field has been reported as too long. */
  predicate Reported(errs: seq<LengthError>, field: Field)
  {
    exists i | 0 <= i < |errs| :: errs[i].field == field
  }

  /** A field is reported in two lists joined when it is reported in either. */
  lemma ReportedConcat(a: seq<LengthError>, b: seq<LengthError>)
    ensures forall f :: Reported(a + b, f) <==> Reported(a, f) || Reported(b, f)
  {
    forall f ensures Reported(a + b, f) <==> Reported(a, f) || Reported(b, f) {
      if Reported(a + b, f) {
        var i :| 0 <= i < |a + b| && (a + b)[i].field == f;
        if i < |a| {
          assert a[i] == (a + b)[i];
        } else {
          assert b[i - |a|] == (a + b)[i];
        }
      }
      if Reported(a, f) {
        var i :| 0 <= i < |a| && a[i].field == f;
        assert (a + b)[i] == a[i];
      }
      if Reported(b, f) {
        var i :| 0 <= i < |b| && b[i].field == f;
        assert (a + b)[|a| + i] == b[i];
      }
    }
  }

  /** Every text argument passes its length check. */
  predicate LengthsOk(sn: Text, desc: Text, name: Text)
  {
    |sn| <= MaxSerNumLen - 1 && |desc| <= MaxDescLen - 1 && |name| <= MaxNodeNameLen - 1
  }

  /** The errors the three length checks report, in the order the script makes them.
      A field is reported exactly when it is longer than its maximum minus one, and
      each report carries the observed length and that maximum. */
  function LengthErrors(sn: Text, desc: Text, name: Text): (errs: seq<LengthError>)
    ensures Reported(errs, SerialNum) <==> |sn| > MaxSerNumLen - 1
    ensures Reported(errs, Description) <==> |desc| > MaxDescLen - 1
    ensures Reported(errs, NodeName) <==> |name| > MaxNodeNameLen - 1
    ensures errs == [] <==> LengthsOk(sn, desc, name)
    ensures forall e | e in errs :: e.length > e.maxLength
    ensures forall e | e in errs && e.field == SerialNum :: e == TooLong(SerialNum, |sn|, MaxSerNumLen - 1)
    ensures forall e | e in errs && e.field == Description :: e == TooLong(Description, |desc|, MaxDescLen - 1)
    ensures forall e | e in errs && e.field == NodeName :: e == TooLong(NodeName, |name|, MaxNodeNameLen - 1)
    ensures forall i, j | 0 <= i < j < |errs| :: errs[i].field.Rank() < errs[j].field.Rank()
  {
    var s := CheckLength(SerialNum, sn, MaxSerNumLen);
    var d := CheckLength(Description, desc, MaxDescLen);
    var n := CheckLength(NodeName, name, MaxNodeNameLen);
    ReportedConcat(s, d);
    ReportedConcat(s + d, n);
    s + d + n
  }

  /** For a name the parser accepted, the node-name check never reports. */
  lemma AcceptedNameNeverReported(sn: Text, desc: Text, name: Text)
    requires NodeNameAccepted(name)
    ensures !Reported(LengthErrors(sn, desc, name), NodeName)
  {
    AcceptedNameFits(name);
  }
}
