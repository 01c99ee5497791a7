# eepromGen in Dafny

A model of `eepromGen.py`, the script that builds the initial contents of the
0x400-byte EEPROM of an ATmega328PB node. It also proves properties of that model.
The script runs four steps:

1. The argument parser accepts a node ID in 1..255 and a node name from a
   seven-name allow-list. For any other value it exits before building anything.
2. Three length checks report a serial number longer than 31 bytes, a
   description longer than 63 bytes and a node name longer than 31 bytes. Each
   limit leaves one byte for a NUL terminator. A report does not stop the run.
3. The script zero-fills the image. It writes the table version `01 00` at 0x0
   and the node ID at 0x4. It then writes the serial number at 0x10, the
   description at 0x40 and the node name at 0x80 with `puts`.
4. It sums bytes 0x000..0x1FE, masks the sum with `0xff` and stores the result
   at 0x1FF.

Modules:

- `EepromLayout` (`eeprom_layout.dfy`): the constants, the `Byte` and `Text`
  types, and the three text slots.
- `InputValidator` (`input_validator.dfy`): the parser's acceptance predicates
  and the length checks. The length checks produce a list of `LengthError`
  reports and do not gate the build.
- `ImageSpec` (`image_spec.dfy`): the image as a value. `Fields` applies the
  writes one step at a time and `Image` adds the checksum. The lemmas state what
  the finished image holds.
- `LayoutWriter` (`layout_writer.dfy`): the build as imperative code on an
  `array<Byte>`. `Puts` uses an aggregate `forall` store. `ComputeChecksum` is
  the `for` loop. `Build` is proved to produce exactly `Image(...)`.
- `EepromGen` (`eeprom_gen.dfy`): one run. The parser either rejects the
  arguments, or the run reports its length errors and returns the image anyway.

`puts` writes no terminator: the byte after each text is 0 only because of the
zero fill, and only when no other write covers it. `ImageTexts` proves that
this holds whenever every length check passes; `ImageSerialNum` shows the serial
number needs only its own check; `ImageDescription` gives the byte after a
passing description exactly, which is a serial-number byte when an over-long
serial number reaches it. `OverlongSerialClobbered` shows one case of an
over-long text corrupting another field.

## Model

| member | source | states |
|---|---|---|
| EepromLayout.SlotsDisjoint | eepromGen.py:11-19 | the serial, description and node-name slots are pairwise disjoint; they lie after the version and node-ID bytes and below the checksum byte at 0x1FF; a text that passes its check fits in its slot with its terminator |
| InputValidator.NodeIdAccepted | eepromGen.py:24-25 | the parser's `choices=range(1, 256)`: node ID 1..255 is accepted, 0 is reserved |
| InputValidator.NodeNameAccepted | eepromGen.py:21-29 | the parser's `choices=allowedNodeNames`: the name is one of the seven allow-listed names |
| InputValidator.ArgsAccepted | eepromGen.py:23-34 | the parse succeeds exactly when both the node ID and the node name are accepted |
| InputValidator.AcceptedNameFits | eepromGen.py:21 | every allow-listed name is at most 31 bytes and ends below the checksum byte |
| InputValidator.AcceptedNameNeverReported | eepromGen.py:48-50 | for a name the parser accepted, the node-name length check never reports |
| InputValidator.CheckLength | eepromGen.py:43-44 | one field's check gives at most one report, of that field and no other, exactly when its length exceeds the maximum minus one; the report carries the observed length and that maximum |
| InputValidator.LengthErrors | eepromGen.py:41-50 | each field is reported exactly when it is longer than its maximum minus one (31, 63, 31), the report being `TooLong(field, length, 31/63/31)`; the list is empty exactly when all three checks pass; reports come in the script's order (serial, description, name), at most one per field |
| ImageSpec.Zeros | eepromGen.py:54 | the fill has 0x400 bytes and every one is 0 |
| ImageSpec.WriteAt | eepromGen.py:58-62 | a slice store or `puts` puts the given bytes at addr..addr+n-1 and leaves every other address unchanged |
| ImageSpec.Sum | eepromGen.py:65-67 | the sum of the bytes in a range, which is at most 255 times the range's length |
| ImageSpec.Checksum | eepromGen.py:65-68 | the sum of bytes 0x000..0x1FE masked to its low byte (modulo 256) |
| ImageSpec.Fields | eepromGen.py:52-62 | a 0x400-byte image after the zero fill, the version store, the node-ID store and the three `puts`, in the script's order |
| ImageSpec.Image | eepromGen.py:52-69 | a 0x400-byte image: `Fields` with the checksum stored at 0x1FF; its properties are the `Image*` lemmas below |
| ImageSpec.SumAgree | eepromGen.py:66-67 | two images that agree on a range have the same sum over it |
| ImageSpec.ImageHeader | eepromGen.py:58-59 | the finished image has 0x01 at 0x0, 0x00 at 0x1 and the node ID at 0x4 |
| ImageSpec.ImageChecksumValid | eepromGen.py:64-69 | in the finished image, the byte at 0x1FF equals the sum of bytes 0x000..0x1FE modulo 256; storing the checksum changes none of the bytes it covers |
| ImageSpec.ImageUnwrittenZero | eepromGen.py:52-69 | every byte that no step writes is 0 in the finished image, whatever the text lengths; this covers 2-3, 5-0xF, the gaps after the texts and 0x200-0x3FF |
| ImageSpec.ImageNodeName | eepromGen.py:54-62 | the node name is written last, so it always sits intact at 0x80; the byte after it is the description's byte there if the description reaches it, else the serial number's if that reaches it, else 0 |
| ImageSpec.ImageTexts | eepromGen.py:41-62 | when every length check passes, each text sits intact at 0x10, 0x40 and 0x80, and the byte right after it is 0 |
| ImageSpec.ImageSerialNum | eepromGen.py:43-60 | a serial number that passes its own check sits intact at 0x10 followed by a 0, whatever the other texts |
| ImageSpec.ImageDescription | eepromGen.py:46-61 | a description that passes its own check sits intact at 0x40; the byte after it is the serial number's byte there when the serial number reaches it, and 0 otherwise |
| ImageSpec.OverlongSerialClobbered | eepromGen.py:41-61 | a serial number longer than 48 bytes is reported but still written; a description whose first byte differs from the serial number's byte at 0x40 then overwrites that byte, so the serial number stored at 0x10 is no longer intact |
| LayoutWriter.Puts | eepromGen.py:60-62 | the array afterwards is `WriteAt` of the array before; every byte outside the written range is unchanged |
| LayoutWriter.ComputeChecksum | eepromGen.py:64-68 | the loop returns the sum of bytes 0..0x1FE of the array modulo 256; loop invariant: after i steps the accumulator is the sum of bytes 0..i-1 |
| LayoutWriter.Build | eepromGen.py:52-69 | a fresh 0x400-byte array equal to `Image(nodeId, sn, desc, name)`, built by the same sequence of in-place writes |
| EepromGen.Generate | eepromGen.py:24-69 | a run is rejected exactly when the node ID is outside 1..255 (`NodeIdOutOfRange`) or, with a valid node ID, the name is not allow-listed (`NodeNameNotAllowed`), whatever the texts; otherwise the run produces the image together with the length reports, so a report does not prevent the image |
| EepromGen.GeneratedImage | eepromGen.py:52-69 | every generated image has a valid checksum, version 1.0, the node ID at 0x4, the node name intact and 0 at every unwritten address |

## Left out

- Argument parsing and console output (`[INFO]` and `[ERROR]` lines): only the acceptance predicates and the error list are modelled. The node-name error message is labelled "Description" in the source; the model's `LengthError` carries the right field instead.
- Which parser error appears first when both the node ID and the node name are invalid depends on the order of the command line; `Generate` checks the node ID first.
- Writing the Intel HEX file (`write_hex_file`) and the final confirmation line: the encoding is done by the external `intelhex` library, whose source is not part of this model, and it is file I/O.
- The sparse map inside `IntelHex`: the image is a fixed 0x400-byte array. `FitsImage` is a precondition of `Build`, of the image functions and, for runs the parser accepts, of `Generate`. It excludes a serial number or description so long that a write would pass 0x3FF. The library would grow its map for such a text instead.
- Encoding text to bytes: the serial number, description and node name are taken as byte sequences (`Text`). The model does not cover Unicode text or encoding errors.
- `checkSum &= 0xff` is written as `% 256`. The two are equal for the non-negative sum the loop computes.
