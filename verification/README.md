# iBFT marshaller model

This project models, in Dafny, how u-root's ACPI package serialises an iSCSI Boot Firmware
Table (iBFT). The table is built in two buffers:

- The **head** has a fixed layout. It holds the 48-byte header template, the 18-byte control
  block, one Initiator structure, and then two pairs of NIC and Target structures.
- The **heap** holds variable-length strings. The head refers to each string by a 16-bit
  length and a 16-bit absolute table offset.

The model covers:

- the layout constants and the pre-built control block (`Layout`);
- the typed description records and the closed set of field kinds that stand in for Go
  reflection (`Fields`);
- the ordered flag packer (`Flags`);
- the field-dispatch traversal `mIBFT` (`Traversal`);
- `IBFT.Marshal`, which writes the template and the control block, runs the traversal, checks
  the head length and returns head ++ heap (`TableMarshal`).

`Placement` holds the properties that relate the traversal to the layout:

- the head grows by exactly the declared widths;
- every structure's prefix sits at the offset the control block records for it;
- every scalar's parsed bytes sit at the position its declared offset tag gives;
- every heap string can be found again through its length and offset.

Everything is a pure function over immutable datatypes. Errors are a `Result`. Scalar text
parsing is a parameter, `Parser`. The predicate `Respects(parse)` says that a parser yields
the fixed width of its wire type whenever it succeeds.

The model follows the code as written, including these details:

- **Header template.** It is 48 bytes, its revision byte is the character `'1'` (0x31), and
  its length field reads 0x800 (`pkg/acpi/ibft.go:61`).
- **Structure prefix.** It is 6 bytes: ID, version, length, index and flags, in the order the
  `w(...)` calls write them (`pkg/acpi/ibft.go:298, 314, 328`). The whole head is therefore
  452 bytes.
- **Control block length field.** It is 80, not 18 (`pkg/acpi/ibft.go:98`).
- **Login-mode flag.** A true `Multi` flag packs to bit 0 = 1. The comment on the control
  flags calls that value Single Login, and the model reproduces it as written
  (`TableMarshal.LoginFlag`).
- **The literal `1` passed to `w(...)`.** Both writes in `IBFT.Marshal` pass it. One writes
  the template and the control block (`pkg/acpi/ibft.go:264`); the other appends the heap
  (`pkg/acpi/ibft.go:272`). The model writes nothing for it in either call. Go's
  `binary.Write` refuses a plain `int`, because it has no fixed size, and writes nothing for
  it; `w` is assumed to pass each argument to it and to behave the same way.
  - At line 264, any byte written for it would make the head-length check fail for every
    table.
  - At line 272, any byte written for it would shift the heap behind the head, so every heap
    offset the head records would miss its string.

## Model

| member | source | states |
|---|---|---|
| Layout.HeadersLenFits | pkg/acpi/ibft.go:33-40 | The head length is 48+18+74+102+54+102+54 = 452. That is where the last region ends, and it fits a uint16. |
| Layout.RecordedOffsetsArePrefixSums | pkg/acpi/ibft.go:104-109 | The five recorded offsets are 66, 140, 242, 296 and 398. Each is the prefix sum of the region lengths before it, and the last Target ends exactly at the head length. |
| Layout.RawHeaderShape | pkg/acpi/ibft.go:61 | The header template is exactly 48 bytes. It starts with "IBFT", its length field reads 0x800, its revision byte is the character '1' (0x31), and its checksum byte is 0. |
| Layout.EncodeHeader | pkg/acpi/ibft.go:68-73 | A structure prefix is 6 bytes, and decoding it gives back its ID, version, length, index and flags. |
| Layout.ControlBlock | pkg/acpi/ibft.go:94-110 | The control block is 18 bytes: ID 1, version 1, length 80, index 0, the given flags byte, extensions 0, then the offset of each structure k as a uint16 at byte 8 + 2k. |
| Flags.Pack | pkg/acpi/ibft.go:292-295 | Packing succeeds exactly when no flag is unset, and the packed value stays below 2^n for n flags. |
| Flags.PackBits | pkg/acpi/ibft.go:112-117 | Bit i of the packed byte is set exactly when flag i is true, and every bit past the last flag is clear. |
| Fields.StructFlagMasks | pkg/acpi/ibft.go:112-161 | For the Initiator, NIC and Target, each declared mask (1, 2, 4, 8) is set in the packed flags exactly when the matching flag is true. |
| Fields.InitiatorLayout | pkg/acpi/ibft.go:119-128 | Prefix plus typed Initiator body is 74 bytes. Each field starts at its raw offset tag: 6, 22, 38, 54 and 70. |
| Fields.NicLayout | pkg/acpi/ibft.go:138-152 | Prefix plus typed NIC body is 102 bytes. Each field starts at its raw offset tag: 6, 22, 23, 24, 40, 56, 72, 88, 90, 96 and 98. |
| Fields.TargetLayout | pkg/acpi/ibft.go:163-181 | Prefix plus typed Target body is 54 bytes. Each field starts at its raw offset tag: 6, 24, 32, 33, 34, 38, 42, 46 and 50. |
| Fields.Body | pkg/acpi/ibft.go:193-239 | A structure's fields, in declaration order, have exactly its declared kinds, and none of them is itself a structure. |
| Fields.TopFields | pkg/acpi/ibft.go:241-251 | The table's fields are Generic, then Multi, then Initiator, NIC0, Target0, NIC1 and Target1 in that order, and their kinds are the declared top-level shape. |
| Fields.StructFlags | pkg/acpi/ibft.go:292-322 | The flags packed into a structure's flag byte are its first body fields, all flags, in declaration order, and there are at most four. For a NIC or Target the next field is its Index flag; for the Initiator the next field is not a flag. |
| Fields.StructLayout | pkg/acpi/ibft.go:193-239 | Whatever its field values, a structure's field kinds are its declared shape, and prefix plus body fill exactly its length constant. |
| Fields.TopLayout | pkg/acpi/ibft.go:242-251 | The table's fields are Generic, Multi, Initiator, NIC0, Target0, NIC1, Target1. Structure k starts at the offset the control block records, and together they end at the head length. |
| Traversal.StructPrefix | pkg/acpi/ibft.go:291-331 | The prefix is produced exactly when the structure's flags and index flag are all set. An unset structure flag gives BadFlags, and it is checked before the index flag, which gives BadIndex. |
| Traversal.IndexFlags | pkg/acpi/ibft.go:308-327 | The Initiator has no index flag. A NIC or Target has exactly one, the field right after its structure flags, and no later field is a flag. So the two `flags(...)` calls together cover every flag field of a structure. |
| Traversal.PrefixFields | pkg/acpi/ibft.go:298-328 | The prefix decodes to the structure's ID, version 1 and length constant. Its index is 1 exactly when the index flag is true, and 0 for the Initiator. Its flag bits are exactly the true flags. |
| Traversal.Emit | pkg/acpi/ibft.go:333-336 | Assumed encoder contract. A flag writes nothing. A scalar succeeds exactly when its text parses, and writes those bytes. A heap string succeeds exactly when it ends within 16-bit reach; it then writes its length and absolute offset and appends its bytes. |
| Traversal.Step | pkg/acpi/ibft.go:287-337 | One field only appends to the buffers and adds exactly its heap bytes. Generic and flag fields change nothing. |
| Traversal.Traverse | pkg/acpi/ibft.go:278-341 | The walk only appends. The heap it builds is every heap string in declaration order, and it never reports a head-length mismatch itself. |
| Placement.StepSucceeds | pkg/acpi/ibft.go:287-337 | One field encodes exactly when it is valid and its heap bytes stay within 16-bit reach. |
| Placement.TraverseSucceeds | pkg/acpi/ibft.go:281-338 | The walk succeeds exactly when every field is valid and the whole heap stays within 16-bit reach. |
| Placement.StepWidth | pkg/acpi/ibft.go:287-337 | With a width-respecting parser, one field grows the head by its kind's width. |
| Placement.TraverseWidth | pkg/acpi/ibft.go:281-338 | With a width-respecting parser, the walk grows the head by the sum of its fields' widths. |
| Placement.TraverseAppend | pkg/acpi/ibft.go:281-285 | Fields are handled strictly in order. Walking two lists one after the other is walking their concatenation, and a failure in the first stops before the second. |
| Placement.SubPlaced | pkg/acpi/ibft.go:291-331 | With a width-respecting parser, the prefix of a nested structure lands at the layout offset of its position in the field list. |
| Placement.TraverseScalars | pkg/acpi/ibft.go:333-336 | With a width-respecting parser, after a successful walk every scalar the layout lists holds its parsed text's bytes at its head position. |
| Placement.ScalarPlaced | pkg/acpi/ibft.go:333-336 | With a width-respecting parser, the scalar at field j parses, and its parsed bytes sit in the head at the walk's start plus field j's layout offset. |
| Placement.NestedScalar | pkg/acpi/ibft.go:287-337 | With a width-respecting parser, a scalar field of a nested structure parses, and its bytes sit at the structure's layout offset plus the 6-byte prefix plus the field's offset in the body. |
| Placement.TraverseSlots | pkg/acpi/ibft.go:333-336 | With a width-respecting parser, every heap reference the walk writes holds in its result. Its length and offset point at exactly its string. |
| TableMarshal.Marshal | pkg/acpi/ibft.go:256-275 | An unset Multi flag fails with BadFlags. On success the output is the head followed by the heap: its length is 452 plus the heap length, it starts with the template and the control block, and its bytes from 452 on are the heap strings in order. |
| TableMarshal.StartTable | pkg/acpi/ibft.go:257-264 | The walk starts from a 66-byte head, the header template followed by the control block carrying the given flags byte, and from an empty heap. |
| TableMarshal.LoginFlag | pkg/acpi/ibft.go:75-84 | A true Multi flag packs to the single-login value 1, and a false one to the multi-login value 0. |
| TableMarshal.MarshalSucceeds | pkg/acpi/ibft.go:259-274 | With a width-respecting parser, marshalling succeeds exactly when Multi is set, every field is valid and the heap stays within 16-bit reach. The head-length check never fires. |
| TableMarshal.OffsetsRecorded | pkg/acpi/ibft.go:86-90 | In a marshalled table, the uint16 at byte 56 + 2k is the recorded offset of structure k. |
| TableMarshal.StructuresPlaced | pkg/acpi/ibft.go:104-108 | In a marshalled table, structure k's 6-byte prefix sits at its recorded offset and lies inside the head. |
| TableMarshal.HeapReferences | pkg/acpi/ibft.go:253-255 | In a marshalled table, every heap reference lies in the head, its offset points past the head, and following it yields exactly the string that was written. |
| TableMarshal.HeapFieldFound | pkg/acpi/ibft.go:253-255 | For every heap field of structure k, following the reference at its layout position gives back exactly its string. |
| TableMarshal.ScalarReferences | pkg/acpi/ibft.go:264-274 | In a marshalled table, every scalar the layout lists lies inside the head, and the table bytes at its position are exactly its parsed text. |
| TableMarshal.ScalarFieldFound | pkg/acpi/ibft.go:256-275 | For every scalar field of structure k, the table bytes at its recorded offset plus the prefix plus the field's body offset are exactly its parsed text, inside the head. |
| TableMarshal.InitiatorScalarsFound | pkg/acpi/ibft.go:122-125 | The Initiator's iSNS, SLP, primary RADIUS and secondary RADIUS server addresses are at table bytes 72, 88, 104 and 120, which are 66 plus tags 6, 22, 38 and 54. |
| TableMarshal.NicAddressFound | pkg/acpi/ibft.go:141-143 | Each NIC's IP address, subnet prefix, origin and gateway are at tags 6, 22, 23 and 24 of its structure. |
| TableMarshal.NicServersFound | pkg/acpi/ibft.go:144-146 | Each NIC's primary DNS, secondary DNS and DHCP server addresses are at tags 40, 56 and 72 of its structure. |
| TableMarshal.NicLinkFound | pkg/acpi/ibft.go:147-149 | Each NIC's VLAN, MAC address and PCI bus/device/function are at tags 88, 90 and 96 of its structure. |
| TableMarshal.TargetScalarsFound | pkg/acpi/ibft.go:166-170 | Each Target's socket address is the 18 bytes from tag 6, which cover the raw IP tag 6 and port tag 22. Its boot LUN is at tag 24, its CHAP type at 32 and its NIC association at 33. |
| TableMarshal.InitiatorNameFound | pkg/acpi/ibft.go:126-127 | The Initiator's name is found through the length and offset at table bytes 136 and 138. |
| TableMarshal.NicHostNameFound | pkg/acpi/ibft.go:150-151 | Each NIC's host name is found through the reference at tag 98 of its structure. |
| TableMarshal.TargetHeapFound | pkg/acpi/ibft.go:171-180 | Each Target's name, CHAP name and secret, and reverse CHAP name and secret are found through the references at tags 34, 38, 42, 46 and 50. |

## Left out

- Debug logging is not modelled, because it is tracing only and has no effect on the output.
- Go reflection is not modelled. It becomes the `Field` datatype, a closed set of field kinds
  (flag, scalar wire types, heap string, sub-structure, Generic) with fixed head widths.
- Scalar text parsing (IP and MAC strings, host:port splitting, integers) happens in code
  that is not part of this model. It is the `Parser` parameter. Theorems that need fixed
  widths assume `Respects(parse)`.
- Traversal.Emit: the heap-string encoder (`HeapTable.Marshal`) is not part of this model.
  Its behaviour is an assumed contract, not cited behaviour:
  - it writes the length, then the absolute offset (452 plus the heap bytes before it), each
    as a little-endian uint16;
  - it appends the bytes to the heap;
  - it fails when the string would end at or beyond 65536.
- TableMarshal.Marshal: the write helper `w` is not part of this model. Both of its calls in
  `IBFT.Marshal` (lines 264 and 272) are modelled as writing each typed argument's bytes and
  nothing for the literal `1`. The heap-offset results (`HeapReferences`, `HeapFieldFound`,
  `InitiatorNameFound`, `NicHostNameFound`, `TargetHeapFound`) rest on this assumption for
  line 272.
- Flags.Pack: the `flags` helper is not part of this model. It is modelled as an ordered
  packer, first flag in bit 0, that fails on an unset flag.
- The header's length and checksum are never computed, because the code copies a static
  template. The model keeps the template's fixed bytes.
- The mutation of the global `control` value is modelled as a pure function of the
  flags byte.
- The `Generic` embedding is modelled only as a field that writes nothing, because it is unused.
- The raw `acpi*` structures are used only as the reference layout, through their offset
  tags. They are documentation-only.
- TableMarshal.Marshal: the head-length error is shown never to fire under a width-respecting
  parser. The model does not exhibit a parser that makes it fire.
