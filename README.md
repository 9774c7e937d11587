# python-ethtool core, modelled in Dafny

This project models the core of python-ethtool's `ethtool.c`, a C extension
that exposes Linux's ethtool and interface-address requests to Python. It
covers five areas.

- **The descriptor-driven struct codec.** A `struct struct_desc` table of
  (name, offset, size) entries drives two operations. `__struct_desc_create_dict`
  converts a fixed-layout binary block into a dict of field name to integer.
  `__struct_desc_from_dict` goes the other way, writing the dict's values
  into a block. The model includes both shipped tables:
  `ethtool_coalesce_desc` (22 fields) and `ethtool_ringparam_desc` (8 fields).
  It also covers `get_coalesce`, `set_coalesce`, `get_ringparam` and
  `set_ringparam`, which combine the codec with the dispatcher.
- **The command dispatcher.** `send_command` builds the `struct ifreq`: the
  device name is truncated into `ifr_name`, and the command code is stamped
  into the buffer's first word. It then issues one `SIOCETHTOOL` request.
  Its users are also modelled: `get_dev_value`, `get_dev_int_value`,
  `dev_set_int_value`, the offload getters (`get_tso`, `get_ufo`, `get_gso`,
  `get_sg`) and `set_tso`.
- **Device enumeration.**
  - The `/proc/net/dev` parser `get_devices`.
  - The up-interface list `get_active_devices`, which removes duplicate names.
  - The device-selector normalisation in `get_interfaces_info`.
- **The address formatters.** The `%02x:…` hardware address and the
  `%u.%u.%u.%u` dotted quad.

Modules:

| file | module | content |
|---|---|---|
| `bytes.dfy` | `Bytes` | little-endian u32 load and store on byte sequences; C integer conversions |
| `errors.dfy` | `Errors` | the Python exceptions raised, `Result` and the C status `Outcome` |
| `struct_desc.dfy` | `StructDesc` | field tables, decode and encode as functions, the two C loops as methods over `array<uint8>`, round-trip and frame lemmas |
| `dispatch.dfy` | `Dispatch` | `ifr_name` preparation, the request, the kernel oracle, `send_command` and its users |
| `ethtool_ops.dfy` | `EthtoolOps` | offload getters and setter; coalescing and ring-parameter get and set |
| `enumeration.dfy` | `Enumeration` | `get_devices`, `get_active_devices`, the `get_interfaces_info` selector |
| `format.dfy` | `Format` | MAC and IPv4 formatting, with parsers proved to invert them |

The operating system is a parameter. `socket()` either opens or fails with
an errno. The ioctl is a function from the request to either the buffer's
new contents or an errno. The lines of `/proc/net/dev` and the entries of
`getifaddrs` are given as sequences.

Each C stack buffer (`struct ethtool_coalesce coal`, `struct ethtool_value
eval`, …) is an `array<uint8>` passed in by the caller. Its initial contents
are arbitrary, as uninitialised stack memory is. The methods that change
these arrays are proved equal to specification functions on `seq<uint8>`.
The properties are proved as lemmas about those functions.

Struct layouts are pinned, because `ethtool-copy.h` is not part of this
model. Both ethtool structs start with a `__u32 cmd` word followed only by
`__u32` members. Member *i* is therefore at offset 4 + 4*i with size 4. The
coalescing block is 92 bytes, the ring-parameter block 36 bytes, and
`struct ethtool_value` 8 bytes. The host is little-endian and LP64: a C
`long` has 64 bits, so `PyLong_FromLong(*(uint32_t *)val)` turns every
`__u32` into a non-negative Python int. On an ILP32 host a field of 2^31 or
more would decode as a negative int, and the bounds stated for decoded
values hold only on LP64. Command codes
follow the Linux ethtool interface, e.g. `ETHTOOL_GCOALESCE = 0x0e`.

Behaviour of the code that the model keeps:
- `__struct_desc_from_dict` writes into the caller's block in place. It
  does not clear the block first, and it is not atomic: stores made before a
  missing field stay.
- `__struct_desc_create_dict` does not fail on an unsupported field width.
  It returns the dict filled so far (see Findings).
- The coalescing table has 22 entries.
- `get_active_devices` returns a list ordered by each name's first up
  entry.
- `get_devices` strips only leading spaces: a tab stays part of the name.

## Model

| member | source | states |
|---|---|---|
| StructDesc.U32Member | python-ethtool/ethtool.c:631-634 | under the pinned layout, member i after the cmd word keeps its name, has size 4 and sits at offset 4 + 4*i, clear of the cmd word |
| StructDesc.FirstUnsupported | python-ethtool/ethtool.c:670-682 | the index where the decode loop stops: every earlier entry has size 4, and the entry there (if any) has not |
| StructDesc.Decode | python-ethtool/ethtool.c:661-696 | the dict's keys are exactly the names of the entries before the first unsupported size, and every value is a u32 |
| StructDesc.DecodeFields | python-ethtool/ethtool.c:670-690 | the dict after setting every entry in order: the last entry's name maps to the u32 in its span, since a later set replaces an earlier one |
| StructDesc.DecodeFieldsKeys | python-ethtool/ethtool.c:670-690 | when every size is 4, one key is set per table name |
| StructDesc.DecodeFieldsRange | python-ethtool/ethtool.c:676-677 | every decoded value lies in [0, 2^32) |
| StructDesc.DecodeFieldsAgree | python-ethtool/ethtool.c:670-690 | if every entry's span holds the value a dict gives its name, decoding yields that dict restricted to the table's names, even when names repeat |
| StructDesc.RestrictSnoc | python-ethtool/ethtool.c:684 | setting one more key from the dict extends the restriction of the dict by that key |
| StructDesc.DecodeAt | python-ethtool/ethtool.c:673-684 | with distinct names, each entry before the first unsupported one maps its name to the u32 stored at its offset |
| StructDesc.DecodeFieldsAt | python-ethtool/ethtool.c:673-684 | the same for a table whose sizes are all 4 |
| StructDesc.DistinctNamesCount | python-ethtool/ethtool.c:636-659 | a table with distinct names has as many names as entries |
| StructDesc.NamesSnoc | python-ethtool/ethtool.c:670-690 | the names of a table are those of its front plus its last entry's |
| StructDesc.SameEntriesSameNames | python-ethtool/ethtool.c:636-659 | two tables with the same entries have the same names |
| StructDesc.DecodeOrderIndependent | python-ethtool/ethtool.c:661-696 | permuting a table of distinct, size-4 entries does not change the decoded dict |
| StructDesc.CreateDict | python-ethtool/ethtool.c:661-696 | the C loop over the block array returns exactly `Decode` of the block, stopping at the first unsupported size |
| StructDesc.Encode | python-ethtool/ethtool.c:707-733 | encoding keeps the block's length; its status, frame, stored values and round trips are stated by the lemmas below |
| StructDesc.FirstUnencodable | python-ethtool/ethtool.c:707-721 | the index where the encode loop stops: every earlier entry has size 4 and a dict entry, and the entry there (if any) lacks one of them |
| StructDesc.EncodeStatus | python-ethtool/ethtool.c:707-733 | encoding succeeds exactly when every entry has size 4 and a dict entry. Otherwise it reports the first entry that fails: "Invalid type size" if its size is wrong (the dict is not consulted), else "Missing dict entry" |
| StructDesc.EncodeMissingFieldIff | python-ethtool/ethtool.c:714-720 | with all sizes 4, encoding fails with MissingField(name) if and only if some entry named `name` is absent from the dict and all entries before it are present |
| StructDesc.EncodeFrame | python-ethtool/ethtool.c:709-723 | every byte outside the spans of the stored entries, including the cmd word, keeps the caller's value: the block is not cleared |
| StructDesc.EncodeKeepsU32 | python-ethtool/ethtool.c:709-723 | a u32 whose span no table entry overlaps reads the same after encoding |
| StructDesc.EncodeFirstValue | python-ethtool/ethtool.c:722 | with disjoint spans, the first entry's store survives the later ones |
| StructDesc.DisjointTail | python-ethtool/ethtool.c:636-659 | disjointness of a table is kept by its tail |
| StructDesc.EncodeValues | python-ethtool/ethtool.c:707-723 | with disjoint spans, each entry before the first failing one holds its dict value mod 2^32 after encoding, even when encoding then fails (not atomic) |
| StructDesc.EncodeThenDecode | python-ethtool/ethtool.c:661-734 | if every table name is in the dict with a u32 value and the spans are disjoint, encoding succeeds and decoding the block gives back the dict restricted to the table's names |
| StructDesc.EncodeOwnValues | python-ethtool/ethtool.c:707-733 | storing into every span the value already there succeeds and leaves the block unchanged |
| StructDesc.DecodeThenEncode | python-ethtool/ethtool.c:661-734 | with distinct names and all sizes 4, encoding the decoded dict into the same block succeeds and reproduces it byte for byte |
| StructDesc.FromDict | python-ethtool/ethtool.c:701-734 | the C loop storing into the block array in place returns the status of `Encode` and leaves the array holding `Encode`'s block |
| StructDesc.StoreU32 | python-ethtool/ethtool.c:722 | `*(uint32_t *)val = v` changes exactly the four bytes at the offset |
| StructDesc.DecodeChecked | python-ethtool/ethtool.c:681-695 | corrected decode: succeeds exactly when every size is 4, with one key per table name; otherwise fails with InvalidTypeSize naming an unsupported entry |
| StructDesc.DecodeReturnsPartialDict | python-ethtool/ethtool.c:691-695 | as written, a table [a:4 bytes, b:2 bytes] decodes to the one-key dict {a} where the corrected decode fails |
| StructDesc.ShippedTablesDecodeChecked | python-ethtool/ethtool.c:636-659 | on both shipped tables, the code as written and the corrected decode agree |
| StructDesc.U32MembersLayout | python-ethtool/ethtool.c:631-634 | a table of consecutive `__u32` members after the cmd word has all sizes 4, disjoint spans clear of the cmd word, and fits the struct |
| StructDesc.CoalesceNamesDistinct | python-ethtool/ethtool.c:637-658 | the 22 coalescing member names are pairwise different |
| StructDesc.CoalesceLayout | python-ethtool/ethtool.c:636-659 | the coalescing table has 22 entries with distinct names, all size 4, disjoint, clear of the cmd word, inside the 92-byte block |
| StructDesc.RingparamLayout | python-ethtool/ethtool.c:768-777 | the ring-parameter table has 8 such entries inside the 36-byte block |
| StructDesc.CoalesceDecodeHas22Keys | python-ethtool/ethtool.c:746 | a decoded coalescing block has exactly 22 keys |
| StructDesc.RingparamDecodeHas8Keys | python-ethtool/ethtool.c:786 | a decoded ring-parameter block has exactly 8 keys |
| StructDesc.CoalesceEncodeNotAtomic | python-ethtool/ethtool.c:707-722 | a dict lacking only `rate_sample_interval` fails with that MissingField after `rx_coalesce_usecs` has already been stored |
| Bytes.U32ToBytes | python-ethtool/ethtool.c:722 | a u32 is stored as four bytes |
| Bytes.BytesToU32 | python-ethtool/ethtool.c:677 | four bytes load as the u32 whose low byte is the first and whose high byte is the last (little-endian) |
| Bytes.ReadU32 | python-ethtool/ethtool.c:677 | the u32 loaded at an offset is the one whose four bytes are the block's span there |
| Bytes.WriteU32 | python-ethtool/ethtool.c:722 | a store keeps the block's length and every byte before and after its four-byte span |
| Bytes.BytesToU32Inverse | python-ethtool/ethtool.c:722 | a u32 stored as four bytes and loaded back is the same value |
| Bytes.U32ToBytesInverse | python-ethtool/ethtool.c:677 | four bytes loaded as a u32 and stored back are the same bytes |
| Bytes.WriteThenRead | python-ethtool/ethtool.c:722 | after a store, the u32 at that offset is the stored value and every other byte is unchanged |
| Bytes.WriteOwnValue | python-ethtool/ethtool.c:722 | storing the value already at an offset changes nothing |
| Bytes.ReadAfterDisjointWrite | python-ethtool/ethtool.c:722 | a store does not change a u32 whose span it does not overlap |
| Bytes.LongToU32 | python-ethtool/ethtool.c:722 | the `(uint32_t)` conversion of a Python int is congruent to it mod 2^32 and is the identity on [0, 2^32) |
| Bytes.U32ToInt32 | python-ethtool/ethtool.c:560 | reading the data word as a C `int` gives the int32 whose u32 conversion is that word |
| Bytes.Int32RoundTrip | python-ethtool/ethtool.c:565-574 | a C `int` stored into the u32 data word and read back as `int` is unchanged |
| Dispatch.CStrLen | python-ethtool/ethtool.c:521 | the length of a C string: no NUL before it, a NUL at it unless the input ends |
| Dispatch.StrNCpy | python-ethtool/ethtool.c:521 | `strncpy(dst, src, n)`: n bytes, the source up to its NUL, then NUL padding |
| Dispatch.NameField | python-ethtool/ethtool.c:520-522 | `ifr_name` holds the first min(strlen, IFNAMSIZ - 1) bytes of the device name and NUL bytes after them |
| Dispatch.NameFieldReadsBack | python-ethtool/ethtool.c:520-522 | the kernel reads back the name cut at IFNAMSIZ - 1 bytes; a name shorter than IFNAMSIZ arrives whole |
| Dispatch.PrepareRequest | python-ethtool/ethtool.c:520-524 | the request carries that name field; the buffer's first u32 is `cmd` and every later byte is unchanged |
| Dispatch.Transact | python-ethtool/ethtool.c:526-540 | the exchange passes exactly when the socket opens and the ioctl succeeds. A socket failure is an OSError and an ioctl failure an IOError with the errno (the C symbols differ, but on Python 3 both are the class `OSError`). Only success changes the buffer |
| Dispatch.SendCommand | python-ethtool/ethtool.c:513-541 | the status and the buffer array afterwards are `Transact` of the prepared request |
| Dispatch.GetDevValue | python-ethtool/ethtool.c:543-552 | the same, on the caller's buffer |
| Dispatch.GetDevIntValue | python-ethtool/ethtool.c:554-563 | the value is the data word read as a C int only when the command passed; otherwise `*value` keeps its prior content |
| Dispatch.DevSetIntValue | python-ethtool/ethtool.c:565-574 | the data word holds `data` before the command is sent |
| Dispatch.SetIntRequest | python-ethtool/ethtool.c:565-574 | the request sent carries `cmd` in its first word and reads back `data` exactly from its data word |
| EthtoolOps.GetOffload | python-ethtool/ethtool.c:576-623 | `get_tso`, `get_ufo`, `get_gso` and `get_sg` return the data word as an int on success and the dispatcher's error otherwise |
| EthtoolOps.SetTso | python-ethtool/ethtool.c:586-593 | `set_tso` sends `ETHTOOL_STSO` with the flag in the data word |
| EthtoolOps.GetStruct | python-ethtool/ethtool.c:739-747 | a block query decodes the kernel's reply only when the command passed |
| EthtoolOps.SetStruct | python-ethtool/ethtool.c:749-766 | a block update sends the command only when encoding succeeded, with the encoded block |
| EthtoolOps.GetCoalesce | python-ethtool/ethtool.c:739-747 | `get_coalesce` sends `ETHTOOL_GCOALESCE` and, only when it passed, returns the corrected decoding of the reply with the coalescing table (which agrees with the code as written there) |
| EthtoolOps.SetCoalesce | python-ethtool/ethtool.c:749-766 | `set_coalesce` encodes into the block in place and sends `ETHTOOL_SCOALESCE` with it only when encoding passed; otherwise the encoding error is returned and the partly written block stays |
| EthtoolOps.GetRingparam | python-ethtool/ethtool.c:779-787 | the same for `get_ringparam` with `ETHTOOL_GRINGPARAM` and the ring-parameter table |
| EthtoolOps.SetRingparam | python-ethtool/ethtool.c:789-806 | the same for `set_ringparam` with `ETHTOOL_SRINGPARAM` |
| EthtoolOps.SetRequestCarriesDict | python-ethtool/ethtool.c:749-766 | for a dict giving every table name a u32 value, encoding passes. The request the kernel receives carries the set command and decodes to the dict restricted to the table's names |
| EthtoolOps.GetThenSet | python-ethtool/ethtool.c:739-766 | feeding a dict that a get returned into a set succeeds, and the kernel receives that same dict back |
| EthtoolOps.CoalesceGetThenSet | python-ethtool/ethtool.c:739-766 | the same for `get_coalesce` followed by `set_coalesce` |
| EthtoolOps.RingparamGetThenSet | python-ethtool/ethtool.c:779-806 | the same for `get_ringparam` followed by `set_ringparam` |
| Enumeration.CutAtColon | python-ethtool/ethtool.c:103-105 | the text before the first ':' or NUL, which contains neither; a line with neither keeps all of its text |
| Enumeration.LeadingSpaces | python-ethtool/ethtool.c:106-107 | the number of leading ' ' characters skipped: all of them, and only spaces |
| Enumeration.DeviceName | python-ethtool/ethtool.c:97-109 | the name taken from one line contains no ':' and no NUL and does not start with a space |
| Enumeration.DeviceNames | python-ethtool/ethtool.c:93-109 | one name per body line |
| Enumeration.Devices | python-ethtool/ethtool.c:78-115 | an OSError exactly when the file cannot be opened or has fewer than two lines; otherwise one name per line after the two header lines |
| Enumeration.DeviceNamesAt | python-ethtool/ethtool.c:93-109 | line i of the registry body gives name i of the list, in file order |
| Enumeration.CutAtColonPrefix | python-ethtool/ethtool.c:103-105 | the cut ends at the first colon of a line |
| Enumeration.DeviceNameOfRegistryLine | python-ethtool/ethtool.c:97-109 | a registry line formatted as padding, name, ':' and counters parses back to that name |
| Enumeration.LineName | python-ethtool/ethtool.c:97-109 | the `end`/`name` pointer loops return exactly `DeviceName` of the line |
| Enumeration.GetDevices | python-ethtool/ethtool.c:78-115 | returns `Devices` of the file: an OSError if it cannot be opened or has fewer than two lines; otherwise one name per later line, in order |
| Enumeration.ActiveNames | python-ethtool/ethtool.c:64-69 | the active list is never longer than the address list (membership, distinctness and order are in the lemmas below) |
| Enumeration.FirstUp | python-ethtool/ethtool.c:64-69 | the index of a name's first up address entry, or the list's length |
| Enumeration.HasUpEntrySnoc | python-ethtool/ethtool.c:64-69 | an up entry for a name is either the last entry or one before it |
| Enumeration.FirstUpSnoc | python-ethtool/ethtool.c:64-69 | later entries do not move a name's first up entry |
| Enumeration.ActiveNamesMembers | python-ethtool/ethtool.c:64-69 | a name is in the active list if and only if some address entry with that name has IFF_UP |
| Enumeration.ActiveNamesDistinct | python-ethtool/ethtool.c:64-69 | the active list never holds a name twice |
| Enumeration.ActiveNamesOrdered | python-ethtool/ethtool.c:64-69 | names appear in the order of their first up entry |
| Enumeration.GetActiveDevices | python-ethtool/ethtool.c:55-76 | a failed `getifaddrs` is an OSError; otherwise the loop with its contains check returns `ActiveNames` of the entries |
| Enumeration.BytesItems | python-ethtool/ethtool.c:230-254 | selecting the bytes elements never yields more names than elements |
| Enumeration.BytesItemsAppend | python-ethtool/ethtool.c:230-254 | selection distributes over concatenation, so the original order is kept |
| Enumeration.BytesItemsMembers | python-ethtool/ethtool.c:230-254 | a name is selected exactly when the collection holds it as bytes (a str element is skipped); with only bytes elements nothing is dropped |
| Enumeration.SelectorDevices | python-ethtool/ethtool.c:222-262 | a LookupError exactly when there is more than one argument or the argument is not bytes, str, tuple or list; every failure is a LookupError |
| Enumeration.CollectBytes | python-ethtool/ethtool.c:230-254 | the loop filling `fetch_devs` through the counter `j` returns exactly `BytesItems` |
| Enumeration.NormaliseSelector | python-ethtool/ethtool.c:209-262 | returns `SelectorDevices`: no argument gives none; bytes or str gives that name; tuple or list gives its bytes elements; anything else, or a second argument, is a LookupError |
| Enumeration.CString | python-ethtool/ethtool.c:278 | `PyBytes_FromString` keeps the text before the first NUL |
| Enumeration.GetInterfacesInfo | python-ethtool/ethtool.c:209-289 | selector errors pass through. Otherwise there is one object per selected name, in order, with that name as a C string and index -1 |
| Format.Octet | python-ethtool/ethtool.c:148-154 | `(unsigned int)c % 256` is a byte value, and equals `c` for a non-negative char |
| Format.OctetBitPattern | python-ethtool/ethtool.c:148-154 | the printed byte is the char's bit pattern: c + 256 for a negative char, and it reads back as `c` |
| Format.Hex2 | python-ethtool/ethtool.c:148 | `%02x` prints exactly two characters |
| Format.Hex2RoundTrip | python-ethtool/ethtool.c:148 | the two lower-case hex digits read back as the byte |
| Format.HexGroups | python-ethtool/ethtool.c:148-154 | n bytes print as 3n - 1 characters |
| Format.HexGroupsRoundTrip | python-ethtool/ethtool.c:148-154 | the colon-separated groups read back as the bytes they were printed from |
| Format.HexGroupsSplit | python-ethtool/ethtool.c:148 | printed groups are the first byte's two digits, a colon, then the remaining groups |
| Format.HexGroupsColons | python-ethtool/ethtool.c:148 | every third character of the printed groups is ':' |
| Format.HwOctets | python-ethtool/ethtool.c:149-154 | the six printed values are bytes |
| Format.MacString | python-ethtool/ethtool.c:148-156 | the hardware address string is 17 characters |
| Format.MacStringSpec | python-ethtool/ethtool.c:148-156 | the hardware address is 17 characters, so it fits `hwaddr[20]`, has its five colons in place, and reads back as `sa_data[0..5]` |
| Format.Decimal | python-ethtool/ethtool.c:190-194 | `%u` prints at least one digit, only digits, with no leading zero |
| Format.DecimalRoundTrip | python-ethtool/ethtool.c:190-194 | a printed number reads back as the number |
| Format.DecimalOfOctet | python-ethtool/ethtool.c:190-194 | a byte prints as at most three digits |
| Format.DecGroupsLength | python-ethtool/ethtool.c:190-194 | each byte group takes at most four characters, dot included |
| Format.Split | python-ethtool/ethtool.c:190-194 | splitting yields at least one field |
| Format.SplitNone | python-ethtool/ethtool.c:190-194 | a string without the separator is its own only field |
| Format.SplitFirst | python-ethtool/ethtool.c:190-194 | splitting at the first separator peels off the first field |
| Format.DecGroups | python-ethtool/ethtool.c:190-194 | n numbers print as at least 2n - 1 characters |
| Format.DecGroupsRoundTrip | python-ethtool/ethtool.c:190-194 | dotted groups split into fields that read back as the printed numbers |
| Format.InetOctets | python-ethtool/ethtool.c:191-194 | the four printed values are bytes |
| Format.DottedQuad | python-ethtool/ethtool.c:190-196 | the dotted quad is at least seven characters |
| Format.DottedQuadSpec | python-ethtool/ethtool.c:190-196 | the dotted quad of `get_ipaddress` has four fields that read back as `sa_data[2..5]` and fits the 20-byte buffer; `get_netmask` (ethtool.c:355-359) and `get_broadcast` (ethtool.c:395-399) format the same way |

## Left out

- Socket, ioctl and close: the kernel is the oracle `Dispatch.Kernel`. The model assumes a failed ioctl leaves the buffer unchanged. Closing the socket has no observable effect here.
- The requests behind the formatters (`SIOCGIFHWADDR`, `SIOCGIFADDR`, `SIOCGIFNETMASK`, `SIOCGIFBRDADDR`) are left out. Only the formatting of the returned `sa_data` is modelled. Likewise `get_flags`, `get_module` and `get_businfo` are outside this model, including `get_module`'s PCMCIA `stab` fallback, which depends on `sscanf` format semantics.
- File and address-list reads are inputs. `fopen`, `fgets` and `feof` become `Enumeration.ProcNetDev`; `getifaddrs` becomes `Enumeration.IfAddrs`. When the second header line cannot be read, the errno the error carries is an input, because the C code reports whatever `errno` holds then.
- Enumeration.GetDevices: each line is taken whole. The 256-byte `fgets` split of an overlong line into two "lines" is a libc detail and is not modelled.
- Python runtime glue is not modelled: `PyArg_ParseTuple`, reference counting, allocation failures (`PyDict_New`, `PyList_New`, `PyObject_New`, `calloc`), and `PyDict_SetItemString` failure. A `str` selector is carried as the text `PyUnicode_AsUTF8` returns; a failing UTF-8 conversion is not modelled. The method table and module initialisation are out of scope.
- Bytes.LongToU32: models `(uint32_t)PyLong_AsLong(obj)` for integers that fit a C `long`. Overflow beyond `long`, and non-integer dict values (where `PyLong_AsLong` returns -1 with an exception set and the loop carries on), are not modelled, because a dict value is an `int` here.
- EthtoolOps.GetOffload: `Py_BuildValue("b", value)` receives the `int` through varargs and builds a Python int with no narrowing. The model returns the int32 unchanged and does not model that format code further.
- `set_coalesce` and `set_ringparam` take their dict argument with the "O" format, so any Python object is accepted. For an object that is not a dict, `PyDict_GetItemString` returns NULL and encoding fails with MissingField on the first entry (`rx_coalesce_usecs`, `rx_max_pending`). `StructDesc.Dict` is always a dict, so the model does not express that case.
- ILP32 hosts: the model assumes an LP64 host, where a C `long` holds every `__u32`. On a 32-bit `long`, decoded fields of 2^31 or more would be negative ints; that case is not modelled.
- Struct layouts are pinned constants (cmd word at 0, member i at 4 + 4*i, size 4), because `ethtool-copy.h` is not part of this model.
- Enumeration.GetInterfacesInfo: of each `PyEtherInfo` object, only the device name and the index are modelled. The object type itself and its later queries are not part of this model.
- The C buffers are modelled as `array<uint8>` owned by the caller. Aliasing between them cannot arise in the source and is not modelled.

## Findings

| source | as written | input that shows it | evidently intended | confidence | as-written member | corrected member |
|---|---|---|---|---|---|---|
| python-ethtool/ethtool.c:691-695 | `free_dict:` jumps straight back to `out`, so `dict = NULL` is unreachable. A table entry of unsupported size stops decoding and returns the partially filled dict, with no exception set | table [("a", offset 4, size 4), ("b", offset 8, size 2)] over a 12-byte block decodes to {"a": u32 at 4} | fail (return NULL) when an entry's size cannot be decoded | medium, not executed; the shipped tables only hold u32 members, so they are not affected | StructDesc.DecodeReturnsPartialDict | StructDesc.DecodeChecked |
