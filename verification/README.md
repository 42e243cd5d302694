# Compost RPC in Dafny

Compost is one wire format implemented three times: a Python codec, C code that
a Python generator emits for the same types on top of a small C runtime, and a
C# library; two client sessions and a C server exchange messages in it. This
project models those pieces and proves what they guarantee together.

## How it is organised

- **The format.** `BitOps`, `BitString`, `BitFields`: integers and buffers as
  bit strings, and one round of the bit loops that all three implementations
  share. `Wire`: types flattened to tokens, values to leaves, and a `Dialect`
  that records where an implementation moves to a byte boundary, the only thing
  on which the implementations differ. `Put` and `Get` are writing and reading
  in a dialect. `Types` and `Interop` lift this to nested types and values, and
  give the exact condition under which one implementation reads what another
  wrote; `Runs` states it on the types alone, for each writer and reader. `Encoding`
  writes the messages out bit by bit, in numerals, and `Malformed` says what the
  readers make of lists that nobody wrote.
- **Python.** `PythonCodec`: the loops of `pack_payload` and `unpack_payload`
  against the Python dialects. `PythonPayload`: what they guarantee together.
  `PythonSession`: the session class, and its runs as a step system.
- **C.** `Memory`, `CRuntime`: loads, stores and slices in one byte memory.
  `CHelpers`: the emitted `T_store` and `T_load` as instruction lists, their
  emission and their execution. `Layout`, `Allocator`, `ZeroCopy`,
  `InitHelpers`: the layout, the bump allocator, `T_alloc_init`, `T_init`, and
  zero-copy placement. `InPlace`, `Overlap`, `Replies`: stores of structs whose
  lists already lie in the message, and when they are faithful. `Server`, `CInvoke`:
  dispatch and invoke functions.
- **C#.** `CSharpPacking`, `CSharpCodec`, `CSharpSize`, `CSharpStream`,
  `CSharpMessage`, `CSharpSession`.
- **Across.** `Framing`: the header in all three. `EndToEnd`, `CSharpMessage`:
  whole calls. `ByteLevel`, `Results`: shared lemmas and `Option`.

An operation that changes a buffer is a method on an array whose contract
equates the new bits with a specification function of the old ones; an exception
or error return is `None` or `false`, and contracts say exactly when it occurs.
Values of numbers are integers, lists are sequences, structs are nested; `str`
and `bytes` are byte sequences and floats are bit patterns of 32 and 64 bits (the
binary32 and binary64 formats, section 3.4 of IEEE 754-2008). An enum is a
number of its backing type.

## What the code does that its users might not expect

Each of these is a theorem, except the last, which is about documentation; where a
desirable property fails, its exact condition is proved next to a counterexample.

- `unpack_payload` does not return to a byte boundary after a number, while
  `pack_payload` does. Python therefore does not always understand itself
  (`Interop.PythonMisreadsItself`); `PythonPayload.RoundTripsIff` gives the
  condition on types.
- The C# reader never returns to a byte boundary, while its writer does after numbers
  and lists (`Runs.UnderstoodFromCSharpIff`).
- `pack_payload` refuses every struct inside a struct
  (`PythonPayload.NestedIsRefused`), so argument types of calls from Python are
  flat.
- The slice store compares the slice with the place of its length, not of its
  data: a slice in its final place is copied onto itself, and one that begins at
  its length is not copied at all (`CRuntime.StoredListIff`).
- The layout ignores padding, so lists that generated code allocates in the reply
  can end up where their lengths go or where earlier members are written. Which
  types are safe is a check on the type alone (`Replies.StoresFaithfullyIff`,
  `Replies.EightPairsAtMost`).
- `T_init` goes on after a refused allocation, and later lists move up into the
  room. A message that would have been stored faithfully can then be spoilt
  (`Replies.SurvivesRefusalsIff`, `Replies.RefusalSpoilsZeroCopy`).
- The byte length of a slice is cut to 16 bits when it is allocated and when it is
  stored (`CHelpers.SentAsHeldIff`, `CHelpers.CutToNothing`).
- `T_alloc_init` keeps the full buffer length although it starts behind the header
  and the static part (`ZeroCopy.InsideBufferIff`,
  `ZeroCopy.AllocatedPastTheBuffer`).
- `T_init` routes lengths to nested structs by name suffix and takes the first
  match (`InitHelpers.RoutedRightIff`, `InitHelpers.SameTypeTwice`).
- A Python call returns the reply to another call when that reply is exactly a
  multiple of 255 calls old (`PythonSession.WrongReply`), and after one late reply
  a caller never catches up (`PythonSession.BacklogStays`).
- The C# transaction counter is meant to skip 0 but the sum is computed before the
  cast, so it wraps through 0 (`CSharpSession.NumbersDistinct`,
  `CSharpMessage.CallZeroIsNotAnswered`). Its timeout branch removes by number and
  not by identity (`CSharpSession.LostCall`), a late response can complete a call
  256 later (`CSharpSession.WrongResponse`), and a failing write leaves its slot
  occupied (`CSharpSession.StuckStays`).
- The C# buffer size ignores padding (`CSharpMessage.OverrunIff`,
  `CSharpMessage.AlwaysOverruns`).
- The generated C answers an unknown id with 0xFEE; the Python protocol class and
  the C# header name 0xFEF for that and 0xFEE for an error
  (`Server.UnknownIsReportedAsError`).
- The message structure documentation and its figure disagree on the number of
  reserved header bits (two and three); the C code refuses three, and the model
  follows the code.

## Model

| member | source | states |
|---|---|---|
| `Wire.RoundTrip` | compost_rpc/compost_rpc.py:520-637 | Whatever one writer dialect put into a buffer, every compatible reader dialect gets back, from any buffer that begins with the written bits, and both end in the same byte |
| `Wire.Clash` | compost_rpc/compost_rpc.py:554-570 | When the static check on types fails, some message fits the buffer and is not read back, whatever the buffer held before |
| `Wire.InteroperateIff` | compost_rpc/compost_rpc.py:520-637 | For every writer, reader and list of types, in every buffer with room for the all-zero message: all messages that fit are read back if and only if the static check `Compatible` on the types holds |
| `Wire.PutFrame` | compost_rpc/compost_rpc.py:583-637 | Writing changes no bit before the start and no bit from the end position on |
| `Wire.PutAppend` | compost_rpc/compost_rpc.py:588-589 | Writing a concatenation of fields is writing the first part and then the second where the first ended |
| `Wire.GetAppend` | compost_rpc/compost_rpc.py:527-529 | Reading a concatenation of types is reading its parts one after the other, failures included |
| `Wire.PutWindow` | compost_rpc/compost_rpc.py:1616-1624 | What is written does not depend on the byte address where it begins nor on what surrounds it |
| `Wire.WritersAgree` | compost_rpc/compost_rpc.py:583-637 | Two writers that are equally far past a byte boundary at every bit field leave bit-for-bit the same buffer and end in the same byte |
| `Types.ReadIsGet` | compost_rpc/compost_rpc.py:522-573 | Reading a value of a nested type is reading its flattened fields, it fails exactly when they fail, and what is read always conforms to the type |
| `Types.ReadAllWindow` | compost_rpc/compost_rpc.py:1739-1740 | Arguments readable from a window of memory read alike from the whole memory |
| `Interop.LeavesInjective` | compost_rpc/compost_rpc.py:520-581 | The flattened fields determine the value: two conforming values with the same fields are equal |
| `Interop.ReadOfWrite` | compost_rpc/compost_rpc.py:520-637 | Value-level round trip between any compatible pair of implementations, with any trailing bits |
| `Interop.ValuesOfLeaves` | compost_rpc/compost_rpc.py:520-581 | Every list of fields that the types allow is the flattening of some value |
| `Interop.ZerosAreLeast` | compost_rpc/compost_rpc.py:583-637 | No message of given types ends earlier than the all-zero one, in any dialect |
| `Interop.UnderstandsIff` | compost_rpc/compost_rpc.py:520-637 | In a buffer that can hold some message, a reader gets back every value of the types that a writer writes if and only if the types pass the static check |
| `Interop.EmitCons` | compost_rpc/compost_rpc.py:635-636 | Writing several values is writing the first and then the rest, refusals included |
| `Interop.EmitStruct` | compost_rpc/compost_rpc.py:586-589 | Writing a struct is writing its members between the alignment steps of the dialect, refusals included |
| `Interop.WholeByteRunsAreCompatible` | compost_rpc/compost_rpc.py:1559-1564 | On types whose bit runs are whole bytes every implementation understands every other |
| `Interop.PythonMisreadsItself` | compost_rpc/compost_rpc.py:568-570 | `{BitU[4], U8, BitU[4]}`: Python does not get back all values it packs, the emitted C does |
| `Runs.CompatibleIff` | compost_rpc/compost_rpc.py:520-637 | When one of writer and reader returns to a byte boundary wherever the other does, and also at some further kinds of parts, they keep in step if and only if, at every bit field that is not empty, the bit fields between the last such parts are whole bytes |
| `Runs.UnderstoodFromPythonIff` | compost_rpc/compost_rpc.py:520-637 | In every buffer with room for the smallest message: Python gets back everything it packs if and only if, wherever another bit field follows, the bit fields in front of a number, back to the begin of a struct or a list, are whole bytes; the emitted C if and only if runs that go on behind a struct are whole bytes up to its end |
| `Runs.UnderstoodFromCIff` | compost_rpc/compost_rpc.py:1532-1569 | Python gets everything that the emitted C stores if and only if bit fields in front of a number or the end of a struct, back to the begin of a struct or a list, are whole bytes; C# if and only if all bit fields in front of a number, list, begin or end of a struct are; the emitted C always |
| `Runs.UnderstoodFromCSharpIff` | csharp/src/CompostRpc/Serialization.cs:426-563 | C# gets back everything it serializes if and only if, wherever another bit field follows, all bit fields in front of a number or list are whole bytes together; the emitted C if and only if runs are whole bytes wherever they cross the begin or end of a struct |
| `Encoding.NumberRange` | compost_rpc/compost_rpc.py:225-410 | The range and size of each kind of number, in numerals |
| `Encoding.EmitIsLaid` | compost_rpc/compost_rpc.py:583-637 | Whatever is written over a buffer is, bit for bit, each field in order with its size, at a byte boundary for numbers and lists, with the old bits in the gaps; nothing else changes |
| `Encoding.EndIsLaid` | compost_rpc/compost_rpc.py:583-637 | The end position of a message is the length of what is laid out |
| `BitFields.PackRound` | compost_rpc/compost_rpc.py:477-487 | One round of the packing loop puts the next bits of the value at one bit position of the buffer and changes no other bit |
| `BitFields.UnpackRound` | compost_rpc/compost_rpc.py:455-466 | One round of the unpacking loop gathers the next bits of the buffer below those already gathered |
| `PythonCodec.PackBits` | compost_rpc/compost_rpc.py:471-489 | Replaces exactly the addressed bits by the low bits of the value, most significant first; fails exactly when they do not fit the buffer |
| `PythonCodec.UnpackBits` | compost_rpc/compost_rpc.py:450-468 | Returns the number whose bits are at the offset; fails exactly past the end |
| `PythonCodec.PackList` | compost_rpc/compost_rpc.py:590-608 | Writes length and elements of a list, str or bytes; refuses exactly out-of-range elements, a length over 65535 and lack of room |
| `PythonCodec.Pack` | compost_rpc/compost_rpc.py:585-629 | `_pack` writes exactly what the Python dialect prescribes for what is sent, or refuses, for every type and every value of its class; `Encoding.EmitIsLaid` writes that out |
| `PythonCodec.PackPayload` | compost_rpc/compost_rpc.py:583-637 | The payload is the Python-dialect encoding in a zeroed buffer of 1024 bytes, cut at the next byte; `None` exactly for a wrong number of arguments or an unencodable one; `PythonPayload.PacksIff` and `PythonPayload.PayloadBits` write out when, and every bit |
| `PythonCodec.UnpackSeq` | compost_rpc/compost_rpc.py:531-549 | Lists are read element by element and fail past the end; str and bytes are cut short instead |
| `PythonCodec.Unpack` | compost_rpc/compost_rpc.py:522-573 | `_unpack` returns exactly what the Python reader dialect prescribes, with its unaligned position after numbers; `Runs.UnderstoodFromPythonIff` and `Malformed.PythonLists` say where that leads |
| `PythonCodec.UnpackPayload` | compost_rpc/compost_rpc.py:520-581 | Returns exactly the values of the payload in the Python reader dialect, or fails exactly when they cannot be read; `PythonPayload.RoundTripsIff` says for which types these are the values packed |
| `PythonPayload.SentUnchanged` | compost_rpc/compost_rpc.py:588-589 | In-range arguments of flat types reach the wire unchanged |
| `PythonPayload.NestedIsRefused` | compost_rpc/compost_rpc.py:586-589 | A struct inside a struct can never be packed: `astuple` has turned it into a tuple |
| `PythonPayload.SentIff` | compost_rpc/compost_rpc.py:585-610 | What `pack_payload` puts on the wire is the arguments themselves exactly when every bit field is in range; others are cut to their low bits |
| `PythonPayload.PacksPackable` | compost_rpc/compost_rpc.py:583-637 | Whatever is packed has flat types whose smallest message fits the buffer |
| `PythonPayload.PacksIff` | compost_rpc/compost_rpc.py:583-637 | `pack_payload` accepts exactly arguments of flat types with numbers in range, lists of at most 65535 bytes, and fields of at most 8192 bits together, structs beginning at byte boundaries |
| `PythonPayload.PayloadBits` | compost_rpc/compost_rpc.py:583-637 | Every bit of a payload: the fields of the arguments in order, structs beginning but not finishing at byte boundaries, and zeros everywhere else |
| `PythonPayload.NumberPayload` | compost_rpc/compost_rpc.py:612-625 | A single number packs exactly when it is in range, into as many bytes as its size says, in base 256 with the most significant byte first, and in two's complement when it is negative |
| `PythonPayload.PayloadRoundTrip` | compost_rpc/compost_rpc.py:520-637 | For all types that Python reads (`Runs.PythonReadsPython`) and all arguments that `pack_payload` accepts, with any trailing bytes: unpacking returns what was sent, and that is the arguments themselves if and only if their bit fields are in range |
| `PythonPayload.RoundTripsIff` | compost_rpc/compost_rpc.py:520-637 | All in-range arguments that `pack_payload` accepts come back if and only if the types cannot be packed at all (nested structs, or no room in 1024 bytes) or, wherever another bit field follows, their bit fields in front of a number, back to the begin of a struct or a list, are whole bytes |
| `PythonPayload.Misread` | compost_rpc/compost_rpc.py:554-570 | For every list of packable types that fails this condition, in-range arguments that `pack_payload` accepts and that unpack to something else |
| `Malformed.PythonLists` | compost_rpc/compost_rpc.py:531-549 | Whatever length is stored: Python gives the whole elements it counts and steps over just these; a list that is cut off fails, a str or bytes that is cut off gives what there is |
| `Malformed.CLists` | compost_rpc/lib/c/source_template.py:342-348 | The emitted C gives the whole elements that the stored length counts and steps over all its bytes |
| `Malformed.CSharpLists` | csharp/src/CompostRpc/Serialization.cs:529-541 | C# gives the whole elements that the stored length counts, steps over just these with its bit offset kept, and fails on whatever is cut off |
| `CRuntime.StoreNat` | compost_rpc/lib/c/source_template.py:104-228 | Big-endian store of 1, 2, 4 or 8 bytes, nothing else changed, pointer advanced by the width |
| `CRuntime.LoadNat` | compost_rpc/lib/c/source_template.py:94-212 | Or-ing the shifted bytes gives the big-endian number, pointer advanced by the width |
| `CRuntime.OrBytesIsBigEndian` | compost_rpc/lib/c/source_template.py:165-212 | The shift-and-or expression over any number of bytes equals the big-endian value of the bytes |
| `CRuntime.BitsStore` | compost_rpc/lib/c/source_template.py:318-338 | Replaces exactly the addressed bits, relative to a pointer |
| `CRuntime.BitsLoad` | compost_rpc/lib/c/source_template.py:291-313 | Returns the number whose bits are at an offset from a pointer |
| `CRuntime.SliceStore` | compost_rpc/lib/c/source_template.py:350-358 | Writes length and data of a slice wherever its source lies, overlapping or not, and of any length: the byte length is cut to 16 bits, and only that many bytes are sent; a source that begins where the length goes is not moved, and the bytes behind the length stay |
| `CRuntime.StoredListIff` | compost_rpc/lib/c/source_template.py:350-358 | A slice store puts the list of the bytes it counts into the message if and only if those are none, the slice does not begin where its length goes, or it repeats itself two bytes further on |
| `CRuntime.SliceAtItsLength` | compost_rpc/lib/c/source_template.py:353-356 | For every element type and length, a memory in which a slice that begins where its length goes is stored as another list |
| `CHelpers.SentAsHeldIff` | compost_rpc/lib/c/source_template.py:350-358 | For every type and value: what is sent has all the elements of the C value, at any nesting, if and only if no slice takes 65536 bytes or more |
| `CHelpers.CutToNothing` | compost_rpc/lib/c/source_template.py:355-355 | Elements of 2, 4 or 8 bytes: a non-empty slice of exactly 65536 bytes whose length is cut to zero is sent as the empty list |
| `CHelpers.DefineHelper` | compost_rpc/compost_rpc.py:1551-1564 | The emitted program: bit fields relative to the pointer, a pointer increment before the next other member and at the end of the struct |
| `CHelpers.CodeHead` | compost_rpc/compost_rpc.py:1552-1564 | The next instruction determines member, relative offset and rest of the program |
| `CHelpers.EmitAfter` | compost_rpc/compost_rpc.py:1532-1569 | A C value conforms to its protocol type and its encoding ends where running the helper leaves the pointer |
| `CHelpers.StoreMember` | compost_rpc/compost_rpc.py:1616-1624 | For every C value in memory, a store call writes the emitted-dialect encoding of the value with each slice as it is when its turn comes |
| `CHelpers.StoreStruct` | compost_rpc/compost_rpc.py:1532-1569 | Running the emitted `T_store` writes exactly the encoding of the struct with each slice as it is when its turn comes, for every struct in memory and however its slices lie |
| `CHelpers.TurnIsDenote` | compost_rpc/compost_rpc.py:1532-1569 | What is stored is the value from before the call when every slice lies behind the place of its length or before everything that is written |
| `CHelpers.TurnAfter` | compost_rpc/compost_rpc.py:1532-1569 | Whatever was overwritten, what is stored conforms to the type and ends at the same place |
| `CHelpers.SliceLoad` | compost_rpc/lib/c/source_template.py:342-348 | The slice points into the message and stands for the list that is read; the pointer advances by the stored length |
| `CHelpers.LoadMember` | compost_rpc/compost_rpc.py:1626-1632 | A load call returns a C value that stands for what the emitted dialect reads, and the same end position |
| `CHelpers.LoadStruct` | compost_rpc/compost_rpc.py:1532-1569 | Running the emitted `T_load` gives a C struct that stands for the value read, for nested types too |
| `CHelpers.LoadArguments` | compost_rpc/compost_rpc.py:1737-1740 | The load calls of an invoke function return exactly the arguments of the message |
| `CInvoke.StoredIsUnderstood` | compost_rpc/compost_rpc.py:1532-1569 | Compiler correctness: after an emitted store, the pointer has advanced by the encoded length, Python unpacks the stored value with any trailing bytes when the type passes the condition of `Runs.UnderstoodFromCIff`, the emitted load gets it back, and no byte outside changed |
| `CInvoke.StoredIsLaid` | compost_rpc/compost_rpc.py:1532-1569 | Every bit of memory after a store: the fields in order, structs beginning and finishing at byte boundaries, the old bits in the gaps, and nothing else changed |
| `CInvoke.SameBytes` | compost_rpc/compost_rpc.py:583-637 | Python and the emitted C write identical buffers for all values of all argument types Python can pack |
| `CInvoke.StoredInWindow` | compost_rpc/compost_rpc.py:1532-1569 | A store into memory is a store into its window: bytes outside are unchanged |
| `CInvoke.OfferedIsStored` | compost_rpc/compost_rpc.py:1741-1753 | A result allocated with the allocator that the invoke function hands out, with nothing refused, is stored as it was, for every repliable type |
| `CInvoke.PartlyOfferedIsStored` | compost_rpc/compost_rpc.py:1506-1531 | The same whatever `T_init` was refused, for every roomy type |
| `CInvoke.InvokeInMemory` | compost_rpc/compost_rpc.py:1737-1758 | A generated invoke function running in memory (load, handler, store, length in words), with a result or without, calls the handler with exactly the arguments that the request holds, in order, and leaves the encoding of its result with each list as it is when its turn comes, and no other byte; it is the payload that `Server.Invoke` prescribes over what the handler left, when the lists were allocated as offered and the result type is repliable (roomy, when some were refused), or when they lie out of the way |
| `CInvoke.SwitchInMemory` | compost_rpc/compost_rpc.py:1765-1784 | The switch in memory: for an unknown id nothing runs and no payload is written, and for any other its invoke function gave the result |
| `CInvoke.ProcessInMemory` | compost_rpc/lib/c/source_template.py:440-479 | The whole server in memory is `Server.Process` over the transmit buffer as the handler left it, with a switch that gives what the invocation gave, on the arguments of the request; a refused request changes nothing, and no byte outside the transmit buffer is written after the handler returned |
| `CInvoke.ServePythonCall` | compost_rpc/compost_rpc.py:761-771 | End to end in memory: Python packs a call, the server runs on it with handlers that leave their results where they are offered or out of the way; the handler ran on exactly the arguments sent, and Python unpacks from the transmit buffer exactly what the procedure returns for them |
| `Layout.Decorate` | compost_rpc/compost_rpc.py:860-877 | The `struct` decorator computes the layout of its members, its sum, and the members that hold a list, in order; there are some exactly when the layout has more than one entry |
| `Layout.LayoutFromTokens` | compost_rpc/compost_rpc.py:862-873 | The layout of a nested struct is the layout of its flattened fields |
| `Layout.OneEntryPerList` | compost_rpc/compost_rpc.py:862-873 | One layout entry more than there are lists, at any nesting |
| `Layout.EncodedAtLeast` | compost_rpc/compost_rpc.py:860-873 | The encoder needs at least what the layout says between lists, and whole bytes |
| `Layout.DataStartsSpread` | compost_rpc/compost_rpc.py:1532-1569 | The places where the store puts list data are blocks spread by the encoder's own gaps |
| `Allocator.Alloc.constructor` | compost_rpc/lib/c/source_template.py:567-574 | A fresh allocator over the given buffer |
| `Allocator.Alloc.SetSuffixes` | compost_rpc/lib/c/source_template.py:576-582 | Sets the gaps and changes nothing else |
| `Allocator.Alloc.Reset` | compost_rpc/lib/c/source_template.py:584-591 | Forgets all blocks and gaps and starts again at the buffer |
| `Allocator.Alloc.Next` | compost_rpc/lib/c/source_template.py:593-612 | Fails exactly when the block does not fit or the suffixes are used up, then changes nothing; otherwise the block lies in the buffer, behind the previous one by exactly the gap in force |
| `Allocator.Disjoint` | compost_rpc/lib/c/source_template.py:593-612 | In every run since the last reset, blocks are disjoint, increasing and exactly the recorded gap apart |
| `Allocator.AllocateAll` | compost_rpc/compost_rpc.py:1519-1531 | The allocations of `T_init` in order, which go on after a refused block: each block is granted where `Grants` says or refused, and the suffix limit is never hit |
| `Allocator.GrantedIff` | compost_rpc/lib/c/source_template.py:593-612 | Nothing is refused if and only if the blocks spread by the gaps all fit, and then they stand there |
| `Allocator.GrantsApart` | compost_rpc/lib/c/source_template.py:593-612 | Whatever was refused between them, granted blocks end before the end of the buffer and do not overlap |
| `ZeroCopy.PlacesExactlyIff` | compost_rpc/compost_rpc.py:860-877 | Allocating by the layout gives every list the place where the store puts its data, for all lengths, if and only if padding adds less than a byte before every list |
| `ZeroCopy.NotTight` | compost_rpc/compost_rpc.py:862-873 | `{BitU[4], U8, BitU[4], list}` is allocated one byte too early |
| `ZeroCopy.TreeIsFlatAll` | compost_rpc/compost_rpc.py:1532-1569 | Positions, slices and the no-overwrite condition agree between nested values and flattened fields |
| `ZeroCopy.InPlaceStoreIsClear` | compost_rpc/compost_rpc.py:1515-1515 | Slices allocated by the layout `delta` bytes further on are never overwritten before they are stored, when what the layout lacks is less than `delta` plus the two bytes of a length |
| `ZeroCopy.SpreadApart` | compost_rpc/compost_rpc.py:860-877 | Where the layout and the encoder put the i-th list differs by the distance of their starts less the shortfall, whatever the lengths |
| `ZeroCopy.ShiftedStoreIsClear` | compost_rpc/compost_rpc.py:1745-1753 | Slices that sit any `delta` bytes past their final places, in order, are never overwritten before they are stored, for every type |
| `ZeroCopy.TightMissesNothing` | compost_rpc/compost_rpc.py:860-877 | For tight types no offset is needed: the zero-copy case |
| `ZeroCopy.AllocInit` | compost_rpc/compost_rpc.py:1513-1518 | `T_alloc_init` starts behind header and static prefix with the layout's gaps, and keeps the full buffer length |
| `ZeroCopy.AllocateSlices` | compost_rpc/compost_rpc.py:1506-1531 | `T_alloc_init` and one allocation per list, refusals included; nothing is refused exactly when the blocks end within the length given, and then, for tight types, the i-th slice stands exactly where `T_store` writes the data of the i-th list |
| `ZeroCopy.InsideBufferIff` | compost_rpc/compost_rpc.py:1513-1518 | For all types, lengths and buffers: which lengths the allocator accepts, and that the blocks stay inside the transmit buffer if and only if header, layout and lengths together do |
| `ZeroCopy.AllocatedPastTheBuffer` | compost_rpc/compost_rpc.py:1515-1515 | For every type with a list whose empty message fits the transmit buffer, lengths that are allocated successfully and end past it |
| `InPlace.DataAt` | compost_rpc/compost_rpc.py:1532-1569 | In a message the bits at the i-th data position are the elements of the i-th list |
| `InPlace.StoredAtDataStart` | compost_rpc/compost_rpc.py:1532-1569 | After a store the bytes that the i-th slice had stand at the i-th data position |
| `InPlace.ZeroCopyStore` | compost_rpc/lib/c/source_template.py:350-358 | Zero copy: for tight types, storing a struct whose slices were allocated in that message stores their value and leaves the bytes of every slice unchanged |
| `InPlace.WholeByteRunsAreTight` | compost_rpc/compost_rpc.py:860-877 | Types whose bit runs are whole bytes are tight |
| `Overlap.NotBothAll` | compost_rpc/compost_rpc.py:1532-1569 | Whatever the nesting: when the first byte of a list, at or before the place of its length, lies in no earlier list, of two memories that differ in just that byte at least one is not stored as the value it held |
| `Overlap.StoredAsHeldIff` | compost_rpc/compost_rpc.py:1532-1569 | For every struct whose slices do not overlap and begin no earlier than the message: it is stored as the value it held, for all memory contents, if and only if every non-empty slice begins behind the place of its length |
| `Replies.OfferedStoreIff` | compost_rpc/compost_rpc.py:1506-1531 | For a struct that `T_init` made, whatever it was refused: it is stored as the value it holds, for all contents, if and only if no granted list begins at or before the place of its length |
| `Replies.StoresFaithfullyIff` | compost_rpc/compost_rpc.py:1741-1755 | For every struct type and distance: storing a struct whose slices were all allocated that far behind the message gives the encoding of its value, for all values and memories, if and only if the type's layout is short of less than that distance and a length |
| `Replies.SpoiledReply` | compost_rpc/compost_rpc.py:1741-1755 | For every type that fails that check, a memory and a struct that are stored as another value |
| `Replies.SurvivesRefusalsIff` | compost_rpc/lib/c/source_template.py:494-501 | Refused allocations, exactly: for every struct type and distance, all structs that `T_init` can make are stored as the value they hold, whatever it was refused, if and only if the encoder's gaps before the lists together are less than the layout's static prefix, the distance and a length together |
| `Replies.RefusalSpoilsZeroCopy` | compost_rpc/lib/c/source_template.py:593-612 | `{bytes, bytes}` is tight and its in-place store is faithful, but when the first list is refused the second can be stored as another one |
| `Replies.AllocateAndStore` | compost_rpc/compost_rpc.py:1506-1569 | `T_alloc_init`, `T_init`, exactly the user's writes and `T_store` joined, refusals included: which blocks are granted, that none is refused exactly when the allocator accepts the lengths, and that the struct is stored with each list as it is when its turn comes, which is the value it held when no granted list is in the way |
| `Replies.GeneratedReply` | compost_rpc/compost_rpc.py:1745-1753 | The path of generated invoke functions, with the allocator started the static part behind the payload: the payload is the encoding of the value when the handler returned, for every type that passes the check when nothing was refused, and for every roomy type whatever was refused |
| `Replies.InPlaceMessage` | compost_rpc/compost_rpc.py:1506-1531 | A message built in the transmit buffer itself: for tight types, with nothing refused, it is the encoding of the value and every slice keeps its bytes; with refusals it is the encoding of the value when no granted list is in the way |
| `Replies.EightPairsAtMost` | compost_rpc/compost_rpc.py:862-873 | `{list[U8], n times (BitU[1], U8), BitU[1], list[U8]}` passes the check of generated replies if and only if n is at most 8 |
| `Replies.NinePairsSpoil` | compost_rpc/compost_rpc.py:1745-1753 | With nine pairs, a struct that a generated invoke function stores as another value |
| `InitHelpers.DynamicMemberNames` | compost_rpc/compost_rpc.py:1441-1451 | The flattened names of all lists in declaration order |
| `InitHelpers.OneNamePerList` | compost_rpc/compost_rpc.py:1441-1451 | Flattened names, layout suffixes and lists are equally many at any nesting |
| `InitHelpers.NamesByExample` | compost_rpc/compost_rpc.py:1441-1451 | The names of three lists at three levels of nesting, joined by underscores |
| `InitHelpers.RouteLengths` | compost_rpc/compost_rpc.py:1464-1471 | Each inner name is passed the first outer length whose name ends with it |
| `InitHelpers.RoutedRightIff` | compost_rpc/compost_rpc.py:1464-1471 | Through all levels of nesting every list gets its own length parameter if and only if no inner name is a suffix of an earlier outer name |
| `InitHelpers.AllocatesAsAskedIff` | compost_rpc/compost_rpc.py:1521-1531 | `T_init` allocates for every list the length passed for it, for all lengths, if and only if no name is ambiguous |
| `InitHelpers.SameTypeTwice` | compost_rpc/compost_rpc.py:1464-1471 | A struct with two members of the same nested type that holds a list always routes a length wrongly |
| `Framing.HeaderRoundTrip` | compost_rpc/compost_rpc.py:646-679 | Decoding an encoded header returns it, and no reserved flag is set |
| `Framing.HeaderBits` | compost_rpc/compost_rpc.py:646-679 | The header bit by bit: length in words, transaction number, three reserved bits, response flag, and 12 bits of id |
| `Framing.PythonHeader` | compost_rpc/compost_rpc.py:668-672 | Python packs the header format with the id cut to 12 bits, and refuses exactly a length or number over 255 |
| `Framing.PythonReads` | compost_rpc/compost_rpc.py:674-679 | Python reads the header format |
| `Framing.CReads` | compost_rpc/lib/c/source_template.py:404-422 | C reads the header format and refuses exactly the reserved flags |
| `Framing.CStore` | compost_rpc/lib/c/source_template.py:424-438 | C writes the header format and leaves the payload alone |
| `Framing.CSharpReads` | csharp/src/CompostRpc/MessageHeader.cs:42-51 | C# reads the header format |
| `Framing.CSharpWrite` | csharp/src/CompostRpc/MessageHeader.cs:58-68 | C# writes the header format with the id cut to 12 bits, and nothing into a buffer that is too short |
| `Framing.PaddingIsZero` | compost_rpc/compost_rpc.py:682-707 | A payload is padded with as few zero bytes as make whole words |
| `Framing.MessageRoundTrip` | compost_rpc/compost_rpc.py:682-707 | A message packs exactly when its payload has at most 1020 bytes, and unpacks to its header and padded payload |
| `Server.MsgProcess` | compost_rpc/lib/c/source_template.py:440-479 | The server loop body as a function of both buffers, for any invoke functions |
| `Server.ReplyDiscipline` | compost_rpc/lib/c/source_template.py:440-479 | Refused exactly are short, reserved-flag and response messages, and then nothing changes; a request with a number gets one reply with that number and the response flag, one without exactly when there is a result; the size returned is the size the header declares |
| `Server.Outcome` | compost_rpc/lib/c/source_template.py:440-479 | Every outcome byte by byte: the three refusals in their order with their numbers, and otherwise what the switch makes of id and payload behind a header with its length, the number of the request, the response flag and its id |
| `Server.UnknownIsReportedAsError` | compost_rpc/compost_rpc.py:1656-1656 | A request with an unknown id is answered with 0xFEE, which the C# client takes for an error; a reply that it takes for unsupported comes only from a procedure of that very id |
| `EndToEnd.ArgumentsCompatible` | compost_rpc/compost_rpc.py:1737-1740 | Every argument list that Python can pack is understood by the emitted load code, with no further condition |
| `EndToEnd.ArgumentsAreRead` | compost_rpc/compost_rpc.py:1737-1740 | So all of them pass the condition on types under which the emitted C gets what Python packs |
| `EndToEnd.ServerReadsArguments` | compost_rpc/compost_rpc.py:1737-1740 | The server loads exactly the arguments that were packed, padding included |
| `EndToEnd.SwitchServes` | compost_rpc/compost_rpc.py:1765-1784 | The generated switch stores the result of the procedure for every request whose payload reads as some arguments |
| `EndToEnd.ServerAnswers` | compost_rpc/compost_rpc.py:1737-1784 | For every client and every switch that stores the procedure's result over some buffer: the request is answered with number, id and exactly that result, for every compatible reader, in no more words than its encoding needs |
| `EndToEnd.RemoteCall` | compost_rpc/compost_rpc.py:761-771 | End to end: a Python call through packing, framing, `compost_msg_process` with such a switch, and unpacking returns exactly the procedure's value on the sent arguments, under the call's number |
| `EndToEnd.GeneratedCall` | compost_rpc/compost_rpc.py:1765-1784 | In particular with the generated switch, for every protocol |
| `PythonSession.Session.constructor` | compost_rpc/compost_rpc.py:1139-1147 | The initial number and an empty queue |
| `PythonSession.Session.Receive` | compost_rpc/compost_rpc.py:1156-1179 | What one received message or error adds to the queue: `Received` |
| `PythonSession.ReceivedIs` | compost_rpc/compost_rpc.py:1156-1179 | For any bytes: fewer than four or an unknown id queue an exception, number 0 queues nothing, and anything else is queued with its header and payload, response or not |
| `PythonSession.NotificationQueuesNothing` | compost_rpc/compost_rpc.py:1174-1177 | A notification queues nothing, whatever its flag and payload |
| `PythonSession.Session.SendRequest` | compost_rpc/compost_rpc.py:1205-1210 | The next number, wrapping from 255 to 1, and the request message |
| `PythonSession.Session.RecvResponse` | compost_rpc/compost_rpc.py:1186-1203 | Takes the first item, whatever it is, and returns its payload exactly when its number matches |
| `PythonSession.ReceiveIsStep` | compost_rpc/compost_rpc.py:1156-1179 | The listener changes the queue as the steps of the run machine do, for answers, faults and notifications |
| `PythonSession.PerformSend` | compost_rpc/compost_rpc.py:1205-1210 | Sending on the object is the Call step of the run machine, or the Abort step when the message does not go out, and the message carries the number of that step |
| `PythonSession.PerformReceive` | compost_rpc/compost_rpc.py:1156-1179 | One turn of the listener on the object is the Answer, Fault or Notify step, and the last changes nothing |
| `PythonSession.PerformRecv` | compost_rpc/compost_rpc.py:1186-1203 | Receiving on the object is the Take step, or the Expire step on an empty queue; it returns a payload exactly when the run machine says that the call returns, and it is the payload of the item taken |
| `PythonSession.RunKeepsInvariant` | compost_rpc/compost_rpc.py:1149-1223 | Every run of calls, failing sends, replies, faults, notifications and timeouts keeps numbers, counters and queue order consistent |
| `PythonSession.ReturnedReply` | compost_rpc/compost_rpc.py:1186-1223 | In every run a call that returns gets a reply whose age is a multiple of 255 calls: its own, unless the first unconsumed reply is at least 255 calls old |
| `PythonSession.TakenReplyIff` | compost_rpc/compost_rpc.py:1197-1203 | A taken reply is returned if and only if its age is a multiple of 255 calls |
| `PythonSession.Conservation` | compost_rpc/compost_rpc.py:1156-1203 | Over every stretch of a run, items queued are items taken plus what is in the queue, and each call takes at most one |
| `PythonSession.BacklogStays` | compost_rpc/compost_rpc.py:1156-1203 | While every request is answered the backlog never shrinks |
| `PythonSession.StaleQueueMisleads` | compost_rpc/compost_rpc.py:1186-1203 | A call that begins with an item in the queue never returns its own reply |
| `PythonSession.WrongReply` | compost_rpc/compost_rpc.py:1200-1203 | A run in which a call returns the reply to a call 255 earlier: the bound is sharp |
| `CSharpSession.Transaction.SetResponse` | csharp/src/CompostRpc/Transaction.cs:37-40 | Completes a pending transaction and leaves any other alone |
| `CSharpSession.Transaction.Cancel` | csharp/src/CompostRpc/Transaction.cs:45-48 | Cancels a pending transaction and leaves any other alone |
| `CSharpSession.Session.Acquire` | csharp/src/CompostRpc/Session.cs:195-203 | Returns the counter and advances it modulo 256: it does wrap through 0 |
| `CSharpSession.Session.Add` | csharp/src/CompostRpc/Session.cs:210-220 | Never overwrites: fails exactly when the slot is taken |
| `CSharpSession.Session.FetchAndRemove` | csharp/src/CompostRpc/Session.cs:229-237 | Returns and clears one slot and no other |
| `CSharpSession.Session.Clear` | csharp/src/CompostRpc/Session.cs:242-252 | Cancels every pending transaction in the table and empties it |
| `CSharpSession.PerformAcquire` | csharp/src/CompostRpc/Session.cs:67-67 | Acquiring a number and making a transaction on the objects is the Acquire step of the run machine |
| `CSharpSession.PerformAdd` | csharp/src/CompostRpc/Session.cs:210-220 | Registering on the objects is the Add step of the run machine |
| `CSharpSession.PerformRead` | csharp/src/CompostRpc/Session.cs:178-186 | Fetching on the objects is the Read step of the run machine |
| `CSharpSession.PerformComplete` | csharp/src/CompostRpc/Session.cs:190-191 | Completing the fetched transaction on the objects is the Complete step of the run machine |
| `CSharpSession.PerformRemove` | csharp/src/CompostRpc/Session.cs:104-108 | The timeout branch on the objects is the Remove step of the run machine |
| `CSharpSession.PerformDispose` | csharp/src/CompostRpc/Session.cs:242-252 | Disposal on the objects is the Dispose step of the run machine |
| `CSharpSession.StepKeepsInvariant` | csharp/src/CompostRpc/Session.cs:91-252 | Under every interleaving step an occupied slot holds an uncompleted transaction with the number of the slot |
| `CSharpSession.CompletedWithOwnResponse` | csharp/src/CompostRpc/Session.cs:157-193 | In every run a completed transaction holds a response with its own number |
| `CSharpSession.AnsweredByOwn` | csharp/src/CompostRpc/Session.cs:157-193 | In every run a completed call holds the response to its own request or to that of a call a multiple of 256 away; within 256 calls always its own |
| `CSharpSession.OwnResponseIff` | csharp/src/CompostRpc/Session.cs:157-193 | In every run all completed calls, and the one that the reader is about to complete, have their own response if and only if no read fetched a call other than the one its response answers |
| `CSharpSession.WrongResponse` | csharp/src/CompostRpc/Session.cs:104-108 | A run in which a late response to a timed-out call completes the call 256 later: the bound is sharp |
| `CSharpSession.StuckStays` | csharp/src/CompostRpc/Session.cs:94-98 | When writing the request raises, the slot stays occupied until a response, a timeout branch or disposal happens to free it |
| `CSharpSession.StuckRefuses` | csharp/src/CompostRpc/Session.cs:210-220 | Meanwhile every call that gets the same number is refused |
| `CSharpSession.SettledOnce` | csharp/src/CompostRpc/Transaction.cs:37-48 | In every run a transaction completes or is cancelled at most once |
| `CSharpSession.NumbersDistinct` | csharp/src/CompostRpc/Session.cs:195-203 | Two calls have the same number if and only if they are a multiple of 256 apart, and every 256th call has number 0 |
| `CSharpSession.LeavesSlotBy` | csharp/src/CompostRpc/Session.cs:99-108 | A pending transaction leaves its slot exactly by disposal, its response, its own timeout, or the late timeout branch of another call with the same number |
| `CSharpSession.EvictionNeedsReuse` | csharp/src/CompostRpc/Session.cs:104-108 | Such a branch needs two calls at least 256 apart |
| `CSharpSession.NoLostCall` | csharp/src/CompostRpc/Session.cs:91-110 | No call is ever lost in a run if and only if no timeout branch runs after its number went to another waiting call |
| `CSharpSession.OrphanStays` | csharp/src/CompostRpc/Session.cs:157-193 | A lost call never completes, whatever arrives; only its own delay or a failing write ends it |
| `CSharpSession.LostCall` | csharp/src/CompostRpc/Session.cs:104-108 | A run of the session that loses a call |
| `CSharpStream.NewMessage` | csharp/src/CompostRpc/Message.cs:82-90 | A message from bytes: refused exactly over 1020 bytes, otherwise the same bytes as the Python message |
| `CSharpStream.ReadExactly` | csharp/src/CompostRpc/Compatibility/StreamExtensions.cs:5-21 | Reads exactly the wanted bytes however the stream cuts them; fails exactly when it ends too early |
| `CSharpStream.FromStream` | csharp/src/CompostRpc/Message.cs:31-40 | Consumes exactly the first message of the stream |
| `CSharpStream.ReadMessages` | csharp/src/CompostRpc/Message.cs:31-40 | For every sequence of messages and every way of cutting their bytes into reads, repeated reading gives that sequence and leaves nothing over |
| `CSharpPacking.AcceptsExactlyWhatFits` | csharp/src/CompostRpc/Serialization.cs:310-342 | The range check accepts a value exactly when it fits the packed size in the signedness of its type |
| `CSharpPacking.SerializePacked` | csharp/src/CompostRpc/Serialization.cs:351-373 | Writes exactly the addressed bits; refuses exactly values that do not fit and positions past the end |
| `CSharpPacking.DeserializePacked` | csharp/src/CompostRpc/Serialization.cs:383-416 | Returns the addressed bits, sign-extended for signed types |
| `CSharpPacking.SignExtension` | csharp/src/CompostRpc/Serialization.cs:406-410 | Or-ing the inverted mask subtracts the power of two |
| `CSharpPacking.PackedRoundTrip` | csharp/src/CompostRpc/Serialization.cs:310-416 | Packing and unpacking returns every value that fits, sign included |
| `CSharpCodec.CopyBytes` | csharp/src/CompostRpc/Serialization.cs:248-258 | Copies bytes in reverse order into place and changes nothing else; refuses exactly ranges outside the arrays |
| `CSharpCodec.SerializeNumber` | csharp/src/CompostRpc/Serialization.cs:281-299 | Big-endian number at the next byte boundary |
| `CSharpCodec.Serialize` | csharp/src/CompostRpc/Serialization.cs:426-463 | Writes exactly what the C# dialect prescribes for the value, or fails exactly when a packed value does not fit its size or there is no room; `CSharpMessage.MessageBits` writes that out |
| `CSharpCodec.DeserializeNumber` | csharp/src/CompostRpc/Serialization.cs:482-495 | The number at the next byte boundary; the position keeps its bit offset |
| `CSharpCodec.Deserialize` | csharp/src/CompostRpc/Serialization.cs:510-563 | Returns exactly what the C# reader dialect prescribes, or fails exactly when it cannot be read; `Runs.UnderstoodFromCSharpIff` and `Malformed.CSharpLists` say where that leads |
| `CSharpSize.SizeCache.IsTypeStatic` | csharp/src/CompostRpc/Serialization.cs:96-119 | Through the cache: true exactly for types without a list anywhere inside; the cache stays truthful |
| `CSharpSize.SizeCache.GetTypeSize` | csharp/src/CompostRpc/Serialization.cs:127-160 | Through the caches: the cache-free size; fails exactly for dynamic types |
| `CSharpSize.SizeCache.GetObjectSize` | csharp/src/CompostRpc/Serialization.cs:167-198 | Through the caches: the cache-free size of the value |
| `CSharpSize.SizeCache.GetMembersSize` | csharp/src/CompostRpc/Serialization.cs:188-196 | Through the caches: the sum of the cache-free sizes of the members, packed ones by their packed size |
| `CSharpSize.SizeCache.Shape` | csharp/src/CompostRpc/MessageShape.cs:29-45 | A shape is fixed exactly when all its types are static, and then has the sum of their sizes |
| `CSharpSize.StaticIsExact` | csharp/src/CompostRpc/Serialization.cs:190-198 | For a static type the size of the type is the size of every value |
| `CSharpSize.SizeIsAdvanceIff` | csharp/src/CompostRpc/Serialization.cs:167-198 | `Serialize` advances by the computed size and the padding of the type, whatever the value; by just the size if and only if the type needs no padding from the position on |
| `CSharpMessage.FromObjects` | csharp/src/CompostRpc/Message.cs:62-74 | A message from objects is built exactly when it is within 255 words and the padding of its types fits what rounding to words leaves over; then it carries number, id and the C#-dialect encoding over zeros |
| `CSharpMessage.MessageBits` | csharp/src/CompostRpc/Message.cs:62-74 | Every bit of a payload: the fields in order, structs neither beginning nor finishing at byte boundaries, and zeros up to a word |
| `CSharpMessage.CSharpReadsItself` | csharp/src/CompostRpc/Serialization.cs:426-563 | C# gets the arguments of its own messages back for all types that pass the condition of `Runs.UnderstoodFromCSharpIff` |
| `CSharpMessage.OverrunIff` | csharp/src/CompostRpc/Serialization.cs:571-576 | The serialized arguments fit the computed buffer if and only if the padding of the types is at most what rounding to words leaves over |
| `CSharpMessage.StaticAlwaysOrNever` | csharp/src/CompostRpc/Serialization.cs:571-576 | A message of static types can be built for all values or for none: size and padding of the types decide |
| `CSharpMessage.NeverOverrun` | csharp/src/CompostRpc/Serialization.cs:571-576 | For types without padding the buffer is never overrun |
| `CSharpMessage.AlwaysOverruns` | csharp/src/CompostRpc/Serialization.cs:571-576 | `{BitU[4], U8, BitU[4], U16}`: no value can be sent, the buffer is always one byte short |
| `CSharpMessage.CSharpCall` | csharp/src/CompostRpc/Session.cs:65-69 | End to end from C#, for every switch that stores the procedure's result: when the emitted C reads the C# arguments and C# reads the C result (conditions on types), the reply of the C server deserializes to exactly that value on the sent arguments |
| `CSharpMessage.CallZeroIsNotAnswered` | csharp/src/CompostRpc/Session.cs:200-200 | A call with number 0 to a procedure without a result is never answered |
## Left out

- All transports and the TCP proxy: socket, serial and process input and output. The Python stream transport's own reassembly is not modelled.
- The text of the generated sources, naming, casing, overwrite prompts, paths: string plumbing. An emitted helper is its sequence of accesses.
- C# reflection, delegate compilation and protocol wiring: property lists are type descriptions.
- Delivery of notifications to subscribers in Python and C#; in the sessions such messages do not reach the queue or the table.
- `compost_u32_field_*` and `compost_u64_field_*`: nothing calls them.
- The element accessors and copies of slices, and `compost_str_new`: they would only add easy members.
- Enum variants: a number that is no variant of its enum is refused by Python when unpacking; here an enum is its backing number.
- UTF-8: a `str` is its encoded bytes, so a decoding error does not occur.
- Floating-point arithmetic: floats are opaque bit patterns.
- Packed enums and packed `bool` in C#: encoding and decoding treat the sign of enums differently.
- C# lists of structs, and C# lists of 65536 bytes or more, whose length wraps.
- NULL arguments and `COMPOST_ASSERT` in C. Bit fields wider than 32 bits, which the generator does not offer.
- Overlapping `memcpy`: copies are modelled as `memmove`, because overlap is undefined under section 7.24.2.1 of C11. The order in which `T_init` allocates is the declaration order, which section 6.7.9 of C11 leaves open.
- Threads and locks: a critical section is one step, and all interleavings of steps are considered. Time is a step that may happen whenever a call waits.
- Contents of the request in the C# session: a response is its transaction number, its payload and the call it answers.
- Server.Invoke: the C code checks neither bounds nor ranges; where it would read or write outside its buffers, or a handler returns a value out of range, the model leaves the payload alone.
- CInvoke.InvokeInMemory: a handler is a function of memory and arguments, and leaves its result where its encoding fits the buffer.
- Replies.GeneratedReply: the lengths passed to `T_init` are those of the lists in declaration order; `InitHelpers` says when the generated routing of lengths keeps that.
- PythonCodec.PackPayload: every argument is of the Python class its annotation names; other classes are not modelled.
- CSharpCodec.Serialize: a bit field is a packed `uint` property of 1 to 32 bits; signed packed properties are covered by `CSharpPacking` alone, and lists hold numbers, as protocol definitions allow.
- CSharpCodec.Deserialize: the same types as for `CSharpCodec.Serialize`.
- PythonSession.ReturnedReply: the server answers requests in order, each at most once, and echoes their numbers.
