# Verification of the host-based firmware libraries

This project models the hardest parts of the host-side firmware libraries of this repository in Dafny and
proves what they promise.

- **The Global Coherency Domain** (`LinkedList`, `GcdEntries`, `GcdConversion`, `GcdSpec`, `GcdMap`,
  `GcdPlacement`, `GcdAllocator`, `GcdPromises`, `GcdChoices`, `GcdTheorems`, `GcdRuns`, `GcdServices`).  A
  GCD map is a ring of nodes, each an address interval with a record, that is split, updated, merged and
  freed in place.  The class `GcdMap.Map` is that ring; `GcdEntries.RecordAt` is the address-to-record
  function the list stands for.  Every operation is proved against an update of that function, so a contract
  speaks about addresses, not about entries; `GcdPromises` and `GcdChoices` say what that means field by
  field and in numbers.  Around single calls there are theorems about runs of calls, and about when what an
  operation is meant to do is what it does.
- **The disk** (`Disk`): a byte range cut into blocks is one flat byte array.
- **Text** (`SafeString`, `Ipv6Text`, `Ipv6Group`, `Ipv6`, `StringSearch`): saturating numerals, the IPv6
  parser with the exact language it accepts, substring search.
- **CRC-32** (`Crc32`) and the **hand-off block list** (`HobList`).

`Efi` holds the status codes and machine ranges, `Arithmetic` rounding to powers of two.

## How the model reads

Addresses and lengths are natural numbers below 2^64 and sums are taken modulo 2^64 where the code takes
them (`GcdSpec.LastAddress`); attribute words are 64-bit vectors.  Handles are numbers, 0 standing for NULL.
A pool allocation that may fail is a Boolean parameter, `gCpu` is a parameter that is absent or answers each
request with any status, and the alignment of a disk buffer is a Boolean parameter.  What other callers do
while the lock of a map is free is a finite script of service calls.  Positions in a ring, and the entries
before and after one, are ghost.

Results that are not what a reader of the documentation would expect, each with the lemmas that state it:

- A conversion whose range passes 2^64 is accepted if one entry holds both its ends, and then destroys the
  partition (`ConvertTilesIff`; `AddingAlmostEverythingWraps` is an instance on the initial map).
- So is an allocation, at a given address or upwards with a length above 2^63 (`FindAtAddress`,
  `FindBottomUp`).  Which parameters can lead there is exact (`AllocateTilesIff`;
  `AllocatingAlmostEverythingWraps` is an instance on the initial map).  Everything about runs is about
  calls whose ranges do not pass 2^64, which is a condition on their parameters (`GcdRuns.Proper`).
- The top-down search passes over an entry when base + length exceeds the maximum, one address too early
  (`TopDownHighestIff`, `LastEntryNeverFilled`).
- SET_ATTRIBUTES with no CPU-arch bit is meant to keep those bits, and carries them from each entry of the
  range to the next (`KeepsCpuBitsIff`, `CarriesUncacheableOn`).
- A hexadecimal string that begins with an x has the character in front of it looked at, and only such a
  string (`FrontMattersIff`).
- The comments of the numeral converters store the start of the string at EndPointer when there are no
  digits.  The code does so only if there are no blanks either, or an x that is no prefix (`EmptyDecimal`,
  `EmptyHex`).
- The group converter of the IPv6 parser also takes an x behind zeros, so a few texts that RFC 4291 does not
  have are accepted (`TakesPrefixedGroup`).  The language that is accepted is exactly that of
  `Ipv6Text.Parses` (`AcceptsExactly`).
- A hand-off block shorter than four bytes does not survive the end marker behind it (`Created`).

Where the code and its comments differ without a theorem about it, the model follows the code: the comments
of `StrToIpv6Address` store the low byte of a group first, and the code stores the high byte first, as RFC
4291 writes addresses.

## Model

| member | source | states |
|---|---|---|
| `LinkedList.InitializeListHead` | HBFA/UefiHostTestPkg/Library/BaseLibHost/LinkedList.c:117-129 | the node alone is a ring |
| `LinkedList.InsertHeadList` | HBFA/UefiHostTestPkg/Library/BaseLibHost/LinkedList.c:153-170 | the ring afterwards is the old one with the entry right after the given node, links mutually inverse |
| `LinkedList.InsertTailList` | HBFA/UefiHostTestPkg/Library/BaseLibHost/LinkedList.c:194-211 | the ring afterwards is the old one with the entry right before the given node, also before its first node |
| `LinkedList.RemoveEntryList` | HBFA/UefiHostTestPkg/Library/BaseLibHost/LinkedList.c:525-536 | the rest of the ring closes up, the successor of the removed node is returned, and its own links stay |
| `LinkedList.IsNodeInList` | HBFA/UefiHostTestPkg/Library/BaseLibHost/LinkedList.c:69-99 | the do-while walk terminates and finds exactly the members of the ring |
| `LinkedList.SwapListEntries` | HBFA/UefiHostTestPkg/Library/BaseLibHost/LinkedList.c:457-502 | the two nodes exchange their positions and no other node moves, in every case: apart, neighbours either way round, the two-node ring, the same node twice |
| `GcdEntries.LengthsAddUp` | HBFA/UefiHostTestPkg/Library/DxeServicesTableLibHost/Gcd.c:2097-2130 | in a tiling of a space the lengths of the entries add up to the size of the space |
| `GcdEntries.EntryAt` | HBFA/UefiHostTestPkg/Library/DxeServicesTableLibHost/Gcd.c:584-622 | each address of a tiled space is held by an entry |
| `GcdEntries.TilesHoldOnce` | HBFA/UefiHostTestPkg/Library/DxeServicesTableLibHost/Gcd.c:584-622 | no address is held by two entries |
| `GcdEntries.RecordIs` | HBFA/UefiHostTestPkg/Library/DxeServicesTableLibHost/Gcd.c:584-622 | what the address-to-record function says about an address is what the entry holding it says |
| `GcdEntries.CanonicalUnique` | HBFA/UefiHostTestPkg/Library/DxeServicesTableLibHost/Gcd.c:467-566 | two coalesced lists for the same address-to-record function are equal entry by entry: the coarsest partition is unique |
| `GcdConversion.ConvertedRecord` | HBFA/UefiHostTestPkg/Library/DxeServicesTableLibHost/Gcd.c:905-966 | splitting off the ends and updating the entries in between changes the record of exactly the addresses of the range |
| `GcdConversion.CleanedKeeps` | HBFA/UefiHostTestPkg/Library/DxeServicesTableLibHost/Gcd.c:540-566 | merging never changes what the list records, and keeps it a tiling |
| `GcdConversion.CleanedCanonical` | HBFA/UefiHostTestPkg/Library/DxeServicesTableLibHost/Gcd.c:540-566 | merging from the start link to the end link restores the coalesced form when the list was coalesced on both sides of the range |
| `GcdConversion.AfterOperation` | HBFA/UefiHostTestPkg/Library/DxeServicesTableLibHost/Gcd.c:905-971 | a conversion as a whole leaves a tiling, coalesced and with every signature in place |
| `GcdSpec.CarryByAddress` | HBFA/UefiHostTestPkg/Library/DxeServicesTableLibHost/Gcd.c:949-956 | what the loop-carried parameter Attributes holds at an entry is what an address-by-address OR over the range holds there, although entries differ in size |
| `GcdSpec.AfterUpdates` | HBFA/UefiHostTestPkg/Library/DxeServicesTableLibHost/Gcd.c:905-971 | list surgery refines the update of a function: inside the range exactly the update of the operation, outside nothing, invariant kept |
| `GcdSpec.UpdatesUnique` | HBFA/UefiHostTestPkg/Library/DxeServicesTableLibHost/Gcd.c:905-971 | the updated function determines the new list |
| `GcdSpec.ScanRange` | HBFA/UefiHostTestPkg/Library/DxeServicesTableLibHost/Gcd.c:761-858 | checking entry by entry and checking address by address find the same first complaint |
| `GcdSpec.OutcomeSpanned` | HBFA/UefiHostTestPkg/Library/DxeServicesTableLibHost/Gcd.c:712-986 | search, checks, work space and conversion together give the promised outcome, for ranges that wrap around as well |
| `GcdSpec.OutcomeUnspanned` | HBFA/UefiHostTestPkg/Library/DxeServicesTableLibHost/Gcd.c:751-756 | a range that no two entries span does not lie in the space, and is refused |
| `GcdMap.Map.constructor` | HBFA/UefiHostTestPkg/Library/DxeServicesTableLibHost/Gcd.c:2097-2130 | an empty ring with no live pool block |
| `GcdMap.Map.Initialize` | HBFA/UefiHostTestPkg/Library/DxeServicesTableLibHost/Gcd.c:2097-2130 | one entry from 0 to 2^n - 1 that carries the template |
| `GcdMap.Map.AllocateMapEntries` | HBFA/UefiHostTestPkg/Library/DxeServicesTableLibHost/Gcd.c:377-404 | both zeroed blocks or neither: when the second allocation fails the first one is freed |
| `GcdMap.Map.InsertMapEntry` | HBFA/UefiHostTestPkg/Library/DxeServicesTableLibHost/Gcd.c:421-452 | the entry is cut at the range, the parts below and above become neighbours, and a spare block is used exactly if there is such a part |
| `GcdMap.Map.MergeMapEntry` | HBFA/UefiHostTestPkg/Library/DxeServicesTableLibHost/Gcd.c:467-525 | the entry absorbs its neighbour exactly if they agree on all six fields, and the block of the neighbour is freed |
| `GcdMap.Map.CleanupMapEntries` | HBFA/UefiHostTestPkg/Library/DxeServicesTableLibHost/Gcd.c:540-566 | unused spare blocks are freed once, and every entry from the start link to the end link is merged with its predecessor, the last one with its successor |
| `GcdMap.Map.SearchMapEntry` | HBFA/UefiHostTestPkg/Library/DxeServicesTableLibHost/Gcd.c:584-622 | finds the entries holding the first and the last address of a range, and fails if and only if there are none in this order |
| `GcdMap.Map.ConvertEntries` | HBFA/UefiHostTestPkg/Library/DxeServicesTableLibHost/Gcd.c:905-966 | the conversion loop, which inserts nodes into the ring it walks, computes the split and updated list |
| `GcdMap.Map.CheckEntries` | HBFA/UefiHostTestPkg/Library/DxeServicesTableLibHost/Gcd.c:761-858 | the first complaint about an entry of the range |
| `GcdMap.Map.ConvertSpace` | HBFA/UefiHostTestPkg/Library/DxeServicesTableLibHost/Gcd.c:712-986 | all or nothing: on any error list, ring and pool are as before; on success the address-to-record function has exactly the update on exactly the range; the status is decided by addresses alone; the lock is given back |
| `GcdMap.Map.LiveBlocks` | HBFA/UefiHostTestPkg/Library/DxeServicesTableLibHost/Gcd.c:377-404 | live pool blocks and list entries are equally many: nothing leaks and nothing is freed twice |
| `GcdPlacement.BottomUpJump` | HBFA/UefiHostTestPkg/Library/DxeServicesTableLibHost/Gcd.c:1230-1250 | jumping to the entry in the way skips no range that fits |
| `GcdPlacement.BottomUpAlign` | HBFA/UefiHostTestPkg/Library/DxeServicesTableLibHost/Gcd.c:1213-1219 | starting at the first aligned address of an entry skips none either |
| `GcdPlacement.TopDownJump` | HBFA/UefiHostTestPkg/Library/DxeServicesTableLibHost/Gcd.c:1230-1250 | the same for the downward search |
| `GcdPlacement.TopDownCandidate` | HBFA/UefiHostTestPkg/Library/DxeServicesTableLibHost/Gcd.c:1199-1216 | in an entry the downward search considers, no fitting range has a higher base than the candidate it computes |
| `GcdPlacement.PlacedUpdates` | HBFA/UefiHostTestPkg/Library/DxeServicesTableLibHost/Gcd.c:1258-1282 | recording a found range updates exactly that range |
| `GcdAllocator.FindBottomUp` | HBFA/UefiHostTestPkg/Library/DxeServicesTableLibHost/Gcd.c:1160-1256 | succeeds if and only if some aligned free range of the type fits below the maximum, and then returns the lowest one; for lengths above 2^63, whose ranges may wrap around, it returns the first entry start that is accepted, and fails if and only if there is none; terminates although it moves its own cursor |
| `GcdAllocator.FindTopDown` | HBFA/UefiHostTestPkg/Library/DxeServicesTableLibHost/Gcd.c:1160-1256 | returns the highest fitting range among those whose last entry starts low enough, and fails if and only if there is none |
| `GcdAllocator.FindAtAddress` | HBFA/UefiHostTestPkg/Library/DxeServicesTableLibHost/Gcd.c:1128-1159 | succeeds if and only if the given range is aligned, in the space, free and of the type; a range that passes 2^64 if and only if it is aligned and one entry, free and of the type, holds both its ends |
| `GcdAllocator.FirstUnusable` | HBFA/UefiHostTestPkg/Library/DxeServicesTableLibHost/Gcd.c:1230-1246 | the first entry of the range that is owned or of another type |
| `GcdAllocator.AllocateSpace` | HBFA/UefiHostTestPkg/Library/DxeServicesTableLibHost/Gcd.c:1051-1301 | parameter errors in order; otherwise the choice of the mode is made exactly if there is one, recorded for exactly its range, and any error leaves list, ring and pool as they were; also for requests that wrap around, with the base they are recorded at |
| `GcdPromises.MemoryAdded` | HBFA/UefiHostTestPkg/Library/DxeServicesTableLibHost/Gcd.c:916-923 | a successful ADD records the type and the capabilities given, with RUNTIME, and PORT_IO as well for memory-mapped I/O, about every address of the range; no memory was there and nobody owned it; the other fields stay |
| `GcdPromises.IoAdded` | HBFA/UefiHostTestPkg/Library/DxeServicesTableLibHost/Gcd.c:924-926 | the same for an I/O type |
| `GcdPromises.Freed` | HBFA/UefiHostTestPkg/Library/DxeServicesTableLibHost/Gcd.c:930-934 | a successful FREE leaves every address of the range without owner and device; all had an owner; the other fields stay |
| `GcdPromises.MemoryRemoved` | HBFA/UefiHostTestPkg/Library/DxeServicesTableLibHost/Gcd.c:938-941 | a successful REMOVE leaves type and capabilities zero; there was memory that nobody owned; the other fields stay |
| `GcdPromises.IoRemoved` | HBFA/UefiHostTestPkg/Library/DxeServicesTableLibHost/Gcd.c:942-944 | the same for an I/O type, which alone becomes zero |
| `GcdPromises.CapabilitiesSet` | HBFA/UefiHostTestPkg/Library/DxeServicesTableLibHost/Gcd.c:961-963 | new capabilities are recorded as given, cover the attributes in force, and go to whole pages; the other fields stay |
| `GcdPromises.AttributesSet` | HBFA/UefiHostTestPkg/Library/DxeServicesTableLibHost/Gcd.c:948-957 | attributes among which is a page or cache attribute are recorded as given; others with exactly the page and cache attributes of the range up to the address, no more and no less; the other fields stay |
| `GcdPromises.NothingElse` | HBFA/UefiHostTestPkg/Library/DxeServicesTableLibHost/Gcd.c:905-966 | a successful operation changes no record outside its range |
| `GcdPromises.OutsideRefused` | HBFA/UefiHostTestPkg/Library/DxeServicesTableLibHost/Gcd.c:729-756 | an empty range is an invalid parameter and one that leaves the space is unsupported; any error leaves the map |
| `GcdPromises.AddMemoryAnswer` | HBFA/UefiHostTestPkg/Library/DxeServicesTableLibHost/Gcd.c:770-776 | inside the space, memory is added exactly if there is none and nobody owns an address of the range, and there is work space; else access is denied, or resources are out |
| `GcdPromises.AddIoAnswer` | HBFA/UefiHostTestPkg/Library/DxeServicesTableLibHost/Gcd.c:777-783 | the same for an I/O type |
| `GcdPromises.FreeAnswer` | HBFA/UefiHostTestPkg/Library/DxeServicesTableLibHost/Gcd.c:787-793 | a range is freed exactly if every address has an owner, and there is work space; else it is not found |
| `GcdPromises.RemoveMemoryAnswer` | HBFA/UefiHostTestPkg/Library/DxeServicesTableLibHost/Gcd.c:797-806 | memory is removed exactly if all of it is there and has no owner; else the first address that fails one of the two decides the answer |
| `GcdPromises.RemoveIoAnswer` | HBFA/UefiHostTestPkg/Library/DxeServicesTableLibHost/Gcd.c:807-816 | the same for an I/O type |
| `GcdPromises.SetAttributesAnswer` | HBFA/UefiHostTestPkg/Library/DxeServicesTableLibHost/Gcd.c:820-900 | the answer in order: RUNTIME needs whole pages, every address must support the attributes, there must be work space, and page or cache attributes need the CPU, which is asked for the page attributes and the lowest cache attribute on just the range |
| `GcdPromises.SetCapabilitiesAnswer` | HBFA/UefiHostTestPkg/Library/DxeServicesTableLibHost/Gcd.c:835-849 | the answer in order: whole pages, attributes in force that stay supported, work space |
| `GcdChoices.ParameterAnswer` | HBFA/UefiHostTestPkg/Library/DxeServicesTableLibHost/Gcd.c:1080-1108 | which parameters are refused and how: an alignment of 64 and more is not found, all else is invalid; nothing changes |
| `GcdChoices.BottomUpAnswer` | HBFA/UefiHostTestPkg/Library/DxeServicesTableLibHost/Gcd.c:1160-1256 | upwards: not found if and only if there is no room up to the maximum, which is the address given or the end of the space; else the lowest place there is room for |
| `GcdChoices.TopDownAnswer` | HBFA/UefiHostTestPkg/Library/DxeServicesTableLibHost/Gcd.c:1160-1256 | downwards: the same with the highest place among those considered |
| `GcdChoices.MaximumObeyed` | HBFA/UefiHostTestPkg/Library/DxeServicesTableLibHost/Gcd.c:1167-1172 | with a maximum given, the range ends at or below it, in both directions |
| `GcdChoices.AtAddressAnswer` | HBFA/UefiHostTestPkg/Library/DxeServicesTableLibHost/Gcd.c:1128-1159 | at an address given: not found if and only if there is no room; for a range that passes 2^64, if and only if the address is not aligned or no one free entry holds both ends |
| `GcdChoices.LongAnswer` | HBFA/UefiHostTestPkg/Library/DxeServicesTableLibHost/Gcd.c:1160-1256 | upwards for more than 2^63 bytes: the first entry start that is accepted, up to the maximum |
| `GcdChoices.Recorded` | HBFA/UefiHostTestPkg/Library/DxeServicesTableLibHost/Gcd.c:1267-1277 | a successful allocation records the two handles about its range, leaves the other fields and all other addresses |
| `GcdTheorems.AllocateThenFree` | HBFA/UefiHostTestPkg/Library/DxeServicesTableLibHost/Gcd.c:1258-1282 | freeing exactly what an allocation returned restores the identical entry list |
| `GcdTheorems.KeepsCpuBitsIff` | HBFA/UefiHostTestPkg/Library/DxeServicesTableLibHost/Gcd.c:949-956 | SET_ATTRIBUTES without CPU-arch bits keeps every address its own CPU-arch bits if and only if those bits only grow along the range |
| `GcdTheorems.CarriesUncacheableOn` | HBFA/UefiHostTestPkg/Library/DxeServicesTableLibHost/Gcd.c:949-956 | a map and a call where it does not: an uncacheable page is followed by write-back memory, the call setting RUNTIME on two pages returns success, and the second page is recorded as uncacheable as well |
| `GcdTheorems.ConvertTilesIff` | HBFA/UefiHostTestPkg/Library/DxeServicesTableLibHost/Gcd.c:604-618 | a successful conversion leaves a partition if and only if base + length does not pass 2^64 or the operation changes nothing there |
| `GcdTheorems.AddingAlmostEverythingWraps` | HBFA/UefiHostTestPkg/Library/DxeServicesTableLibHost/Gcd.c:604-618 | such a conversion on the initial map: it reports success and leaves no partition |
| `GcdTheorems.AllocateTilesIff` | HBFA/UefiHostTestPkg/Library/DxeServicesTableLibHost/Gcd.c:1258-1282 | a successful allocation leaves a partition if and only if its parameters rule out that the range passes 2^64: mode, length and, at a given address, that address |
| `GcdTheorems.AllocatingAlmostEverythingWraps` | HBFA/UefiHostTestPkg/Library/DxeServicesTableLibHost/Gcd.c:1128-1159 | such an allocation on the initial map: it reports success at the given address and leaves no partition |
| `GcdTheorems.TopDownHighestIff` | HBFA/UefiHostTestPkg/Library/DxeServicesTableLibHost/Gcd.c:1199-1216 | the top-down modes choose the highest fitting range if and only if base + length of the entry it ends in does not pass the maximum |
| `GcdTheorems.LastEntryNeverFilled` | HBFA/UefiHostTestPkg/Library/DxeServicesTableLibHost/Gcd.c:1199-1216 | hence they never fill the last entry of the space exactly |
| `GcdRuns.StepUpdates` | HBFA/UefiHostTestPkg/Library/DxeServicesTableLibHost/Gcd.c:712-1301 | one call changes nothing or updates exactly its range, inside the space, and keeps the invariant |
| `GcdRuns.RunPartition` | HBFA/UefiHostTestPkg/Library/DxeServicesTableLibHost/Gcd.c:421-566 | in every state of every run the map is a coalesced partition of the space: each address in exactly one entry, lengths adding up to the size |
| `GcdRuns.SameFunctionSameList` | HBFA/UefiHostTestPkg/Library/DxeServicesTableLibHost/Gcd.c:467-566 | two runs that lead to the same address-to-record function lead to the same list |
| `GcdRuns.RunDetermined` | HBFA/UefiHostTestPkg/Library/DxeServicesTableLibHost/Gcd.c:712-1301 | the same calls have the same statuses and leave the same lists |
| `GcdRuns.RunHistory` | HBFA/UefiHostTestPkg/Library/DxeServicesTableLibHost/Gcd.c:712-1301 | every state of every run records about every address exactly what the successful calls that covered it said, in order; for SET_ATTRIBUTES without CPU-arch bits that includes the bits carried to it, computed from the calls alone |
| `GcdRuns.OwnerUntilFreed` | HBFA/UefiHostTestPkg/Library/DxeServicesTableLibHost/Gcd.c:1267-1277 | until it is freed an address belongs to whom it was allocated to |
| `GcdRuns.FreedInBetween` | HBFA/UefiHostTestPkg/Library/DxeServicesTableLibHost/Gcd.c:1128-1277 | no address has two live owners in any run: between two allocations that cover it, a free covered it |
| `GcdServices.InitializeGcdServices` | HBFA/UefiHostTestPkg/Library/DxeServicesTableLibHost/Gcd.c:2097-2130 | both maps are in the first state of a run: one entry over the whole space, all of whose fields are zero |
| `GcdServices.Perform` | HBFA/UefiHostTestPkg/Library/DxeServicesTableLibHost/Gcd.c:1482-1492 | a service call on the map is a step of a run |
| `GcdServices.InternalAddMemorySpace` | HBFA/UefiHostTestPkg/Library/DxeServicesTableLibHost/Gcd.c:1316-1336 | only existing memory types can be added; otherwise the outcome of the conversion |
| `GcdServices.GetMemorySpaceDescriptor` | HBFA/UefiHostTestPkg/Library/DxeServicesTableLibHost/Gcd.c:1551-1590 | found exactly for the addresses of the space, and then the descriptor of the entry that holds it |
| `GcdServices.DescriptorsCover` | HBFA/UefiHostTestPkg/Library/DxeServicesTableLibHost/Gcd.c:1525-1538 | descriptors start at 0, abut, end with the space, and tell the record of all their addresses |
| `GcdServices.CountMapEntries` | HBFA/UefiHostTestPkg/Library/DxeServicesTableLibHost/Gcd.c:633-649 | the number of entries |
| `GcdServices.FillSnapshot` | HBFA/UefiHostTestPkg/Library/DxeServicesTableLibHost/Gcd.c:1721-1731 | every write stays in the buffer, which afterwards equals the map entry by entry |
| `GcdServices.GetMemorySpaceMap` | HBFA/UefiHostTestPkg/Library/DxeServicesTableLibHost/Gcd.c:1681-1772 | whatever others do to the map at each release of the lock, on success the array equals the map as it is at the end; it ends at the first release that leaves the number of entries as it was; it fails exactly if an allocation fails; the lock is free on every return; every other array was given back to the pool exactly once |
| `Disk.BlockDevice.ReadBlocks` | HBFA/UefiHostFuzzTestCasePkg/TestStub/DiskStubLib/DiskStubLib.c:75-122 | succeeds exactly if media, size and byte range allow, and then copies exactly these bytes |
| `Disk.BlockDevice.WriteBlocks` | HBFA/UefiHostFuzzTestCasePkg/TestStub/DiskStubLib/DiskStubLib.c:144-195 | the same for writing; on any error the device is unchanged |
| `Disk.BlockDevice.ReadWhole` | HBFA/UefiHostFuzzTestCasePkg/TestStub/DiskStubLib/DiskStubLib.c:333-396 | the direct path and the path through the 64-block work buffer read the same bytes and fail alike |
| `Disk.BlockDevice.ReadDisk` | HBFA/UefiHostFuzzTestCasePkg/TestStub/DiskStubLib/DiskStubLib.c:233-423 | succeeds if and only if the range lies on the device, and then the buffer holds the flat slice; on an error it holds exactly the prefix that the first block, the aligned run or the pieces of 64 blocks before the refused one make up, and is otherwise unchanged |
| `Disk.BlockDevice.RewriteBlock` | HBFA/UefiHostFuzzTestCasePkg/TestStub/DiskStubLib/DiskStubLib.c:509-539 | read-modify-write of part of a block changes exactly that part |
| `Disk.BlockDevice.WriteWhole` | HBFA/UefiHostFuzzTestCasePkg/TestStub/DiskStubLib/DiskStubLib.c:554-617 | both write paths store the same bytes; on an error a prefix of them |
| `Disk.BlockDevice.WriteDisk` | HBFA/UefiHostFuzzTestCasePkg/TestStub/DiskStubLib/DiskStubLib.c:443-655 | on success the device is the old one with exactly the range replaced; on any error with exactly such a prefix of the range replaced |
| `Disk.WriteThenRead` | HBFA/UefiHostFuzzTestCasePkg/TestStub/DiskStubLib/DiskStubLib.c:233-655 | a write and a later read of any two ranges, in any alignment, succeed exactly if media, write protection, memory and ranges allow; then each byte read is the one written there, or the one that was there before |
| `SafeString.ConvertDigits` | HBFA/UefiHostTestPkg/Library/BaseLibHost/SafeString.c:711-739 | the exact value of the digits if it fits; otherwise the maximum, stopping at the first digit that is too much |
| `SafeString.StrDecimalToUintnS` | HBFA/UefiHostTestPkg/Library/BaseLibHost/SafeString.c:675-855 | blanks and zeros are skipped, then ConvertDigits; strings that are too long are refused |
| `SafeString.StrHexToUintnS` | HBFA/UefiHostTestPkg/Library/BaseLibHost/SafeString.c:910-1117 | the same with an x that counts only behind a zero |
| `SafeString.OverflowTest` | HBFA/UefiHostTestPkg/Library/BaseLibHost/SafeString.c:714-732 | the test before a digit is taken on is true exactly if the new value would exceed the maximum |
| `SafeString.NumeralValue` | HBFA/UefiHostTestPkg/Library/BaseLibHost/SafeString.c:675-855 | whatever blanks and zeros precede a decimal numeral, overflow is reported if and only if its value exceeds the maximum, and otherwise the value is delivered |
| `SafeString.HexNumeralValue` | HBFA/UefiHostTestPkg/Library/BaseLibHost/SafeString.c:910-1117 | the same for a hexadecimal numeral that is not followed by an x, or whose value is not zero |
| `SafeString.PrefixedValue` | HBFA/UefiHostTestPkg/Library/BaseLibHost/SafeString.c:938-986 | the same for a hexadecimal numeral whose digits follow an x behind zeros |
| `SafeString.PrintedNumber` | HBFA/UefiHostTestPkg/Library/BaseLibHost/SafeString.c:675-855 | converting the decimal form of a number gives the number back |
| `SafeString.PrintedHexNumber` | HBFA/UefiHostTestPkg/Library/BaseLibHost/SafeString.c:910-1117 | the same for the hexadecimal form, in either case of its letters |
| `SafeString.EmptyDecimal` | HBFA/UefiHostTestPkg/Library/BaseLibHost/SafeString.c:675-711 | with no digit behind the blanks the place behind the blanks is stored at EndPointer, which is the start of the string if and only if there are no blanks |
| `SafeString.EmptyHex` | HBFA/UefiHostTestPkg/Library/BaseLibHost/SafeString.c:938-960 | the same in hexadecimal; an x that is no prefix has the start of the string stored in any case |
| `SafeString.FrontMattersIff` | HBFA/UefiHostTestPkg/Library/BaseLibHost/SafeString.c:951-955 | the character in front of a string changes its conversion if and only if the string begins with an x and is not too long |
| `SafeString.LeadingZeros` | HBFA/UefiHostTestPkg/Library/BaseLibHost/SafeString.c:700-707 | zeros in front do not change the value |
| `SafeString.DecimalSpelled` | HBFA/UefiHostTestPkg/Library/BaseLibHost/SafeString.c:675-768 | spaces and tabs, zeros, and the digits of a number are converted to the number, or to the maximum if it is larger, as said in character codes |
| `SafeString.HexSpelled` | HBFA/UefiHostTestPkg/Library/BaseLibHost/SafeString.c:910-1010 | the same in hexadecimal |
| `SafeString.PrefixSpelled` | HBFA/UefiHostTestPkg/Library/BaseLibHost/SafeString.c:951-960 | the same with an x behind at least one zero |
| `SafeString.NoDecimal` | HBFA/UefiHostTestPkg/Library/BaseLibHost/SafeString.c:705-711 | a string that begins with anything but a space, a tab or a digit is converted to zero and nothing of it is taken |
| `SafeString.NoHex` | HBFA/UefiHostTestPkg/Library/BaseLibHost/SafeString.c:940-950 | the same in hexadecimal, if it does not begin with an x |
| `Ipv6.StrToIpv6Address` | HBFA/UefiHostTestPkg/Library/BaseLibHost/SafeString.c:1177-1349 | if it succeeds, the string reads as a rendering of the address and the prefix length it delivers, up to the end it stores, where 255 stands for no prefix length and only for that; if the string reads as any rendering, it succeeds and delivers the address, the prefix length and the end of that one; a failure writes nothing |
| `Ipv6.AcceptsExactly` | HBFA/UefiHostTestPkg/Library/BaseLibHost/SafeString.c:1120-1176 | a string is accepted if and only if it reads as a rendering |
| `Ipv6.ReadGroup` | HBFA/UefiHostTestPkg/Library/BaseLibHost/SafeString.c:1264-1283 | what is taken as a group is one that is over where it ends, and is stored as its two bytes; a group of a rendering is taken; the index stays inside the address |
| `Ipv6.Assemble` | HBFA/UefiHostTestPkg/Library/BaseLibHost/SafeString.c:1331-1339 | the bytes before the gap, zeros, and the bytes after it |
| `Ipv6.StoredAll` | HBFA/UefiHostTestPkg/Library/BaseLibHost/SafeString.c:1318-1339 | the groups read so far, cut at the gap, make up the address of the rendering |
| `Ipv6.GroupAhead` | HBFA/UefiHostTestPkg/Library/BaseLibHost/SafeString.c:1264-1315 | behind each group of a rendering the parser finds the next group, the "::" or the ending |
| `Ipv6.SeenMore` | HBFA/UefiHostTestPkg/Library/BaseLibHost/SafeString.c:1210-1283 | what was read so far, a separator or a gap, and a group are the text of one more group |
| `Ipv6.SeenWhole` | HBFA/UefiHostTestPkg/Library/BaseLibHost/SafeString.c:1284-1330 | where the loop ends with the right number of groups, what was read is a rendering and what is left does not go on with it |
| `Ipv6.TextParses` | HBFA/UefiHostTestPkg/Library/BaseLibHost/SafeString.c:1120-1176 | the text of each rendering, with a null behind it, is a string that reads as that rendering |
| `Ipv6.TextSpelled` | HBFA/UefiHostTestPkg/Library/BaseLibHost/SafeString.c:1120-1176 | the text of a rendering in character codes: colons between groups, two for the gap, a slash before the prefix length |
| `Ipv6.AddressSpelled` | HBFA/UefiHostTestPkg/Library/BaseLibHost/SafeString.c:1120-1176 | every address, spelled in character codes with two colons over any one run of zero groups and any prefix length up to 128, reads as that address and that prefix length |
| `Ipv6Text.RenderStandsFor` | HBFA/UefiHostTestPkg/Library/BaseLibHost/SafeString.c:1120-1176 | every address, printed with a "::" over any one run of zero groups and any prefix length, has a rendering that stands for it |
| `Ipv6Text.TakesPrefixedGroup` | HBFA/UefiHostTestPkg/Library/BaseLibHost/SafeString.c:1264-1275 | a text that RFC 4291 does not have and that reads as a rendering: "0x1::", of the address 1:: |
| `Ipv6Group.GroupConverted` | HBFA/UefiHostTestPkg/Library/BaseLibHost/SafeString.c:938-1007 | the hexadecimal converter takes every group, with or without a prefix, to its value and its end |
| `Ipv6Group.ConvertedGroup` | HBFA/UefiHostTestPkg/Library/BaseLibHost/SafeString.c:938-1007 | from a digit on, whatever it takes in at most four characters is a group, and the value is that of the group |
| `Ipv6Group.GroupValueFits` | HBFA/UefiHostTestPkg/Library/BaseLibHost/SafeString.c:1277-1280 | the value of a group fits into 16 bits |
| `StringSearch.StrStr` | HBFA/UefiHostTestPkg/Library/BaseLibHost/String.c:214-257 | the first occurrence, and null if and only if there is none, also when the text runs out in the middle of a match |
| `Crc32.TableIs` | HBFA/UefiHostTestPkg/Library/BaseLibHost/CheckSum.c:333-590 | each of the 256 entries of the table is what its index leaves in an empty register |
| `Crc32.ShiftSplits` | HBFA/UefiHostTestPkg/Library/BaseLibHost/CheckSum.c:607-628 | what is above the low byte of the register only moves down, so low byte and message byte can be looked up together |
| `Crc32.CalculateCrc32` | HBFA/UefiHostTestPkg/Library/BaseLibHost/CheckSum.c:607-628 | for every buffer, the table-driven loop computes the bit-at-a-time CRC-32 |
| `Crc32.CheckValue` | HBFA/UefiHostTestPkg/Library/BaseLibHost/CheckSum.c:607-628 | the CRC of the characters 1 to 9 is the check value 0xCBF43926 |
| `Crc32.FixedRemainder` | HBFA/UefiHostTestPkg/Library/BaseLibHost/CheckSum.c:607-628 | a message followed by its CRC leaves one fixed remainder, the receiver's test of ITU-T V.42 |
| `Crc32.OneByteDetected` | HBFA/UefiHostTestPkg/Library/BaseLibHost/CheckSum.c:607-628 | two messages that differ in one byte have different CRCs |
| `HobList.List.constructor` | HBFA/UefiHostTestPkg/Library/HobLibHost/HobLibHost.c:20-41 | every byte of the 64 KB: the hand-off block with its fields, the end marker behind it, zeros |
| `HobList.List.CreateHob` | HBFA/UefiHostTestPkg/Library/HobLibHost/HobLibHost.c:246-281 | for every type and length: a block goes where the list ended if and only if there is room for it and a new end marker; its header and the marker are there byte by byte, the field EfiEndOfHobList is the address of the marker, and every other byte of the buffer is as it was; the list is longer by the block if type and length survive the marker and the type is not the end type; no room, no change |
| `HobList.List.FillBody` | HBFA/UefiHostTestPkg/Library/HobLibHost/HobLibHost.c:478-494 | writing inside the body of a block leaves the list as it is |
| `HobList.List.GetNextHob` | HBFA/UefiHostTestPkg/Library/HobLibHost/HobLibHost.c:85-106 | the first block of the type at or after the start, null if and only if there is none, and the walk ends at the end marker |
| `HobList.List.GetNextGuidHob` | HBFA/UefiHostTestPkg/Library/HobLibHost/HobLibHost.c:155-172 | the first GUID extension block with that name behind its header at or after the start, null if and only if there is none |
| `HobList.LaidAppend` | HBFA/UefiHostTestPkg/Library/HobLibHost/HobLibHost.c:246-281 | after a creation a walk by HobLength visits the old blocks and then the new one |
| `HobList.Created` | HBFA/UefiHostTestPkg/Library/HobLibHost/HobLibHost.c:263-278 | what the end marker behind a new block leaves of it: a block shorter than type and length is not found as it was created, one of no length is gone, and one of the end type ends the list |
| `HobList.LaidBody` | HBFA/UefiHostTestPkg/Library/HobLibHost/HobLibHost.c:85-106 | bytes inside a body are on no walk |

## Left out

- `CoreAddMemorySpace` after the conversion: allocating the pages just added calls `CoreAddMemoryDescriptor`, which asserts here; `CoreInternalAddMemorySpace` is modelled instead.
- `CoreUpdateMemoryAttributes` behind `CoreSetMemorySpaceCapabilities`: it asserts here.
- `CoreGetIoSpaceMap`, `CoreGetIoSpaceDescriptor`, `CoreAddIoSpace` and the other services that only pass their parameters on: easy members; `GcdRuns.Call` covers the conversions and allocations they make, on either map.
- Resource descriptor attribute conversion, debug dumps, name tables and the service table of Gcd.c: constants and table look-ups.
- AllocateSpace: what BaseAddress points to after a failed search is not specified, because callers have no use for it.
- FindTopDown: not optimal among all fitting ranges, because the code is not; it is exact about the ranges the code considers.
- KeepsCpuBitsIff: speaks of attributes without CPU-arch bits only, because with such bits the update is the parameter itself.
- GetMemorySpaceMap: what others do is a finite script of any length, because against callers that change the number of entries at every release the loop of the code does not end; the calls of the script are those of a run, whose ranges do not pass 2^64.
- ReadDisk: the device, the buffer and the work buffer are disjoint and fit into one 64-bit address space, and 64 blocks can be counted in 32 bits; the flag TransactionComplete is not modelled, because whenever it is set nothing is left to transfer.
- WriteDisk: the same.
- StrHexToUintnS: when the string begins with an x the code reads the character in front of it; the model takes that character as a parameter.
- StrDecimalToUintnS: for a string that is too long only the status is claimed, because the code then stores neither value nor end; null arguments are excluded by the types; the Unicode and ASCII forms, and the UINTN and UINT64 forms, differ in a character width and a maximum and are one member each.
- StrToIpv6Address: that renderings are accepted is claimed for strings of at most RSIZE_MAX characters, because the converters it calls refuse longer ones; on failure only the status and the unchanged address are claimed, because the code then stores nothing else.
- Conversion to IPv4 addresses, GUIDs and bytes, bounded copies and concatenations of SafeString.c and String.c: easier relatives of what is modelled.
- CalculateCrc32: nothing beyond one changed byte is proved about error detection.
- The other checksums of CheckSum.c: sums.
- CreateHob: after a block shorter than four bytes, unless it has none, or of the end type, the class invariant is not claimed, because the field EfiEndOfHobList and the blocks no longer agree; no caller in the file creates one.
- GetNextGuidHob: a GUID extension block too short for a name is compared by what follows it in the buffer, as in the code; it is required that those bytes are in the buffer.
- List: the buffer is not within 128 KB of the top of the 64-bit address space, where the test for room would wrap around.
- Builders of particular hand-off blocks: `CreateHob` followed by writes to the body, which `FillBody` stands for.
- The USB, TPM, PEI, SMM, cache and virtio stubs, and the Python tooling: constant returns, table wiring, process launching.
