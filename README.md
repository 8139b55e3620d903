# gamehack_librs, modelled in Dafny

`gamehack_librs` is a small Windows library for inspecting another process.

- It finds a process by the name of its main executable and collects that process's loaded modules.
- It scans a process's address space, region by region, for a byte signature with a wildcard mask.
- It follows a chain of pointer offsets through the target's memory.
- It decodes the fixed-size, NUL-terminated name buffers the Win32 API fills in.

This project models that logic and proves properties of it. Every Win32 call becomes an input.

| Win32 call | becomes |
|---|---|
| `EnumProcesses`, `OpenProcess`, `GetModuleBaseNameA` of each process | a `ProcessTable` snapshot |
| `EnumProcessModules`, `GetModuleBaseNameA`, `GetModuleInformation` | a `ModuleEnumeration` per process |
| `VirtualQueryEx` | a `RegionQuery` oracle, where `None` means the call failed |
| byte-wise `ReadProcessMemory` | a partial byte map `ByteMemory` |
| word-sized `ReadProcessMemory` | a partial word map `WordMemory` |

The model has one Dafny module per source file, plus three supporting modules.

| Dafny file | module | what it holds |
|---|---|---|
| `machine.dfy` | `Machine` | `u8`/`u32`/`u64` as integer subsets, `usize::wrapping_add`, `Option`, `Result` |
| `utf8.dfy` | `Utf8` | well-formed UTF-8 following section 4 of RFC 3629, and `Utf8Error::valid_up_to` |
| `std_text.dfy` | `StdText` | the standard-library pieces the name decoding chains: `CStr::from_bytes_until_nul`, `CStr::to_str`, `to_ascii_lowercase` |
| `errors.dfy` | `Errors` | `src/errors.rs`: the error enum, its `Display` text and the `From` conversions |
| `types.dfy` | `Types` | `src/types.rs`: `ModuleData`, the `ProcessData` class (updated in place), and the strict decoder `to_string_lowercase` |
| `utils.dfy` | `Utils` | `src/utils.rs`: `transform_name`, `data_compare`, `find_signature` (an imperative loop over a heap buffer), `process_modules` (a loop that pushes into a `ProcessData`) |
| `lib.dfy` | `GameHack` | `src/lib.rs`: `find_process` (a loop that updates a fresh `ProcessData`) and `read` (a loop over offsets that stores into a `WordCell`, which stands for `*mut T`) |

The imperative methods are each proved against a specification function: `FindSignature` against `ScanResult`, `ProcessModules` against `EnumeratedModules`, `FindProcess` against `MatchingSlots`/`MatchedModules`, and `Read` against `ResolveChain`. The properties the source promises are proved about those functions as lemmas.

## Model

| member | source | states |
|---|---|---|
| Machine.WrappingAdd | src/utils.rs:51 | `wrapping_add` is the plain sum whenever that sum fits in 64 bits |
| Machine.WrappingAddIsModular | src/lib.rs:97 | `wrapping_add` is the sum taken modulo 2^64, for all operands |
| Utf8.ValidUpTo | src/types.rs:30 | `valid_up_to` is at most the length, the prefix of that length is well formed, and it equals the whole length exactly when the input is well formed |
| Utf8.ValidUpToIsLongest | src/types.rs:30 | `valid_up_to` is the longest well-formed prefix: every well-formed prefix is at most that long |
| Utf8.AsciiIsValid | src/types.rs:30 | every all-ASCII byte string passes the UTF-8 check |
| StdText.FromBytesUntilNulMeaning | src/types.rs:29 | `from_bytes_until_nul` fails exactly when there is no NUL; a success is a NUL-free prefix of the input that is followed by a NUL |
| StdText.FromBytesUntilNulAt | src/types.rs:29 | the first NUL is where the text stops: the result is exactly the bytes before it |
| StdText.FromBytesUntilNulFirst | src/types.rs:29 | `FromBytesUntilNulAt` for every position of a first NUL |
| StdText.ToStr | src/types.rs:30 | `to_str` succeeds exactly on well-formed UTF-8 and returns the same bytes; on failure `valid_up_to` lies inside the input and marks a well-formed prefix |
| StdText.ToStrValidUpToIsLongest | src/types.rs:30 | the `Utf8Error` of a rejected text reports its longest well-formed prefix |
| StdText.AsciiLowercase | src/types.rs:31 | lowercasing keeps the length |
| StdText.AsciiLowercaseMeaning | src/types.rs:31 | an ASCII capital becomes its small letter (32 further on); no ASCII capital is left; a byte changes exactly when it is an ASCII capital; ASCII-ness and NUL-ness of every byte are kept |
| StdText.AsciiLowercaseIdempotent | src/types.rs:31 | lowercasing twice is lowercasing once |
| StdText.AsciiLowercaseOfLower | src/types.rs:31 | a string without ASCII capitals is unchanged |
| StdText.LowercasePreservesUtf8 | src/types.rs:31 | lowercasing well-formed UTF-8 yields well-formed UTF-8, so the result is again a `str` |
| Errors.Message | src/errors.rs:26-33 | `EmptyBuffer` shows its own text; every other variant shows a non-empty fixed text |
| Errors.MessageTexts | src/errors.rs:28-32 | the five fixed messages, whatever the payload |
| Errors.Display | src/errors.rs:34 | the displayed text is `"Error: "` followed by the variant's message |
| Errors.PayloadIgnored | src/errors.rs:28-32 | two errors of the same variant other than `EmptyBuffer` display identically, whatever their payloads |
| Errors.KindsDisplayDifferently | src/errors.rs:28-32 | two different variants other than `EmptyBuffer` never display the same text |
| Errors.FromNulError | src/errors.rs:42-48 | a `FromBytesUntilNulError` becomes `NoNulByte`, carrying it |
| Errors.FromUtf8Error | src/errors.rs:54-59 | a `Utf8Error` becomes `InvalidUtf8`, carrying it |
| Errors.FromIntError | src/errors.rs:66-71 | a `TryFromIntError` becomes `IntError`, carrying it |
| Types.DefaultModuleData | src/types.rs:9-14 | the derived default record has an empty name, address 0 and size 0 |
| Types.ProcessData.constructor | src/types.rs:17-22 | the derived default process record has handle 0, id 0 and no modules |
| Types.ToStringLowercaseMeaning | src/types.rs:27-33 | `to_string_lowercase` gives `NoNulByte` exactly when there is no NUL; otherwise the text before the first NUL gives `InvalidUtf8`, with its `valid_up_to`, unless it is well formed, and then the result is that text, ASCII-lowercased |
| Types.ToStringLowercaseRoundTrip | src/types.rs:29-31 | lowercase ASCII text, followed by a NUL and any bytes at all, decodes to exactly that text |
| Utils.TransformNameMeaning | src/utils.rs:14-20 | `transform_name` is the lowercased text before the first NUL, or `""` when there is no NUL or that text is not UTF-8; the result is shorter than the buffer (or empty), NUL-free, well formed and without ASCII capitals |
| Utils.TransformNameIgnoresTail | src/utils.rs:15 | bytes after the first NUL never influence the name |
| Utils.TransformNameOfLowercase | src/utils.rs:14-20 | lowercase ASCII text followed by a NUL and anything after it comes back unchanged |
| Utils.TransformNameIdempotent | src/utils.rs:19 | normalising a normalised name, re-terminated by a NUL, changes nothing |
| Utils.TransformNameAgreesWithToStringLowercase | src/utils.rs:14-20 | the lenient and strict decoders agree: a strict success is the lenient result, and any strict failure makes the lenient result `""` |
| Utils.Utf8Width | src/utils.rs:63 | a char takes 1 to 4 bytes in UTF-8, and exactly 1 when it is ASCII |
| Utils.MaskByteLen | src/utils.rs:63 | `mask.len()` in bytes lies between the char count and four times it |
| Utils.MaskByteLenAscii | src/utils.rs:63 | `mask.len()` equals the char count exactly when the mask is all ASCII |
| Utils.ExactPositionsAgreeMeaning | src/utils.rs:66-68 | the `all` over the mask's chars holds exactly when every `'x'` position agrees |
| Utils.DataCompareMeaning | src/utils.rs:62-69 | `data_compare` holds exactly when both inputs are at least `mask.len()` bytes long and data and signature agree at every `'x'` of the mask |
| Utils.WildcardMaskMatches | src/utils.rs:66-68 | a mask without `'x'`, the empty mask included, matches every long enough input |
| Utils.ExactMismatchFails | src/utils.rs:68 | changing the data at one `'x'` position to a byte other than the signature's makes the comparison fail |
| Utils.TraceFromSteps | src/utils.rs:27-35 | every iteration queries and reads `base + offset` (wrapping) at a cursor below `size`, under an `mbi` of non-zero size; there are none exactly when the cursor starts at or past `size` |
| Utils.TraceFromLinks | src/utils.rs:27-56 | each iteration advances the cursor by the full `RegionSize` of the previous one and sees its own query's answer, or the stale `mbi` when the query fails; the last iteration carries the cursor to `size` or beyond |
| Utils.RegionBuffer | src/utils.rs:39 | the buffer is `RegionSize` bytes long |
| Utils.RegionBufferMeaning | src/utils.rs:39-47 | a region buffer holds the target's bytes at `address + k`, or all zeros when the read fails |
| Utils.ReadRegionInto | src/utils.rs:41-47 | `ReadProcessMemory` fills the whole buffer when the range is readable and leaves it untouched otherwise |
| Utils.FirstMatchFromMeaning | src/utils.rs:49-53 | the inner loop's result is the smallest window index at which `data_compare` holds, or none when no index does |
| Utils.FirstWindowMatch | src/utils.rs:49-53 | the loop over `buffer[i..]` returns the first matching index |
| Utils.ScanRegion | src/utils.rs:38-53 | one committed region: a zeroed buffer of `RegionSize` bytes, the read into it, then the first matching index |
| Utils.StepHit | src/utils.rs:49 | a hit index lies below the region's size |
| Utils.StepHitMeaning | src/utils.rs:37-53 | a `MEM_FREE` region never matches; in a committed region the hit is the smallest matching index and its whole mask window fits inside the region; no hit means no index matches |
| Utils.FirstHitMeaning | src/utils.rs:27-57 | the hit is the earliest iteration whose region matches; there is none exactly when no iteration matches |
| Utils.FirstHitAfterMisses | src/utils.rs:49-51 | after iterations without a match, the first matching one decides the result, whatever follows |
| Utils.ScanResultMeaning | src/utils.rs:27-58 | the scan returns 0 when no visited region matches; otherwise it returns the `BaseAddress` of the earliest matching committed region plus the smallest matching index (wrapping), and the mask window lies inside that region |
| Utils.HitAddressHoldsSignature | src/utils.rs:49-51 | when the matching region starts at the scanned address and was readable, the target holds the signature at every exact position from the returned address on |
| Utils.ScanResultCons | src/utils.rs:49-56 | a matching first iteration decides the scan result as its `BaseAddress` plus the index; one without a match passes the result on to the iterations after it |
| Utils.VisitRegion | src/utils.rs:29-54 | one pass of the outer loop's body: `mbi` becomes the query's answer (or stays stale when the query fails), and the hit is the first matching index of a committed region, none for a `MEM_FREE` one |
| Utils.ScanAdvances | src/utils.rs:27-57 | one loop iteration: a hit makes the remaining iterations' result that region's `BaseAddress` plus the index; otherwise that result is the one from the cursor advanced by `RegionSize` |
| Utils.FindSignature | src/utils.rs:23-59 | `find_signature` returns exactly the scan result over the iterations its loop performs |
| Utils.ModuleCount | src/utils.rs:84-86 | no more slots are visited than the handle array holds |
| Utils.ModuleCountMeaning | src/utils.rs:72-86 | the number of modules visited is `cb_needed / 8`, capped by the array length (1024 for the array used) |
| Utils.ModuleRecordsMeaning | src/utils.rs:104-108 | one record per slot, in slot order, each built from its own slot |
| Utils.EnumeratedModulesMeaning | src/utils.rs:84-108 | exactly `min(cb_needed / 8, 1024)` records for the 1024-slot array, in order; each name is `transform_name` of the slot's buffer, with the slot's base and image size |
| Utils.ProcessModules | src/utils.rs:71-110 | `process_modules` appends those records after the existing ones and leaves handle and id alone |
| GameHack.ProcessCount | src/lib.rs:48-52 | no more pid slots are considered than the array holds |
| GameHack.ProcessCountMeaning | src/lib.rs:36-52 | `cb_needed / 4` slots are considered, capped by the array length (1024 for the array used) |
| GameHack.MatchingSlotsMeaning | src/lib.rs:50-66 | a slot is among the matches exactly when it is considered and matches; every match has a non-zero pid |
| GameHack.MatchedModulesLength | src/lib.rs:67-71 | the collected module list is as long as all the matches' module counts together |
| GameHack.VisitSlot | src/lib.rs:63-71 | a matching slot overwrites handle and id and appends its modules; any other slot leaves the record unchanged |
| GameHack.CollectMatches | src/lib.rs:50-72 | after the loop, the record holds the last match's pid and handle (or id 0 when there is none) and the modules of every match, in order |
| GameHack.FindProcess | src/lib.rs:35-79 | `ProcessNotFound` exactly when nothing matched; otherwise a fresh record with a non-zero id, the last match's pid and handle, and every match's modules |
| GameHack.NotFoundIffNoMatch | src/lib.rs:74-78 | the lookup fails exactly when no considered slot matches |
| GameHack.LastMatchWins | src/lib.rs:67-69 | when slot `k` matches and no later slot does, the last match (whose pid and handle are kept) is slot `k` |
| GameHack.SentinelNeverMatches | src/lib.rs:65-66 | `"<Module Name>"` holds capitals, so no lowercased target equals it |
| GameHack.UndecodableNeverMatches | src/lib.rs:63-66 | a process whose name does not decode never matches |
| GameHack.FindIsCaseInsensitive | src/lib.rs:66 | targets with the same ASCII lowercase form match the same slots |
| GameHack.EmptyTargetMatches | src/lib.rs:63-66 | with an empty target, an admitted process matches exactly when its name buffer starts with a NUL |
| GameHack.EmptyNameNotFound | src/tests.rs:13 | an empty name is not found exactly when no admitted process's name buffer starts with a NUL; there is no empty-name guard |
| GameHack.DecodedNameAgreesWithTransformName | src/lib.rs:63-65 | the strict decoder used for matching agrees with `transform_name` on every buffer it accepts; on a rejected buffer it yields the sentinel while `transform_name` yields `""` |
| GameHack.ChaseAppend | src/lib.rs:94-102 | following `xs + ys` is following `xs`, then `ys` |
| GameHack.ChaseIsChaseBack | src/lib.rs:94-102 | the loop's left fold over the offsets equals the step-by-step definition that applies the last offset last |
| GameHack.ResolveNoOffsets | src/lib.rs:83-103 | with no offsets, `read` stores the word at `addr`, or 0 when that read fails |
| GameHack.FailedStepKeepsValue | src/lib.rs:95-101 | a step whose read fails leaves `next_addr` unchanged, and the chain goes on from it |
| GameHack.UnreadableResolvesToZero | src/lib.rs:83-103 | when no read succeeds (`addr` is unreadable, and so is every `0 + offset`), `read` stores 0 whatever the offsets |
| GameHack.Read | src/lib.rs:81-105 | `read` stores exactly the resolved chain: the word at `addr`, then one wrapping step per offset |

## Left out

- Win32 calls are inputs, not models. The model takes the process table, module enumerations, region query and memories as given snapshots of the target.
- `get_process_handle` and `close_handle` (src/lib.rs:25-33) are left out: they are thin wrappers over foreign calls. An open attempt is the `open` field of a process slot.
- Handle lifetime is not modelled, including the handles leaked for non-matching processes.
- `write` (src/lib.rs:107-117) is a single foreign call and is left out.
- Partial reads are not modelled: every read succeeds in full or fails in full.
- GameHack.Read: the generic `T` of `read` and the raw `ptr::write` are not modelled; the result is one 64-bit word stored in a `WordCell`.
- Concurrency is not modelled, nor the target changing its memory during a scan. Each memory is one snapshot.
- Errors.Display covers the produced text only, not the `Formatter` plumbing.
- src/tests.rs is not modelled: it needs a live process list. Its empty-name test appears only as the conditional lemma `EmptyNameNotFound`.
- StdText.ToStr: `Utf8Error` keeps `valid_up_to` only; `error_len` is not modelled.
- Utils.FindSignature requires `ScanTerminates`: every reported region is non-empty, and the first query succeeds when `size > 0`. Without it the source loops forever, since `offset += mbi.RegionSize` adds 0.
- Utils.FindSignature treats `base + offset` (src/utils.rs:29) as wrapping, as in a release build. A debug build would panic on overflow, and that panic is not modelled.
- Utils.FindSignature keeps `offset` as an unbounded counter, so an overflow of `offset += RegionSize` (src/utils.rs:56) is not modelled.
- Utils.HitAddressHoldsSignature requires the matching region to start at the scanned address. The source reads from `base + offset` but returns `BaseAddress + i`. The two name the same byte only for an aligned region, so nothing is claimed for a misaligned one.
- Types.ProcessData: `module_list` is declared as a `HashMap` (src/types.rs:21) but `process_modules` pushes onto it (src/utils.rs:104). The model keeps an ordered sequence, and the generic key type is dropped.
- The record is named `ModuleData` as in src/types.rs:10; src/utils.rs:10 imports it under the older name `ModuleList`.
- The `TransformName` trait is imported from `utils` in src/lib.rs:23 but defined in src/types.rs:23. The model uses the types.rs definition.
- Name buffers may have any length; the 256-byte size of the Win32 buffers is not enforced.
- The target is 64-bit: `usize` is `u64`, and a module handle takes 8 bytes.
- The error variants `EmptyBuffer`, `SignatureNotFound` and `IntError` are modelled but never produced by the core: `find_signature` returns 0 rather than `SignatureNotFound`.

What the code does at the points where a reader might expect otherwise:

- `find_process` has no empty-name guard (src/lib.rs:35-79). The expectation at src/tests.rs:13, that `""` gives `ProcessNotFound`, holds only under `EmptyNameNotFound`'s condition: no admitted process's name buffer starts with a NUL.
- `find_process` does not stop at a match (src/lib.rs:63-71). It keeps the pid and handle of the last match and appends the modules of every match.
- `find_signature` returns 0 when nothing matches (src/utils.rs:58). It never produces `SignatureNotFound`.
- `process_modules` names an undecodable module `""`, through `transform_name` (src/utils.rs:105). Only `find_process` uses the `"<Module Name>"` placeholder (src/lib.rs:65).
