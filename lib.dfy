/** The crate's entry points in `lib.rs`: looking a process up by name and
    following a pointer chain through another process's memory. The Win32
    calls become inputs: a snapshot of the process table (with, for every
    slot, what opening the process, naming its main module and enumerating
    its modules would yield) and a memory of pointer-sized words. */
module GameHack {
  import opened Machine
  import opened Utf8
  import opened StdText
  import opened Errors
  import opened Types
  import opened Utils

  // ---------------------------------------------------------------------
  // Process lookup
  // ---------------------------------------------------------------------

  /** The length of `[0u32; 1024]`, the pid array handed to `EnumProcesses`. */
  const PROCESS_SLOTS: nat := 1024

  /** `size_of::<u32>()`. */
  const PID_SIZE: nat := 4

  /** One entry of the pid array together with what the calls made for it
      yield: `get_process_handle(pid).ok()`, the 256-byte buffer filled by
      `GetModuleBaseNameA` for the main module, and the module enumeration
      `process_modules` would see through that handle. */
  datatype ProcessSlot = ProcessSlot(pid: u32, open: Option<Handle>, nameBuffer: seq<u8>, modules: ModuleEnumeration)

  /** `EnumProcesses`' outputs: `cb_needed` and the pid array. */
  datatype ProcessTable = ProcessTable(cbNeeded: u32, slots: seq<ProcessSlot>)

  /** `pid_list.iter().take(cb_needed as usize / size_of::<u32>())`. */
  function ProcessCount(table: ProcessTable): (n: nat)
    ensures n <= |table.slots|
  {
    Min(table.cbNeeded / PID_SIZE, |table.slots|)
  }

  /** As many slots are considered as `cb_needed` reports pids, capped by
      the size of the pid array. */
  lemma ProcessCountMeaning(table: ProcessTable)
    ensures table.cbNeeded / PID_SIZE <= |table.slots| ==> ProcessCount(table) == table.cbNeeded / PID_SIZE
    ensures table.cbNeeded / PID_SIZE > |table.slots| ==> ProcessCount(table) == |table.slots|
    ensures |table.slots| == PROCESS_SLOTS ==> ProcessCount(table) == Min(table.cbNeeded / PID_SIZE, PROCESS_SLOTS)
  {
  }

  /** The slots `find_process` looks at. */
  function Considered(table: ProcessTable): seq<ProcessSlot> {
    table.slots[..ProcessCount(table)]
  }

  /** `"<Module Name>"`, the text compared when a name does not decode. */
  const SENTINEL: seq<u8> := [0x3C, 0x4D, 0x6F, 0x64, 0x75, 0x6C, 0x65, 0x20, 0x4E, 0x61, 0x6D, 0x65, 0x3E]

  /** `module_name.to_string_lowercase().unwrap_or("<Module Name>".to_string())`. */
  function DecodedName(nameBuffer: seq<u8>): seq<u8> {
    match ToStringLowercase(nameBuffer)
    case Ok(s) => s
    case Err(_) => SENTINEL
  }

  /** A slot that survives both filters and whose decoded name equals the
      lowercased target. */
  predicate Matches(slot: ProcessSlot, target: seq<u8>) {
    slot.pid != 0 && slot.open.Some? && DecodedName(slot.nameBuffer) == AsciiLowercase(target)
  }

  /** The matching slots, in table order. */
  function MatchingSlots(slots: seq<ProcessSlot>, target: seq<u8>): seq<ProcessSlot> {
    if slots == [] then []
    else
      var init := MatchingSlots(slots[..|slots| - 1], target);
      if Matches(slots[|slots| - 1], target) then init + [slots[|slots| - 1]] else init
  }

  /** A slot is among the matching ones exactly when it is in the table and
      matches; all of them have a non-zero pid. */
  lemma {:induction false} MatchingSlotsMeaning(slots: seq<ProcessSlot>, target: seq<u8>)
    ensures |MatchingSlots(slots, target)| <= |slots|
    ensures forall s :: s in MatchingSlots(slots, target) <==> s in slots && Matches(s, target)
    ensures forall k :: 0 <= k < |MatchingSlots(slots, target)| ==> MatchingSlots(slots, target)[k].pid != 0
  {
    if slots != [] {
      var init := slots[..|slots| - 1];
      MatchingSlotsMeaning(init, target);
      assert slots == init + [slots[|slots| - 1]];
    }
  }

  /** One more slot of the table: it joins the matches exactly when it matches. */
  lemma MatchingSlotsSnoc(slots: seq<ProcessSlot>, i: nat, target: seq<u8>)
    requires i < |slots|
    ensures MatchingSlots(slots[..i + 1], target) ==
      if Matches(slots[i], target) then MatchingSlots(slots[..i], target) + [slots[i]] else MatchingSlots(slots[..i], target)
  {
    assert slots[..i + 1][..i] == slots[..i];
  }

  /** Everything the `process_modules` calls for the matches append, in order. */
  function MatchedModules(matched: seq<ProcessSlot>): seq<ModuleData> {
    if matched == [] then []
    else MatchedModules(matched[..|matched| - 1]) + EnumeratedModules(matched[|matched| - 1].modules)
  }

  lemma MatchedModulesSnoc(matched: seq<ProcessSlot>, s: ProcessSlot)
    ensures MatchedModules(matched + [s]) == MatchedModules(matched) + EnumeratedModules(s.modules)
  {
    assert (matched + [s])[..|matched|] == matched;
  }

  /** Every match contributes its whole enumeration, so the collected list
      is as long as all of them together. */
  lemma {:induction false} MatchedModulesLength(matched: seq<ProcessSlot>)
    ensures |MatchedModules(matched)| == ModuleTotal(matched)
  {
    if matched != [] {
      MatchedModulesLength(matched[..|matched| - 1]);
      EnumeratedModulesMeaning(matched[|matched| - 1].modules);
    }
  }

  /** The sum of the module counts of `matched`. */
  function ModuleTotal(matched: seq<ProcessSlot>): nat {
    if matched == [] then 0
    else ModuleTotal(matched[..|matched| - 1]) + ModuleCount(matched[|matched| - 1].modules)
  }

  /** The body of `find_process`'s loop for one slot: a match overwrites
      `handle` and `id` and appends the process's modules; any other slot
      leaves the record alone. */
  method VisitSlot(slot: ProcessSlot, target: seq<u8>, wanted: seq<u8>, processData: ProcessData)
    requires wanted == AsciiLowercase(target)
    modifies processData
    ensures Matches(slot, target) ==>
      && processData.id == slot.pid
      && slot.open == Some(processData.handle)
      && processData.moduleList == old(processData.moduleList) + EnumeratedModules(slot.modules)
    ensures !Matches(slot, target) ==>
      && processData.id == old(processData.id)
      && processData.handle == old(processData.handle)
      && processData.moduleList == old(processData.moduleList)
  {
    if slot.pid != 0 && slot.open.Some? && DecodedName(slot.nameBuffer) == wanted {
      processData.handle := slot.open.value;
      processData.id := slot.pid;
      ProcessModules(slot.modules, processData);
    }
  }

  /** `find_process`'s loop over the considered slots, starting from the
      default record: afterwards the record holds the last match's handle
      and pid (or is still at id 0) and every match's modules. */
  method CollectMatches(slots: seq<ProcessSlot>, target: seq<u8>, processData: ProcessData)
    requires processData.id == 0 && processData.moduleList == []
    modifies processData
    ensures var matched := MatchingSlots(slots, target);
      && processData.moduleList == MatchedModules(matched)
      && (matched == [] ==> processData.id == 0)
      && (matched != [] ==>
            processData.id == matched[|matched| - 1].pid && matched[|matched| - 1].open == Some(processData.handle))
  {
    var wanted := AsciiLowercase(target);
    ghost var matched: seq<ProcessSlot> := [];
    for i := 0 to |slots|
      invariant matched == MatchingSlots(slots[..i], target)
      invariant processData.moduleList == MatchedModules(matched)
      invariant matched == [] ==> processData.id == 0
      invariant matched != [] ==>
        processData.id == matched[|matched| - 1].pid && matched[|matched| - 1].open == Some(processData.handle)
    {
      MatchingSlotsSnoc(slots, i, target);
      VisitSlot(slots[i], target, wanted, processData);
      if Matches(slots[i], target) {
        MatchedModulesSnoc(matched, slots[i]);
        matched := matched + [slots[i]];
      }
    }
    assert slots[..|slots|] == slots;
  }

  /** `find_process`: walk every considered slot, and for each nonzero,
      openable pid whose main module's decoded name equals the lowercased
      target, overwrite `handle` and `id` and append its modules. The
      lookup fails with `ProcessNotFound` when `id` is still 0. */
  method FindProcess(table: ProcessTable, target: seq<u8>) returns (r: Result<ProcessData, Error>)
    ensures var matched := MatchingSlots(Considered(table), target);
      && (matched == [] ==> r == Err(ProcessNotFound))
      && (matched != [] ==>
            && r.Ok? && fresh(r.value)
            && r.value.id != 0
            && r.value.id == matched[|matched| - 1].pid
            && matched[|matched| - 1].open == Some(r.value.handle)
            && r.value.moduleList == MatchedModules(matched))
  {
    var processData := new ProcessData();
    CollectMatches(table.slots[..ProcessCount(table)], target, processData);
    MatchingSlotsMeaning(Considered(table), target);
    if processData.id == 0 {
      r := Err(ProcessNotFound);
    } else {
      r := Ok(processData);
    }
  }

  /** The lookup fails exactly when no considered slot matches. */
  lemma NotFoundIffNoMatch(slots: seq<ProcessSlot>, target: seq<u8>)
    ensures MatchingSlots(slots, target) == [] <==> forall k :: 0 <= k < |slots| ==> !Matches(slots[k], target)
  {
    MatchingSlotsMeaning(slots, target);
    if MatchingSlots(slots, target) != [] {
      assert MatchingSlots(slots, target)[0] in MatchingSlots(slots, target);
    } else {
      forall k | 0 <= k < |slots|
        ensures !Matches(slots[k], target)
      {
        assert slots[k] in slots;
      }
    }
  }

  /** The record kept is the one of the last matching slot: when slot `k`
      matches and no slot after it does, the last match is slot `k`. */
  lemma {:induction false} LastMatchWins(slots: seq<ProcessSlot>, target: seq<u8>, k: nat)
    requires k < |slots| && Matches(slots[k], target)
    requires forall j :: k < j < |slots| ==> !Matches(slots[j], target)
    ensures var m := MatchingSlots(slots, target);
      m != [] && m[|m| - 1] == slots[k]
  {
    var last := |slots| - 1;
    if k < last {
      var init := slots[..last];
      assert init[k] == slots[k];
      assert !Matches(slots[last], target);
      LastMatchWins(init, target, k);
    }
  }

  /** `"<Module Name>"` holds capitals, so no lowercased target equals it. */
  lemma SentinelNeverMatches(target: seq<u8>)
    ensures AsciiLowercase(target) != SENTINEL
  {
    if |target| == |SENTINEL| {
      assert IsAsciiUpper(SENTINEL[1]);
    }
  }

  /** A main-module name that does not decode never matches. */
  lemma UndecodableNeverMatches(slot: ProcessSlot, target: seq<u8>)
    requires ToStringLowercase(slot.nameBuffer).Err?
    ensures !Matches(slot, target)
  {
    SentinelNeverMatches(target);
  }

  /** Matching looks at the target only through its lowercase form, so it
      is ASCII case-insensitive. */
  lemma {:induction false} FindIsCaseInsensitive(slots: seq<ProcessSlot>, t1: seq<u8>, t2: seq<u8>)
    requires AsciiLowercase(t1) == AsciiLowercase(t2)
    ensures MatchingSlots(slots, t1) == MatchingSlots(slots, t2)
  {
    if slots != [] {
      FindIsCaseInsensitive(slots[..|slots| - 1], t1, t2);
    }
  }

  /** With an empty target, an admitted slot matches exactly when its name
      buffer starts with a NUL (its name decodes to the empty string). */
  lemma EmptyTargetMatches(slot: ProcessSlot)
    requires slot.pid != 0 && slot.open.Some?
    ensures Matches(slot, []) <==> |slot.nameBuffer| > 0 && slot.nameBuffer[0] == 0
  {
    var b := slot.nameBuffer;
    FromBytesUntilNulMeaning(b);
    ToStringLowercaseMeaning(b);
    if |b| > 0 && b[0] == 0 {
      assert NulFree(b[..0]);
      AsciiIsValid([]);
    }
  }

  /** An empty process name is reported as not found exactly when no
      admitted considered slot has a name buffer starting with NUL. */
  lemma EmptyNameNotFound(slots: seq<ProcessSlot>)
    ensures MatchingSlots(slots, []) == [] <==>
      forall k :: 0 <= k < |slots| && slots[k].pid != 0 && slots[k].open.Some? ==>
        !(|slots[k].nameBuffer| > 0 && slots[k].nameBuffer[0] == 0)
  {
    NotFoundIffNoMatch(slots, []);
    forall k | 0 <= k < |slots| && slots[k].pid != 0 && slots[k].open.Some?
      ensures Matches(slots[k], []) <==> |slots[k].nameBuffer| > 0 && slots[k].nameBuffer[0] == 0
    {
      EmptyTargetMatches(slots[k]);
    }
  }

  /** The strict decoder used for matching agrees with `transform_name`
      on every buffer it accepts. */
  lemma DecodedNameAgreesWithTransformName(nameBuffer: seq<u8>)
    ensures ToStringLowercase(nameBuffer).Ok? ==> DecodedName(nameBuffer) == TransformName(nameBuffer)
    ensures ToStringLowercase(nameBuffer).Err? ==> DecodedName(nameBuffer) == SENTINEL && TransformName(nameBuffer) == []
  {
    TransformNameAgreesWithToStringLowercase(nameBuffer);
  }

  // ---------------------------------------------------------------------
  // Pointer-chain resolution
  // ---------------------------------------------------------------------

  /** The target's memory as pointer-sized words: the addresses at which
      an 8-byte `ReadProcessMemory` succeeds, and the word it reads. */
  type WordMemory = map<u64, u64>

  /** One `ReadProcessMemory` into `next_addr`: the word at `address`, or
      the old contents of `next_addr` when the read fails. */
  function ReadWord(mem: WordMemory, address: u64, current: u64): u64 {
    if address in mem then mem[address] else current
  }

  /** One offset of the chain: read at `next_addr + offset`, wrapping. */
  function Follow(mem: WordMemory, current: u64, offset: u32): u64 {
    ReadWord(mem, WrappingAdd(current, offset), current)
  }

  /** `for &offset in offsets { .. }`, a left fold of `Follow`. */
  function Chase(mem: WordMemory, current: u64, offsets: seq<u32>): u64
    decreases |offsets|
  {
    if offsets == [] then current else Chase(mem, Follow(mem, current, offsets[0]), offsets[1..])
  }

  /** The word `read` stores: `next_addr` starts at 0, is read from `addr`,
      then follows every offset. */
  function ResolveChain(mem: WordMemory, addr: u64, offsets: seq<u32>): u64 {
    Chase(mem, ReadWord(mem, addr, 0), offsets)
  }

  /** The same walk, taken from the last offset backwards. */
  function ChaseBack(mem: WordMemory, current: u64, offsets: seq<u32>): u64
    decreases |offsets|
  {
    if offsets == [] then current
    else Follow(mem, ChaseBack(mem, current, offsets[..|offsets| - 1]), offsets[|offsets| - 1])
  }

  /** Following `xs + ys` is following `xs`, then `ys`. */
  lemma {:induction false} ChaseAppend(mem: WordMemory, current: u64, xs: seq<u32>, ys: seq<u32>)
    ensures Chase(mem, current, xs + ys) == Chase(mem, Chase(mem, current, xs), ys)
    decreases |xs|
  {
    if xs != [] {
      assert (xs + ys)[0] == xs[0] && (xs + ys)[1..] == xs[1..] + ys;
      ChaseAppend(mem, Follow(mem, current, xs[0]), xs[1..], ys);
    } else {
      assert xs + ys == ys;
    }
  }

  /** The loop's left fold agrees with the step-by-step definition that
      applies the last offset last. */
  lemma {:induction false} ChaseIsChaseBack(mem: WordMemory, current: u64, offsets: seq<u32>)
    ensures Chase(mem, current, offsets) == ChaseBack(mem, current, offsets)
    decreases |offsets|
  {
    if offsets != [] {
      var init := offsets[..|offsets| - 1];
      var last := offsets[|offsets| - 1];
      ChaseIsChaseBack(mem, current, init);
      ChaseAppend(mem, current, init, [last]);
      assert offsets == init + [last];
    }
  }

  /** Without offsets, `read` stores the word at `addr`, or 0 when that
      read fails. */
  lemma ResolveNoOffsets(mem: WordMemory, addr: u64)
    ensures ResolveChain(mem, addr, []) == if addr in mem then mem[addr] else 0
  {
  }

  /** A step whose read fails keeps the working value, so the rest of the
      chain starts again from it. */
  lemma FailedStepKeepsValue(mem: WordMemory, current: u64, offset: u32, rest: seq<u32>)
    requires WrappingAdd(current, offset) !in mem
    ensures Chase(mem, current, [offset] + rest) == Chase(mem, current, rest)
  {
    assert ([offset] + rest)[1..] == rest;
  }

  /** When no read succeeds, `read` stores 0 whatever the offsets: the
      read at `addr` fails, leaving 0, and every later address is then
      `0 + offset`, which is unreadable too. */
  lemma UnreadableResolvesToZero(mem: WordMemory, addr: u64, offsets: seq<u32>)
    requires addr !in mem
    requires forall k :: 0 <= k < |offsets| ==> offsets[k] !in mem
    ensures ResolveChain(mem, addr, offsets) == 0
  {
    ChaseOfUnreadable(mem, offsets);
  }

  lemma {:induction false} ChaseOfUnreadable(mem: WordMemory, offsets: seq<u32>)
    requires forall k :: 0 <= k < |offsets| ==> offsets[k] !in mem
    ensures Chase(mem, 0, offsets) == 0
    decreases |offsets|
  {
    if offsets != [] {
      assert offsets[0] !in mem;
      assert forall k :: 0 <= k < |offsets[1..]| ==> offsets[1..][k] == offsets[k + 1];
      ChaseOfUnreadable(mem, offsets[1..]);
    }
  }

  /** A cell of the caller's memory that `read` writes its result into. */
  class WordCell {
    var value: u64

    constructor ()
      ensures value == 0
    {
      value := 0;
    }
  }

  /** `read`: the initial read at `addr` into a zeroed `next_addr`, one read
      per offset at `next_addr + offset`, and the final store into `buffer`. */
  method Read(mem: WordMemory, addr: u64, offsets: seq<u32>, buffer: WordCell)
    modifies buffer
    ensures buffer.value == ResolveChain(mem, addr, offsets)
  {
    var next := ReadWord(mem, addr, 0);
    for i := 0 to |offsets|
      invariant Chase(mem, next, offsets[i..]) == ResolveChain(mem, addr, offsets)
    {
      assert offsets[i..] == [offsets[i]] + offsets[i + 1..];
      next := ReadWord(mem, WrappingAdd(next, offsets[i]), next);
    }
    buffer.value := next;
  }
}
