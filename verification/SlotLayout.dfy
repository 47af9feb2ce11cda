/** Which slot of device memory a core writes to (plugin/utils.h): vec, vec, cube, vec, vec, cube, ... */
module SlotLayout {
  import opened Arithmetic

  const MIX_SUB_BLOCKDIM: nat := 3

  datatype Core = Vec(block: nat) | Cube(block: nat)

  datatype Arch = C220 | C310

  /** Physical core ids of vector cores, per chip architecture. */
  predicate IsVecCore(arch: Arch, coreId: int) {
    match arch
    case C220 => 25 <= coreId <= 74 || coreId >= 32793
    case C310 => 18 <= coreId <= 51 || coreId >= 72
  }

  function CoreAt(arch: Arch, coreId: int, block: nat): Core {
    if IsVecCore(arch, coreId) then Vec(block) else Cube(block)
  }

  function Slot(core: Core): nat {
    match core
    case Vec(b) => b + b / (MIX_SUB_BLOCKDIM - 1)
    case Cube(c) => c + (c + 1) * (MIX_SUB_BLOCKDIM - 1)
  }

  /** The core that owns a slot: a group of three slots is one mixed block. */
  function Owner(slot: nat): Core {
    var group, place := slot / MIX_SUB_BLOCKDIM, slot % MIX_SUB_BLOCKDIM;
    if place == 2 then Cube(group) else Vec(2 * group + place)
  }

  method TryGetBlockIdx(arch: Arch, coreId: int, block: nat, maxBlock: nat) returns (ok: bool, blockIdx: nat)
    ensures blockIdx == Slot(CoreAt(arch, coreId, block)) && ok == (blockIdx < maxBlock)
    ensures Owner(blockIdx) == CoreAt(arch, coreId, block)
    ensures arch.C220? ==>
              blockIdx == if 25 <= coreId <= 74 || 32793 <= coreId then block + block / 2 else 3 * block + 2
    ensures arch.C310? ==>
              blockIdx == if 18 <= coreId <= 51 || 72 <= coreId then block + block / 2 else 3 * block + 2
  {
    if arch.C220? {
      if (coreId >= 25 && coreId <= 74) || coreId >= 32793 {
        blockIdx := block + block / (MIX_SUB_BLOCKDIM - 1);
      } else {
        blockIdx := block + (block + 1) * (MIX_SUB_BLOCKDIM - 1);
      }
    } else {
      if (coreId >= 18 && coreId <= 51) || coreId >= 72 {
        blockIdx := block + block / (MIX_SUB_BLOCKDIM - 1);
      } else {
        blockIdx := block + (block + 1) * (MIX_SUB_BLOCKDIM - 1);
      }
    }
    EverySlotOnce(CoreAt(arch, coreId, block), blockIdx);
    if blockIdx >= maxBlock {
      return false, blockIdx;
    }
    return true, blockIdx;
  }

  lemma SlotsOf(core: Core)
    ensures Slot(core) == match core case Vec(b) => b + b / 2 case Cube(c) => 3 * c + 2
    ensures Slot(core) / 3 == match core case Vec(b) => b / 2 case Cube(c) => c
    ensures Slot(core) % 3 == match core case Vec(b) => b % 2 case Cube(c) => 2
  {
    match core
    case Vec(b) =>
      DivMod(b + b / 2, 3, b / 2, b % 2);
    case Cube(c) =>
      DivMod(3 * c + 2, 3, c, 2);
  }

  /** Slots and cores correspond one to one, in both directions. */
  lemma EverySlotOnce(core: Core, slot: nat)
    ensures Owner(Slot(core)) == core && Slot(Owner(slot)) == slot
  {
    SlotsOf(core);
    SlotsOf(Owner(slot));
    var q, m := slot / 3, slot % 3;
    if m != 2 { DivMod(2 * q + m, 2, q, m); }
  }

  /** Which mixed block and which place in it, the way the warp information is read off a slot. */
  lemma QuotientAndRest(core: Core)
    ensures Slot(core) / 3 == if core.Cube? then core.block else core.block / 2
    ensures Slot(core) % 3 == if core.Cube? then 2 else core.block % 2
  {
    SlotsOf(core);
  }

  /** Different cores write to disjoint stretches of memory. */
  lemma CoresDoNotMeet(a: Core, b: Core, blockMemSize: nat, x: nat, y: nat)
    requires a != b && x < blockMemSize && y < blockMemSize
    ensures Slot(a) * blockMemSize + x != Slot(b) * blockMemSize + y
  {
    EverySlotOnce(a, 0);
    EverySlotOnce(b, 0);
    Apart(Slot(a), Slot(b), blockMemSize, x, y);
  }

  lemma Apart(m: nat, n: nat, size: nat, x: nat, y: nat)
    requires m != n && x < size && y < size
    ensures m * size + x != n * size + y
  {
    OneMore(m, size);
    OneMore(n, size);
    if m < n { ProductMonotone(m + 1, n, size); } else { ProductMonotone(n + 1, m, size); }
  }
}
