/** Translation through the unit: no two processes, and no two addresses of one process,
    ever share a physical address. */
module Isolation {
  import opened Core
  import opened Addresses
  import opened MemoryModel
  import opened MmuModel
  import opened MmuInvariant
  import opened MmuRuns
  import opened ReachedUnits

  /** Where a virtual address of process `q` currently is in physical memory. */
  function TranslateVirtual(m: Mmu, q: ProcessId, address: U64): Option<nat> {
    var d := Decompose(address, m.pageSize);
    match Resolve(m, q, d.virtualPage)
    case None => None
    case Some(p) =>
      match Lookup(m.memory, p)
      case None => None
      case Some(f) => Some(Translate(f, d.offset, m.pageSize))
  }

  /** Translation keeps the page offset and stays inside physical memory. */
  lemma TranslationInBounds(m: Mmu, q: ProcessId, address: U64)
    requires Consistent(m) && |m.memory.frames| * m.pageSize <= TWO_TO_THE_64
    requires TranslateVirtual(m, q, address).Some?
    ensures var a := TranslateVirtual(m, q, address).value;
      a < |m.memory.frames| * m.pageSize && a % m.pageSize == address % m.pageSize
  {
    var d := Decompose(address, m.pageSize);
    var f := m.memory.table[Resolve(m, q, d.virtualPage).value];
    AddressableTranslate(|m.memory.frames|, m.pageSize, f, d.offset);
  }

  /** Distinct (process, address) pairs on resident pages have distinct physical addresses. */
  lemma NoAliasing(m: Mmu, q: ProcessId, address: U64, q': ProcessId, address': U64)
    requires Consistent(m) && |m.memory.frames| * m.pageSize <= TWO_TO_THE_64
    requires TranslateVirtual(m, q, address).Some?
    requires TranslateVirtual(m, q, address) == TranslateVirtual(m, q', address')
    ensures q == q' && address == address'
  {
    var size := m.pageSize;
    var d, d' := Decompose(address, size), Decompose(address', size);
    var v, v' := VirtualPage(q, d.virtualPage), VirtualPage(q', d'.virtualPage);
    var p, p' := m.virtualPages[v], m.virtualPages[v'];
    var f, f' := m.memory.table[p], m.memory.table[p'];
    AddressableTranslate(|m.memory.frames|, size, f, d.offset);
    AddressableTranslate(|m.memory.frames|, size, f', d'.offset);
    QuotientUnique(f, d.offset, f', d'.offset, size);
    assert m.memory.frames[f] == Some(p) && m.memory.frames[f'] == Some(p');
    assert v == v';
    DecomposeUnique(address, size, d.virtualPage, d.offset);
    DecomposeUnique(address', size, d'.virtualPage, d'.offset);
  }

  /** The address an access reports is the translation in force once it has completed. */
  lemma AccessReportsTranslation(m: Mmu, a: MemoryAccess)
    requires Consistent(m) && Access(m, a).1.success
    ensures TranslateVirtual(Access(m, a).0, a.process, a.address) == Access(m, a).1.physicalAddress
  {
    hide Access, Inverse, PagesAgree;
    AccessSucceedsIff(m, a);
    var p := Target(m, a).value;
    if p in m.memory.table {
      AccessHits(m, a, p);
    } else if !Full(m) {
      var f := AccessLoads(m, a, p);
    } else {
      var v, f := AccessReplaces(m, a, p);
    }
  }

  // ------------------------------------------------------------- when isolation holds

  ghost predicate Isolates(m: Mmu) {
    forall q: ProcessId, address: U64, q': ProcessId, address': U64 ::
      SharesAddress(m, q, address, q', address') ==> q == q' && address == address'
  }

  ghost predicate SharesAddress(m: Mmu, q: ProcessId, address: U64, q': ProcessId, address': U64) {
    && TranslateVirtual(m, q, address).Some?
    && TranslateVirtual(m, q, address) == TranslateVirtual(m, q', address')
  }

  /** Isolation holds in every state a unit with `k` frames can reach exactly when the whole
      of physical memory is addressable with 64 bits. */
  lemma IsolationIffAddressable(k: nat, size: PageSize)
    ensures (forall m :: Reached(m, k, size) ==> Isolates(m)) <==> k * size <= TWO_TO_THE_64
  {
    hide Reached;
    if k * size <= TWO_TO_THE_64 {
      forall m | Reached(m, k, size)
        ensures Isolates(m)
      {
        ReachedAgrees(m, k, size);
        forall q: ProcessId, address: U64, q': ProcessId, address': U64 | SharesAddress(m, q, address, q', address')
          ensures q == q' && address == address'
        {
          NoAliasing(m, q, address, q', address');
        }
      }
    } else {
      var m, q, address := SharedAddress(k, size);
    }
  }

  /** A larger memory, filled frame by frame: the process in the frame that contains address
      2^64 reads process 0's first byte through it. */
  lemma SharedAddress(k: nat, size: PageSize) returns (m: Mmu, q: ProcessId, address: U64)
    requires k * size > TWO_TO_THE_64
    ensures Reached(m, k, size) && SharesAddress(m, 0, 0, q, address) && q != 0
  {
    hide Reached, Cycle, Cycled, Translate, TranslateVirtual;
    var f, o := FrameAtTheEnd(k, size);
    m, q, address := Cycle(k, size, f + 1, f + 1), f, o;
    CycleReached(k, size, f + 1, f + 1);
    Located(m, k, size, f + 1, 0, 0);
    Located(m, k, size, f + 1, f, o);
    WrapsToZero(f, o, size);
  }

  lemma WrapsToZero(f: FrameId, o: nat, size: PageSize)
    requires f * size + o == TWO_TO_THE_64
    ensures Translate(f, o, size) == Translate(0, 0, size)
  {
  }

  lemma Located(m: Mmu, k: nat, size: PageSize, n: nat, q: ProcessId, o: U64)
    requires Cycled(m, k, size, n, n) && q < n <= k && o < size
    ensures TranslateVirtual(m, q, o) == Some(Translate(q, o, size))
  {
    hide CycledQueue;
    DecomposeUnique(o, size, 0, o);
    assert Target(m, Touching(q, o)) == Some(q);
    assert m.memory.frames[q] == CycledContent(k, n, q);
    assert Lookup(m.memory, q) == Some(q);
  }
}
