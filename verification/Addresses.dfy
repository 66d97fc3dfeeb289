/** 64-bit virtual and physical addresses: decomposition, the guarded construction of a
    physical address and the unguarded one that completes an access. */
module Addresses {
  import opened Core

  const TWO_TO_THE_64: int := 0x1_0000_0000_0000_0000
  const U64_MAX: int := 0xFFFF_FFFF_FFFF_FFFF

  type U64 = x: int | 0 <= x <= 0xFFFF_FFFF_FFFF_FFFF
  type PageSize = x: int | 0 < x <= 0xFFFF_FFFF_FFFF_FFFF witness 1

  datatype Decomposed = Decomposed(virtualPage: nat, offset: nat)

  function Decompose(address: U64, size: PageSize): (d: Decomposed)
    ensures d.offset < size
  {
    Decomposed(address / size, address % size)
  }

  /** `None` is the overflow error. */
  function MakePhysicalAddress(frame: FrameId, offset: U64, size: PageSize): Option<nat> {
    if frame > (U64_MAX - offset) / size then None else Some(frame * size + offset)
  }

  /** The address arithmetic of a completed access, which wraps at 64 bits. */
  function Translate(frame: FrameId, offset: nat, size: PageSize): (a: nat)
    ensures a < TWO_TO_THE_64
  {
    (frame * size + offset) % TWO_TO_THE_64
  }

  lemma QuotientUnique(q: int, r: int, q': int, r': int, size: int)
    requires 0 <= r < size && 0 <= r' < size
    requires q * size + r == q' * size + r'
    ensures q == q' && r == r'
  {
    assert (q - q') * size == r' - r;
    if q > q' {
      ProductAtLeast(q - q', size);
    } else if q < q' {
      ProductAtLeast(q' - q, size);
    }
  }

  lemma ProductAtLeast(a: int, b: int)
    requires a >= 1 && b >= 0
    ensures a * b >= b
  {
    assert a * b - b == (a - 1) * b;
  }

  lemma ProductMonotone(a: int, b: int, c: int)
    requires a <= b && c >= 0
    ensures a * c <= b * c
  {
    assert b * c - a * c == (b - a) * c;
  }

  /** Page number and offset are the only ones that rebuild the address. */
  lemma DecomposeUnique(address: U64, size: PageSize, page: nat, offset: nat)
    requires offset < size
    ensures page * size + offset == address <==> Decompose(address, size) == Decomposed(page, offset)
  {
    var d := Decompose(address, size);
    assert d.virtualPage * size + d.offset == address;
    if page * size + offset == address {
      QuotientUnique(page, offset, d.virtualPage, d.offset, size);
    }
  }

  /** The guard throws exactly when the address is not representable. */
  lemma MakePhysicalAddressExact(frame: FrameId, offset: U64, size: PageSize)
    ensures MakePhysicalAddress(frame, offset, size)
         == if frame * size + offset <= U64_MAX then Some(frame * size + offset) else None
  {
    var room := U64_MAX - offset;
    var q := room / size;
    assert room == q * size + room % size;
    if frame <= q {
      ProductMonotone(frame, q, size);
    } else {
      ProductMonotone(q + 1, frame, size);
      assert (q + 1) * size == q * size + size;
    }
  }

  /** A guarded address is what the unguarded arithmetic computes. */
  lemma TranslateGuarded(frame: FrameId, offset: U64, size: PageSize)
    requires MakePhysicalAddress(frame, offset, size).Some?
    ensures MakePhysicalAddress(frame, offset, size) == Some(Translate(frame, offset, size))
  {
    MakePhysicalAddressExact(frame, offset, size);
  }

  /** Frames `0..k` of `size` bytes: the unguarded arithmetic keeps offset and frame, stays
      inside physical memory and never maps two locations to one address exactly when the
      whole of physical memory is addressable with 64 bits. */
  ghost predicate TranslatesInjectively(k: nat, size: PageSize) {
    forall f: nat, o: nat, f': nat, o': nat ::
      f < k && f' < k && o < size && o' < size && Translate(f, o, size) == Translate(f', o', size)
      ==> f == f' && o == o'
  }

  lemma AddressableTranslate(k: nat, size: PageSize, f: nat, o: nat)
    requires k * size <= TWO_TO_THE_64 && f < k && o < size
    ensures Translate(f, o, size) == f * size + o < k * size
    ensures Translate(f, o, size) % size == o
  {
    ProductMonotone(f + 1, k, size);
    assert (f + 1) * size == f * size + size;
    var a := f * size + o;
    assert a == (a / size) * size + a % size;
    QuotientUnique(f, o, a / size, a % size, size);
  }

  lemma InjectiveIffAddressable(k: nat, size: PageSize)
    ensures TranslatesInjectively(k, size) <==> k * size <= TWO_TO_THE_64
  {
    if k * size <= TWO_TO_THE_64 {
      forall f: nat, o: nat, f': nat, o': nat
        | f < k && f' < k && o < size && o' < size && Translate(f, o, size) == Translate(f', o', size)
        ensures f == f' && o == o'
      {
        AddressableTranslate(k, size, f, o);
        AddressableTranslate(k, size, f', o');
        QuotientUnique(f, o, f', o', size);
      }
    } else {
      WrapsAround(k, size);
    }
  }

  /** Address 2^64 exists in such a memory and collides with address 0. */
  lemma WrapsAround(k: nat, size: PageSize)
    requires k * size > TWO_TO_THE_64
    ensures !TranslatesInjectively(k, size)
  {
    var f, o := TWO_TO_THE_64 / size, TWO_TO_THE_64 % size;
    assert f * size + o == TWO_TO_THE_64;
    if f >= k {
      ProductMonotone(k, f, size);
    }
    assert Translate(f, o, size) == 0 == Translate(0, 0, size);
    assert f > 0;
  }

  /** The smallest such memory with pages of 2^63 bytes: the third frame has no address, so
      the guard refuses it, while the unguarded arithmetic sends it to the first frame. */
  lemma ThirdHugeFrameWraps()
    ensures var size: PageSize := 0x8000_0000_0000_0000;
      && MakePhysicalAddress(2, 0, size) == None
      && Translate(2, 0, size) == Translate(0, 0, size)
  {
  }
}
