/** Generic addresses (isa/MemCommon.cpp) under the layout of isa/inc/ExecContext.h: below the global
    heap lie one shared window per multiprocessor and, below those, one local window per thread. */
module AddressWindows {
  import opened Words

  const ADDRESSES: nat := 0x1_0000_0000_0000_0000

  type Addr = x: nat | x < ADDRESSES

  const GLOBAL_HEAP_START: nat := 0xC000_0000
  const SHARED_MEM_SIZE_MAX: nat := 96 * 1024
  const LOCAL_MEM_SIZE_MAX: nat := 0x4000
  const MAX_STREAMING_MULTIPROCESSORS: nat := 80
  const MAX_THREAD_PER_SM: nat := 2048
  const TOTAL_LOCAL_MEM_PER_SM: nat := MAX_THREAD_PER_SM * LOCAL_MEM_SIZE_MAX
  const TOTAL_SHARED_MEM: nat := MAX_STREAMING_MULTIPROCESSORS * SHARED_MEM_SIZE_MAX
  const TOTAL_LOCAL_MEM: nat := MAX_STREAMING_MULTIPROCESSORS * TOTAL_LOCAL_MEM_PER_SM
  const SHARED_GENERIC_START: nat := GLOBAL_HEAP_START - TOTAL_SHARED_MEM
  const LOCAL_GENERIC_START: nat := SHARED_GENERIC_START - TOTAL_LOCAL_MEM
  const STATIC_ALLOC_LIMIT: nat := GLOBAL_HEAP_START - (TOTAL_LOCAL_MEM + TOTAL_SHARED_MEM)

  /** A conversion, or the failure of its assertion. */
  datatype Converted = Address(addr: Addr) | AssertionFailed

  datatype Space = Global | Shared | Local

  function Wrap64(x: int): Addr {
    x % ADDRESSES
  }

  /** 32-bit unsigned successor, as in `smid + 1`. */
  function Next(x: Word): Word {
    Wrap(x + 1)
  }

  function SharedToGeneric(smid: Word, addr: Addr): Converted {
    if addr < SHARED_MEM_SIZE_MAX
    then Address(Wrap64(SHARED_GENERIC_START + smid * SHARED_MEM_SIZE_MAX + addr)) else AssertionFailed
  }

  predicate IsSpaceShared(smid: Word, addr: Addr) {
    Wrap64(SHARED_GENERIC_START + smid * SHARED_MEM_SIZE_MAX) <= addr
    < Wrap64(SHARED_GENERIC_START + Next(smid) * SHARED_MEM_SIZE_MAX)
  }

  function GenericToShared(smid: Word, addr: Addr): Converted {
    if IsSpaceShared(smid, addr)
    then Address(Wrap64(addr - (SHARED_GENERIC_START + smid * SHARED_MEM_SIZE_MAX))) else AssertionFailed
  }

  function LocalBase(smid: Word, hwtid: Word): nat {
    LOCAL_GENERIC_START + TOTAL_LOCAL_MEM_PER_SM * smid + LOCAL_MEM_SIZE_MAX * hwtid
  }

  function LocalToGeneric(smid: Word, hwtid: Word, addr: Addr): Converted {
    if addr < LOCAL_MEM_SIZE_MAX then Address(Wrap64(LocalBase(smid, hwtid) + addr)) else AssertionFailed
  }

  predicate IsSpaceLocal(smid: Word, hwtid: Word, addr: Addr) {
    Wrap64(LocalBase(smid, hwtid)) <= addr < Wrap64(LocalBase(smid, Next(hwtid)))
  }

  function GenericToLocal(smid: Word, hwtid: Word, addr: Addr): Converted {
    if IsSpaceLocal(smid, hwtid, addr) then Address(Wrap64(addr - LocalBase(smid, hwtid))) else AssertionFailed
  }

  predicate IsSpaceGlobal(addr: Addr) {
    addr >= GLOBAL_HEAP_START || addr < STATIC_ALLOC_LIMIT
  }

  function WhichSpace(addr: Addr): Space {
    if addr >= GLOBAL_HEAP_START || addr < STATIC_ALLOC_LIMIT then Global
    else if addr >= SHARED_GENERIC_START then Shared
    else Local
  }

  /** The boundaries and strides of the layout in numbers. */
  lemma Boundaries(addr: Addr)
    ensures WhichSpace(addr).Shared? <==> 0xBF88_0000 <= addr < 0xC000_0000
    ensures WhichSpace(addr).Local? <==> 0x1F88_0000 <= addr < 0xBF88_0000
    ensures SharedToGeneric(0, 0) == Address(0xBF88_0000) && SharedToGeneric(1, 0) == Address(0xBF89_8000)
    ensures LocalToGeneric(0, 1, 0) == Address(0x1F88_4000) && LocalToGeneric(1, 0, 0) == Address(0x2188_0000)
  {
  }

  /** A conversion is defined exactly for addresses in range; otherwise its assertion fails. */
  lemma ConversionFailsIff(smid: Word, hwtid: Word, addr: Addr)
    ensures SharedToGeneric(smid, addr).AssertionFailed? <==> addr >= 0x1_8000
    ensures LocalToGeneric(smid, hwtid, addr).AssertionFailed? <==> addr >= 0x4000
    ensures GenericToShared(smid, addr).AssertionFailed? <==> !IsSpaceShared(smid, addr)
    ensures GenericToLocal(smid, hwtid, addr).AssertionFailed? <==> !IsSpaceLocal(smid, hwtid, addr)
  {
  }

  /** No 64-bit wrap-around happens, so a window is the interval it looks like, unless the id's
      successor wraps. */
  lemma SharedWindow(smid: Word, addr: Addr)
    ensures IsSpaceShared(smid, addr)
            <==> smid != WORD - 1 && 0 <= addr - SHARED_GENERIC_START - smid * SHARED_MEM_SIZE_MAX < SHARED_MEM_SIZE_MAX
  {
  }

  lemma LocalWindow(smid: Word, hwtid: Word, addr: Addr)
    ensures LocalBase(smid, hwtid) + LOCAL_MEM_SIZE_MAX < ADDRESSES
    ensures IsSpaceLocal(smid, hwtid, addr)
            <==> hwtid != WORD - 1 && 0 <= addr - LocalBase(smid, hwtid) < LOCAL_MEM_SIZE_MAX
  {
  }

  /** Shared addresses convert to generic ones and back, except for the one multiprocessor number
      whose successor wraps: its window is empty. */
  lemma SharedRoundTripIff(smid: Word, addr: Addr)
    requires addr < SHARED_MEM_SIZE_MAX
    ensures smid != WORD - 1 <==> GenericToShared(smid, SharedToGeneric(smid, addr).addr) == Address(addr)
  {
  }

  lemma GenericSharedRoundTrip(smid: Word, addr: Addr)
    requires IsSpaceShared(smid, addr)
    ensures GenericToShared(smid, addr).Address?
    ensures SharedToGeneric(smid, GenericToShared(smid, addr).addr) == Address(addr)
  {
    hide IsSpaceShared;
    SharedWindow(smid, addr);
  }

  lemma LocalRoundTripIff(smid: Word, hwtid: Word, addr: Addr)
    requires addr < LOCAL_MEM_SIZE_MAX
    ensures hwtid != WORD - 1 <==> GenericToLocal(smid, hwtid, LocalToGeneric(smid, hwtid, addr).addr) == Address(addr)
  {
  }

  lemma GenericLocalRoundTrip(smid: Word, hwtid: Word, addr: Addr)
    requires IsSpaceLocal(smid, hwtid, addr)
    ensures GenericToLocal(smid, hwtid, addr).Address?
    ensures LocalToGeneric(smid, hwtid, GenericToLocal(smid, hwtid, addr).addr) == Address(addr)
  {
    hide IsSpaceLocal;
    LocalWindow(smid, hwtid, addr);
  }

  /** Which windows an address lies in: `smid` and `hwtid` range over what the device has. */
  predicate Sm(smid: Word) {
    smid < MAX_STREAMING_MULTIPROCESSORS
  }

  predicate Thread(smid: Word, hwtid: Word) {
    Sm(smid) && hwtid < MAX_THREAD_PER_SM
  }

  /** An address is shared exactly when it lies in the window of a multiprocessor, local exactly when
      it lies in the window of a thread, and global otherwise: the windows tile what is between the
      static limit and the heap. */
  lemma WindowsTile(addr: Addr)
    ensures WhichSpace(addr).Shared? <==> exists smid: Word :: Sm(smid) && IsSpaceShared(smid, addr)
    ensures WhichSpace(addr).Local? <==>
            exists smid: Word, hwtid: Word :: Thread(smid, hwtid) && IsSpaceLocal(smid, hwtid, addr)
    ensures WhichSpace(addr).Global? <==> IsSpaceGlobal(addr)
  {
    hide IsSpaceLocal, IsSpaceShared;
    forall smid: Word, hwtid: Word | Thread(smid, hwtid) && IsSpaceLocal(smid, hwtid, addr)
      ensures WhichSpace(addr).Local?
    {
      LocalWindow(smid, hwtid, addr);
    }
    forall smid: Word | Sm(smid) && IsSpaceShared(smid, addr) ensures WhichSpace(addr).Shared? {
      SharedWindow(smid, addr);
    }
    if SHARED_GENERIC_START <= addr < GLOBAL_HEAP_START {
      var smid := (addr - SHARED_GENERIC_START) / SHARED_MEM_SIZE_MAX;
      SharedWindow(smid, addr);
      assert Sm(smid) && IsSpaceShared(smid, addr);
    }
    if LOCAL_GENERIC_START <= addr < SHARED_GENERIC_START {
      var offset := addr - LOCAL_GENERIC_START;
      var smid, hwtid := offset / TOTAL_LOCAL_MEM_PER_SM, offset % TOTAL_LOCAL_MEM_PER_SM / LOCAL_MEM_SIZE_MAX;
      LocalWindow(smid, hwtid, addr);
      assert Thread(smid, hwtid) && IsSpaceLocal(smid, hwtid, addr);
    }
  }

  /** No address lies in two windows. */
  lemma WindowsDisjoint(addr: Addr, s: Word, s': Word, t: Word, t': Word)
    ensures IsSpaceShared(s, addr) && IsSpaceShared(s', addr) ==> s == s'
    ensures Thread(s, t) && Thread(s', t') && IsSpaceLocal(s, t, addr) && IsSpaceLocal(s', t', addr) ==>
              s == s' && t == t'
    ensures IsSpaceShared(s, addr) && Thread(s', t') ==> !IsSpaceLocal(s', t', addr)
  {
    hide IsSpaceLocal, IsSpaceShared;
    SharedWindow(s, addr);
    SharedWindow(s', addr);
    LocalWindow(s, t, addr);
    LocalWindow(s', t', addr);
  }

  /** A converted address is classified by where it came from exactly when the ids are ones the
      device has. */
  lemma SharedIsSharedIff(smid: Word, addr: Addr)
    requires addr < SHARED_MEM_SIZE_MAX
    ensures WhichSpace(SharedToGeneric(smid, addr).addr).Shared? <==> Sm(smid)
  {
  }

  lemma LocalIsLocalIff(smid: Word, hwtid: Word, addr: Addr)
    requires addr < LOCAL_MEM_SIZE_MAX
    ensures WhichSpace(LocalToGeneric(smid, hwtid, addr).addr).Local?
            <==> smid * MAX_THREAD_PER_SM + hwtid < MAX_STREAMING_MULTIPROCESSORS * MAX_THREAD_PER_SM
  {
  }
}
