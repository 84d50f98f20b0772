/** Hardware watchpoints: the control word covers exactly the requested bytes, on all cores or on none. */
module HwBp {
  import opened Bytes

  // ----- bitwise operators on machine words -----

  function And(x: nat, y: nat): nat
    decreases x
  {
    if x == 0 then 0 else 2 * And(x / 2, y / 2) + (if x % 2 == 1 && y % 2 == 1 then 1 else 0)
  }

  function Or(x: nat, y: nat): nat
    decreases x
  {
    if x == 0 then y else 2 * Or(x / 2, y / 2) + (if x % 2 == 1 || y % 2 == 1 then 1 else 0)
  }

  function PopCount(x: nat): nat {
    if x == 0 then 0 else PopCount(x / 2) + x % 2
  }

  /** `x & ~7` */
  function Doubleword(x: nat): nat {
    x - x % 8
  }

  lemma {:induction false} OrOfFields(high: nat, low: nat, k: nat)
    requires low < Pow2(k)
    ensures Or(high * Pow2(k), low) == high * Pow2(k) + low
  {
    if k == 0 {
      assert high * Pow2(k) == high;
      OrZero(high);
    } else if high == 0 {
    } else {
      var half := Pow2(k - 1);
      assert high * Pow2(k) == 2 * (high * half);
      assert high * half > 0;
      OrOfFields(high, low / 2, k - 1);
    }
  }

  lemma {:induction false} OrZero(x: nat)
    ensures Or(x, 0) == x
  {
    if x == 0 {
    } else {
      OrZero(x / 2);
    }
  }

  lemma {:induction false} AndZero(x: nat)
    ensures And(x, 0) == 0
  {
    if x == 0 {
    } else {
      AndZero(x / 2);
    }
  }

  /** The `x & (x - 1)` test finds the powers of two, and counting the bits of x - 1 finds which. */
  lemma {:induction false} PowerOfTwo(x: nat)
    requires x > 0 && And(x, x - 1) == 0
    ensures x == Pow2(PopCount(x - 1))
  {
    if x == 1 {
      assert PopCount(0) == 0;
    } else if x % 2 == 1 {
      AndSelf(x / 2);
    } else {
      assert (x - 1) / 2 == x / 2 - 1;
      PowerOfTwo(x / 2);
    }
  }

  lemma {:induction false} AndSelf(x: nat)
    ensures And(x, x) == x
  {
    if x == 0 {
    } else {
      AndSelf(x / 2);
    }
  }

  /** `a & (2^k - 1)` is the remainder. */
  lemma {:induction false} AndOnes(a: nat, k: nat)
    ensures And(a, Pow2(k) - 1) == a % Pow2(k)
  {
    hide And, Pow2;
    PowStep(k);
    if k == 0 {
      AndZero(a);
    } else if a == 0 {
      ZeroAnd(Pow2(k) - 1);
    } else {
      var half := Pow2(k - 1);
      AndOnes(a / 2, k - 1);
      AndStep(a, half);
      HalfRemainder(a, half);
    }
  }

  lemma ZeroAnd(x: nat)
    ensures And(0, x) == 0
  {
  }

  lemma PowStep(k: nat)
    ensures Pow2(k) == if k == 0 then 1 else 2 * Pow2(k - 1)
  {
  }

  lemma AndStep(a: nat, half: nat)
    requires a > 0 && half > 0
    ensures And(a, 2 * half - 1) == 2 * And(a / 2, half - 1) + a % 2
  {
    assert (2 * half - 1) / 2 == half - 1 && (2 * half - 1) % 2 == 1;
  }

  lemma HalfRemainder(a: nat, half: nat)
    requires half > 0
    ensures a % (2 * half) == 2 * (a / 2 % half) + a % 2
  {
    var q, r := a / 2 / half, a / 2 % half;
    assert a / 2 == q * half + r;
    assert q * (2 * half) == 2 * (q * half);
    RemainderIs(a, 2 * half, q, 2 * r + a % 2);
  }

  lemma AtLeastOnce(k: int, n: nat)
    requires k >= 1
    ensures k * n >= n
  {
    assert (k - 1) * n >= 0;
  }

  lemma AtMostZero(k: int, n: nat)
    ensures k <= 0 ==> k * n <= 0
  {
  }

  lemma RemainderIs(a: nat, n: nat, q: nat, r: nat)
    requires n > 0 && r < n && a == q * n + r
    ensures a % n == r && a / n == q
  {
    var p, s := a / n, a % n;
    assert a == p * n + s;
    assert (q - p) * n == q * n - p * n && (p - q) * n == p * n - q * n;
    if p < q {
      AtLeastOnce(q - p, n);
    } else if q < p {
      AtLeastOnce(p - q, n);
    }
  }

  // ----- the control word -----

  /** debugHwBpIsValidWatchPoint; the sum may wrap. */
  predicate IsValidWatchPoint(address: nat, size: nat) {
    if size == 0 then false
    else if size <= 8 then Doubleword(address) == Doubleword((address + size - 1) % U64_LIMIT)
    else size <= 0x8000_0000 && And(size, size - 1) == 0 && And(address, size - 1) == 0
  }

  /** BAS, MASK and the address register of debugHwBpSetData; the first two are bytes. */
  function ByteSelect(address: nat, size: nat): byte {
    if size <= 8 then (Pow2(size) - 1) * Pow2(address % 8) % 256 else 0xFF
  }

  function MaskBits(size: nat): byte {
    if size <= 8 then 0 else PopCount(size - 1) % 256
  }

  function AddressRegister(address: nat, size: nat): nat {
    if size <= 8 then Doubleword(address) else address
  }

  /** LSC: 1 watches loads, 2 watches stores. */
  function Access(read: bool, write: bool): (lsc: nat)
    ensures lsc < 4
  {
    (if read then 1 else 0) + (if write then 2 else 0)
  }

  function ControlWord(mask: byte, contextSlot: nat, bas: byte, lsc: nat): nat {
    Or(Or(Or(Or(mask * 0x100_0000, contextSlot * 0x1_0000), bas * 0x20), lsc * 8), if lsc != 0 then 1 else 0)
  }

  // ----- what the hardware makes of it -----

  /** The fields of DBGWCR<n>_EL1 in the Arm Architecture Reference Manual. */
  predicate Enabled(control: nat) { control % 2 == 1 }
  function Lsc(control: nat): nat { control / 8 % 4 }
  function Bas(control: nat): nat { control / 0x20 % 256 }
  function Lbn(control: nat): nat { control / 0x1_0000 % 16 }
  function Mask(control: nat): nat { control / 0x100_0000 % 32 }

  /** The byte at `a` is watched: the address agrees above the masked bits (above the doubleword when MASK is
      zero), and its byte of the doubleword is selected. */
  predicate Watches(control: nat, value: nat, a: nat) {
    var granule := Pow2(if Mask(control) == 0 then 3 else Mask(control));
    Enabled(control) && a / granule == value / granule && TestBit(Bas(control), a % 8)
  }

  lemma Powers()
    ensures Pow2(3) == 8 && Pow2(5) == 0x20 && Pow2(8) == 0x100 && Pow2(16) == 0x1_0000 && Pow2(24) == 0x100_0000
  {
    assert Pow2(5) == 0x20;
    assert Pow2(10) == 0x400;
    assert Pow2(15) == 0x8000;
    assert Pow2(20) == 0x10_0000;
  }

  lemma ControlSum(mask: byte, contextSlot: nat, bas: byte, lsc: nat)
    requires contextSlot < 16 && lsc < 4
    ensures ControlWord(mask, contextSlot, bas, lsc)
         == mask * 0x100_0000 + contextSlot * 0x1_0000 + bas * 0x20 + lsc * 8 + if lsc != 0 then 1 else 0
  {
    hide Or, Pow2;
    Powers();
    OrOfFields(mask, contextSlot * 0x1_0000, 24);
    OrOfFields(mask * 0x100 + contextSlot, bas * 0x20, 16);
    OrOfFields((mask * 0x100 + contextSlot) * 0x800 + bas, lsc * 8, 5);
    OrOfFields(((mask * 0x100 + contextSlot) * 0x800 + bas) * 4 + lsc, if lsc != 0 then 1 else 0, 3);
  }

  lemma LowFields(middle: nat, lsc: nat, enable: nat)
    requires lsc < 4 && enable < 2
    ensures var control := middle * 0x20 + lsc * 8 + enable;
            control % 2 == enable && Lsc(control) == lsc && control / 0x20 == middle
  {
    Parts(middle * 16 + lsc * 4, enable, 2);
    Parts(middle * 4 + lsc, enable, 8);
    Parts(middle, lsc, 4);
    Parts(middle, lsc * 8 + enable, 0x20);
  }

  lemma Parts(q: nat, r: nat, d: nat)
    requires r < d
    ensures (q * d + r) / d == q && (q * d + r) % d == r
  {
    var x := q * d + r;
    var quotient := x / d;
    assert x == quotient * d + x % d;
    if quotient < q {
      NextMultiple(quotient, q, d);
    } else if q < quotient {
      NextMultiple(q, quotient, d);
    }
  }

  lemma BasField(upper: nat, bas: byte)
    ensures (upper * 0x800 + bas) % 256 == bas
  {
    Parts(upper * 8, bas, 256);
  }

  lemma HighFields(mask: byte, contextSlot: nat, low: nat)
    requires mask < 32 && contextSlot < 16 && low < 0x1_0000
    ensures var control := mask * 0x100_0000 + contextSlot * 0x1_0000 + low;
            Lbn(control) == contextSlot && Mask(control) == mask
  {
    Parts(mask * 0x100 + contextSlot, low, 0x1_0000);
    Parts(mask * 16, contextSlot, 16);
    Parts(mask, contextSlot * 0x1_0000 + low, 0x100_0000);
  }

  lemma ControlFields(mask: byte, contextSlot: nat, bas: byte, lsc: nat)
    requires mask < 32 && contextSlot < 16 && lsc < 4
    ensures var control := ControlWord(mask, contextSlot, bas, lsc);
            && Mask(control) == mask && Lbn(control) == contextSlot && Bas(control) == bas && Lsc(control) == lsc
            && (Enabled(control) <==> lsc != 0)
  {
    hide ControlWord;
    ControlSum(mask, contextSlot, bas, lsc);
    var enable := if lsc != 0 then 1 else 0;
    LowFields((mask * 0x100 + contextSlot) * 0x800 + bas, lsc, enable);
    HighFields(mask, contextSlot, bas * 0x20 + lsc * 8 + enable);
    BasField(mask * 0x100 + contextSlot, bas);
  }

  lemma {:induction false} ShiftedOnes(size: nat, offset: nat, i: nat)
    ensures TestBit((Pow2(size) - 1) * Pow2(offset), i) <==> offset <= i < offset + size
  {
    var ones := Pow2(size) - 1;
    if offset == 0 {
      assert ones * Pow2(0) == ones;
      LowBitsTest(size, i);
    } else {
      var half := ones * Pow2(offset - 1);
      assert ones * Pow2(offset) == 2 * half;
      if i > 0 {
        ShiftedOnes(size, offset - 1, i - 1);
      }
    }
  }

  lemma {:induction false} PowMonotone(a: nat, b: nat)
    requires a <= b
    ensures Pow2(a) <= Pow2(b)
  {
    if a == b {
    } else {
      PowMonotone(a, b - 1);
    }
  }

  /** A valid small watchpoint stays inside its doubleword, so no selected byte is cut off. */
  lemma InsideDoubleword(address: nat, size: nat)
    requires address < U64_LIMIT && 0 < size <= 8 && IsValidWatchPoint(address, size)
    ensures address % 8 + size <= 8
  {
    hide And;
    Wrap(address + size - 1);
  }

  /** Which requests are accepted: up to eight bytes of one doubleword, or an aligned power of two up to 2 GiB. */
  lemma AcceptedExactly(address: nat, size: nat)
    requires address < U64_LIMIT && size < U64_LIMIT
    ensures IsValidWatchPoint(address, size) <==>
      && size > 0
      && (size <= 8 ==> address % 8 + size <= 8)
      && (size > 8 ==> size <= 0x8000_0000 && (exists k: nat :: size == Pow2(k)) && address % size == 0)
  {
    hide And, PopCount, Pow2;
    if 0 < size <= 8 {
      Wrap(address + size - 1);
    } else if size > 8 {
      if And(size, size - 1) == 0 {
        PowerOfTwo(size);
        AndOnes(address, PopCount(size - 1));
      }
      if k: nat :| size == Pow2(k) {
        AndOnes(size, k);
        AndOnes(address, k);
      }
    }
  }

  lemma Wrap(x: nat)
    requires x < 2 * U64_LIMIT
    ensures x % U64_LIMIT == if x < U64_LIMIT then x else x - U64_LIMIT
  {
  }

  lemma SmallSelect(address: nat, size: nat)
    requires 0 < size <= 8 && address % 8 + size <= 8
    ensures ByteSelect(address, size) == (Pow2(size) - 1) * Pow2(address % 8)
  {
    hide Pow2;
    var offset := address % 8;
    PowSum(size, offset);
    PowMonotone(size + offset, 8);
    Powers();
    SmallProduct(Pow2(size), Pow2(offset));
  }

  lemma SmallProduct(p: nat, o: nat)
    requires p >= 1 && o >= 1 && p * o <= 256
    ensures 0 <= (p - 1) * o < 256 && (p - 1) * o % 256 == (p - 1) * o
  {
    assert (p - 1) * o == p * o - o;
  }

  lemma SmallWatch(address: nat, size: nat, a: nat)
    requires address < U64_LIMIT && 0 < size <= 8 && IsValidWatchPoint(address, size)
    ensures a / 8 == Doubleword(address) / 8 && TestBit(ByteSelect(address, size), a % 8)
            <==> address <= a < address + size
  {
    hide Pow2, TestBit, ByteSelect, IsValidWatchPoint, Doubleword;
    InsideDoubleword(address, size);
    SmallSelect(address, size);
    ShiftedOnes(size, address % 8, a % 8);
    SameDoubleword(address, size, a);
  }

  lemma SameDoubleword(address: nat, size: nat, a: nat)
    requires address % 8 + size <= 8
    ensures a / 8 == Doubleword(address) / 8 && address % 8 <= a % 8 < address % 8 + size
            <==> address <= a < address + size
  {
  }

  lemma LargeWatch(address: nat, size: nat, a: nat)
    requires size > 8 && IsValidWatchPoint(address, size)
    ensures 3 < MaskBits(size) == PopCount(size - 1) < 32 && Pow2(MaskBits(size)) == size
    ensures a / size == address / size <==> address <= a < address + size
  {
    hide And, PopCount, Pow2;
    PowerOfTwo(size);
    var k := PopCount(size - 1);
    AndOnes(address, k);
    Powers();
    if k <= 3 {
      PowMonotone(k, 3);
    } else if k >= 32 {
      PowMonotone(32, k);
      PowSum(16, 16);
    }
    AlignedRange(address, size, a);
  }

  lemma AlignedRange(address: nat, size: nat, a: nat)
    requires size > 0 && address % size == 0
    ensures a / size == address / size <==> address <= a < address + size
  {
    var q := address / size;
    assert address == q * size;
    if address <= a < address + size {
      RemainderIs(a, size, q, a - address);
    }
  }

  lemma AlignedEnd(address: nat, size: nat, n: nat)
    requires size > 0 && address % size == 0 && address < n * size
    ensures address + size <= n * size
  {
    var q := address / size;
    assert address == q * size;
    assert (n - q) * size == n * size - address;
    AtMostZero(n - q, size);
    if n > q {
      AtLeastOnce(n - q, size);
    }
  }

  lemma AllBits(i: nat)
    requires i < 8
    ensures TestBit(0xFF, i)
  {
    Powers();
    LowBitsTest(8, i);
  }

  /** An accepted watchpoint matches exactly the bytes [address, address + size), for exactly the accesses
      asked for. */
  lemma WatchesExactly(address: nat, size: nat, contextSlot: nat, read: bool, write: bool, a: nat)
    requires address < U64_LIMIT && contextSlot < 16 && (read || write) && IsValidWatchPoint(address, size)
    ensures var control := ControlWord(MaskBits(size), contextSlot, ByteSelect(address, size), Access(read, write));
            && (Watches(control, AddressRegister(address, size), a) <==> address <= a < address + size)
            && (Lsc(control) % 2 == 1 <==> read) && (Lsc(control) / 2 == 1 <==> write)
            && Lbn(control) == contextSlot
            && address + size <= U64_LIMIT
  {
    hide TestBit, ByteSelect, PopCount, And, Or, ControlWord;
    Powers();
    if size <= 8 {
      InsideDoubleword(address, size);
      SmallWatch(address, size, a);
    } else {
      LargeWatch(address, size, a);
      LastByte(address, size);
      AllBits(a % 8);
      assert ByteSelect(address, size) == 0xFF by { WholeSelect(address, size); }
    }
    ControlFields(MaskBits(size), contextSlot, ByteSelect(address, size), Access(read, write));
  }

  lemma WholeSelect(address: nat, size: nat)
    requires size > 8
    ensures ByteSelect(address, size) == 0xFF
  {
  }

  lemma LastByte(address: nat, size: nat)
    requires address < U64_LIMIT && size > 8 && IsValidWatchPoint(address, size)
    ensures address + size <= U64_LIMIT
  {
    hide And, PopCount, Pow2;
    PowerOfTwo(size);
    var k := PopCount(size - 1);
    AndOnes(address, k);
    LargeWatch(address, size, address);
    PowSum(k, 64 - k);
    PowSum(16, 16);
    PowSum(32, 32);
    Powers();
    AlignedEnd(address, size, Pow2(64 - k));
  }

  // ----- all cores or none -----

  const DEFAULT_CORE := 3
  const CORE_COUNT := 4
  const CLEAR_RETRIES := 3

  /** A breakpoint register's control word and value; (0, 0) is off. */
  type Setting = (nat, nat)
  type Registers = map<int, Setting>

  /** Register writes applied in order. */
  function Written(core: Registers, registers: seq<int>, settings: seq<Setting>): Registers
    requires |registers| == |settings|
  {
    if registers == [] then core
    else
      var last := |registers| - 1;
      Written(core, registers[..last], settings[..last])[registers[last] := settings[last]]
  }

  ghost predicate Distinct(registers: seq<int>) {
    forall i, j :: 0 <= i < j < |registers| ==> registers[i] != registers[j]
  }

  /** Each named register holds its setting, every other one what it held. */
  lemma {:induction false} WrittenHolds(core: Registers, registers: seq<int>, settings: seq<Setting>)
    requires |registers| == |settings|
    ensures var after := Written(core, registers, settings);
            && (Distinct(registers) ==>
                 forall i :: 0 <= i < |registers| ==> registers[i] in after && after[registers[i]] == settings[i])
            && Untouched(core, after, registers)
  {
    if registers == [] {
    } else {
      var last := |registers| - 1;
      WrittenHolds(core, registers[..last], settings[..last]);
      assert registers == registers[..last] + [registers[last]];
    }
  }

  /** A thread's preferred core and the set of cores it may run on. */
  datatype Affinity = Affinity(core: int, mask: nat)

  /** Where the thread belongs after it visited the other cores: where it was, or on the default core if that makes no
      sense; the mask is cut to 32 bits. */
  function Home(a: Affinity): Affinity {
    if a.core >= 0 && a.mask != 0 then Affinity(a.core, a.mask % U32_LIMIT)
    else Affinity(DEFAULT_CORE, Pow2(DEFAULT_CORE))
  }

  class Machine {
    /** The breakpoint registers of each core. */
    var cores: seq<Registers>
    /** The core this thread runs on. */
    var current: nat
    var affinity: Affinity
    /** How many kernel calls on registers or on the way to a core have failed. */
    ghost var failures: nat
    /** The cores the thread was pinned to, in order. */
    ghost var pins: seq<nat>
    /** The thread's affinity could not be read, or not be set back. */
    ghost var strayed: bool

    ghost predicate Valid()
      reads this
    {
      |cores| == CORE_COUNT && current < CORE_COUNT
    }

    constructor (core: nat)
      requires core < CORE_COUNT
      ensures Valid() && current == core && failures == 0 && !strayed && affinity == Affinity(core, Pow2(core))
    {
      cores, current, failures, pins, strayed := [map[], map[], map[], map[]], core, 0, [], false;
      affinity := Affinity(core, Pow2(core));
    }

    /** svcGetThreadCoreMask leaves the two variables alone when it fails. */
    method ReadAffinity() returns (a: Affinity)
      modifies `strayed
      ensures a == affinity || strayed
      ensures old(strayed) ==> strayed
    {
      if * {
        a := affinity;
      } else {
        a, strayed := Affinity(-1, 0), true;
      }
    }

    method SetAffinity(a: Affinity) returns (ok: bool)
      modifies `affinity
      ensures affinity == if ok then a else old(affinity)
    {
      ok := *;
      if ok {
        affinity := a;
      }
    }

    /** The last call of setRegistersOnAllCores; its result is not looked at. */
    method GoHome(original: Affinity)
      modifies `affinity, `strayed
      ensures affinity == Home(original) || strayed
      ensures old(strayed) ==> strayed
    {
      var ok := SetAffinity(Home(original));
      strayed := strayed || !ok;
    }

    /** pinToCore: a refused mask, or a wait that ends before the thread has moved, fails. */
    method PinToCore(core: nat) returns (ok: bool)
      requires Valid() && core < CORE_COUNT
      modifies `current, `affinity, `failures, `pins
      ensures Valid() && (ok ==> current == core) && failures == old(failures) + if ok then 0 else 1
      ensures pins == if ok then old(pins) + [core] else old(pins)
    {
      ok := SetAffinity(Affinity(core, Pow2(core)));
      if ok {
        ok := *;
      }
      failures := failures + if ok then 0 else 1;
      if ok {
        current := core;
        pins := pins + [core];
      } else {
        var elsewhere :| 0 <= elsewhere < CORE_COUNT;
        current := elsewhere;
      }
    }

    /** svcSetHardwareBreakPoint changes a register of the current core, or fails and changes nothing. */
    method SetRegister(register: int, setting: Setting) returns (ok: bool)
      requires Valid()
      modifies `cores, `failures
      ensures Valid() && failures == old(failures) + if ok then 0 else 1
      ensures cores == if ok then old(cores)[current := old(cores)[current][register := setting]] else old(cores)
    {
      ok := *;
      failures := failures + if ok then 0 else 1;
      if ok {
        cores := cores[current := cores[current][register := setting]];
      }
    }

    /** The writes to the current core; they stop at the first failure. */
    method SetCurrent(registers: seq<int>, settings: seq<Setting>) returns (ok: bool, ghost done: nat)
      requires Valid() && |registers| == |settings|
      modifies `cores, `failures
      ensures Valid() && done <= |registers| && (ok <==> done == |registers|)
      ensures failures == old(failures) + if ok then 0 else 1
      ensures cores == old(cores)[current := Written(old(cores)[current], registers[..done], settings[..done])]
    {
      ok, done := true, 0;
      var i := 0;
      assert cores[current := cores[current]] == cores;
      while i < |registers|
        invariant Valid() && i == done <= |registers| && failures == old(failures)
        invariant cores == old(cores)[current := Written(old(cores)[current], registers[..i], settings[..i])]
      {
        assert registers[..i + 1][..i] == registers[..i] && settings[..i + 1][..i] == settings[..i];
        ok := SetRegister(registers[i], settings[i]);
        if !ok {
          return;
        }
        i, done := i + 1, done + 1;
      }
    }

    /** The rollback's writes to the current core; failures are ignored. */
    method ClearCurrent(registers: seq<int>) returns (ghost clean: bool)
      requires Valid()
      modifies `cores, `failures
      ensures Valid() && failures >= old(failures) && (clean <==> failures == old(failures))
      ensures forall c :: 0 <= c < CORE_COUNT && c != current ==> cores[c] == old(cores)[c]
      ensures Untouched(old(cores)[current], cores[current], registers)
      ensures clean ==> Cleared(cores[current], registers)
    {
      clean := true;
      var i := 0;
      while i < |registers|
        invariant Valid() && i <= |registers| && failures >= old(failures) && (clean <==> failures == old(failures))
        invariant forall c :: 0 <= c < CORE_COUNT && c != current ==> cores[c] == old(cores)[c]
        invariant Untouched(old(cores)[current], cores[current], registers)
        invariant clean ==> Cleared(cores[current], registers[..i])
      {
        var ok := SetRegister(registers[i], (0, 0));
        clean := clean && ok;
        assert registers[..i + 1] == registers[..i] + [registers[i]];
        i := i + 1;
      }
      assert registers[..i] == registers;
    }

    /** The rollback over the reached cores; `clean` when every one of its calls succeeded. */
    method Rollback(registers: seq<int>, reached: nat) returns (ghost clean: bool)
      requires Valid() && reached < CORE_COUNT
      modifies this
      ensures Valid() && failures >= old(failures) && (clean <==> failures == old(failures)) && strayed == old(strayed)
      ensures old(pins) <= pins && forall i :: |old(pins)| <= i < |pins| ==> pins[i] <= reached
      ensures forall c :: 0 <= c < CORE_COUNT ==> Untouched(old(cores)[c], cores[c], registers)
      ensures forall c :: reached < c < CORE_COUNT ==> cores[c] == old(cores)[c]
      ensures clean ==> forall c :: 0 <= c <= reached ==> Cleared(cores[c], registers)
    {
      clean := true;
      var core := 0;
      while core <= reached
        invariant Valid() && core <= reached + 1 && failures >= old(failures) && (clean <==> failures == old(failures))
        invariant strayed == old(strayed)
        invariant old(pins) <= pins && forall i :: |old(pins)| <= i < |pins| ==> pins[i] <= reached
        invariant forall c :: 0 <= c < CORE_COUNT ==> Untouched(old(cores)[c], cores[c], registers)
        invariant forall c :: reached < c < CORE_COUNT ==> cores[c] == old(cores)[c]
        invariant clean ==> forall c :: 0 <= c < core ==> Cleared(cores[c], registers)
      {
        ghost var was := cores;
        var pinned := PinToCore(core);
        if pinned {
          ghost var cleared := ClearCurrent(registers);
          UntouchedTwice(old(cores)[core], was[core], cores[core], registers);
          clean := clean && cleared;
        } else {
          clean := false;
        }
        core := core + 1;
      }
    }

    /** setRegistersOnAllCores. */
    method SetAllCores(registers: seq<int>, settings: seq<Setting>)
      returns (ok: bool, ghost reached: int, ghost rolledBack: bool)
      requires Valid() && |registers| == |settings|
      modifies this
      ensures Valid() && -1 <= reached < CORE_COUNT
      ensures registers == [] ==> !ok && cores == old(cores) && affinity == old(affinity)
      ensures registers != [] && !strayed ==>
        affinity == if old(affinity.core >= 0 && affinity.mask != 0)
                    then Affinity(old(affinity).core, old(affinity).mask % U32_LIMIT) else Affinity(3, 8)
      ensures old(strayed) ==> strayed
      ensures registers != [] ==> failures >= old(failures) && (ok <==> failures == old(failures))
      ensures ok ==> forall c :: 0 <= c < CORE_COUNT ==> cores[c] == Written(old(cores)[c], registers, settings)
      ensures !ok ==> forall c :: reached < c < CORE_COUNT ==> cores[c] == old(cores)[c]
      ensures !ok ==> forall c :: 0 <= c < CORE_COUNT ==> Untouched(old(cores)[c], cores[c], registers)
      ensures !ok && rolledBack ==> forall c :: 0 <= c <= reached ==> Cleared(cores[c], registers)
      // `reached` is the highest core the thread was pinned to, and a single failed call leaves none programmed
      ensures old(pins) <= pins && forall i :: |old(pins)| <= i < |pins| ==> pins[i] <= reached
      ensures reached >= 0 ==> exists i :: |old(pins)| <= i < |pins| && pins[i] == reached
      ensures !ok && failures == old(failures) + 1 ==> forall c :: 0 <= c <= reached ==> Cleared(cores[c], registers)
    {
      ok, reached, rolledBack := false, -1, true;
      if registers == [] {
        return;
      }
      var original := ReadAffinity();
      var core, reachedCore := 0, -1;
      ok := true;
      while core < CORE_COUNT && ok
        invariant Valid() && core <= CORE_COUNT && -1 <= reachedCore < CORE_COUNT
        invariant if ok then reachedCore == core - 1 else reachedCore < CORE_COUNT
        invariant failures == old(failures) + if ok then 0 else 1
        invariant old(pins) <= pins && forall i :: |old(pins)| <= i < |pins| ==> pins[i] <= reachedCore
        invariant reachedCore >= 0 ==> exists i :: |old(pins)| <= i < |pins| && pins[i] == reachedCore
        invariant (original == old(affinity) || strayed) && (old(strayed) ==> strayed)
        invariant forall c :: 0 <= c < CORE_COUNT ==> Untouched(old(cores)[c], cores[c], registers)
        invariant forall c :: reachedCore < c < CORE_COUNT ==> cores[c] == old(cores)[c]
        invariant ok ==> forall c :: 0 <= c < core ==> cores[c] == Written(old(cores)[c], registers, settings)
        decreases CORE_COUNT - core, ok
      {
        ok := PinToCore(core);
        if ok {
          reachedCore := core;
          assert pins[|pins| - 1] == core;
          ghost var done;
          ok, done := SetCurrent(registers, settings);
          WrittenHolds(old(cores)[core], registers[..done], settings[..done]);
          assert ok ==> registers[..done] == registers && settings[..done] == settings;
          if ok {
            core := core + 1;
          }
        }
      }
      reached := reachedCore;
      if !ok && reachedCore >= 0 {
        ghost var was := cores;
        rolledBack := Rollback(registers, reachedCore);
        forall c | 0 <= c < CORE_COUNT ensures Untouched(old(cores)[c], cores[c], registers) {
          UntouchedTwice(old(cores)[c], was[c], cores[c], registers);
        }
      }
      GoHome(original);
    }

    /** debugHwBpClearAllCores: up to three attempts. */
    method ClearAllCores(register: int) returns (ok: bool)
      requires Valid()
      modifies this
      ensures Valid()
      ensures ok ==> forall c :: 0 <= c < CORE_COUNT ==> Cleared(cores[c], [register])
      ensures !ok ==> failures > old(failures)
      ensures forall c :: 0 <= c < CORE_COUNT ==> Untouched(old(cores)[c], cores[c], [register])
    {
      ok := false;
      var attempt := 0;
      while attempt < CLEAR_RETRIES && !ok
        invariant Valid() && attempt <= CLEAR_RETRIES && failures >= old(failures)
        invariant attempt > 0 && !ok ==> failures > old(failures)
        invariant ok ==> forall c :: 0 <= c < CORE_COUNT ==> Cleared(cores[c], [register])
        invariant forall c :: 0 <= c < CORE_COUNT ==> Untouched(old(cores)[c], cores[c], [register])
      {
        ghost var was := cores;
        ghost var reached, rolledBack;
        ok, reached, rolledBack := SetAllCores([register], [(0, 0)]);
        forall c | 0 <= c < CORE_COUNT
          ensures Untouched(old(cores)[c], cores[c], [register]) && (ok ==> Cleared(cores[c], [register]))
        {
          WrittenHolds(was[c], [register], [(0, 0)]);
          UntouchedTwice(old(cores)[c], was[c], cores[c], [register]);
        }
        attempt := attempt + 1;
      }
    }

    /** debugHwBpSetData: on success every core watches exactly [address, address + size). */
    method SetData(dataSlot: int, contextSlot: nat, address: nat, size: nat, read: bool, write: bool)
      returns (ok: bool, ghost reached: int, ghost rolledBack: bool)
      requires Valid() && contextSlot < 16 && address < U64_LIMIT && size < U64_LIMIT
      modifies this
      ensures Valid() && -1 <= reached < CORE_COUNT
      ensures (read || write) && !IsValidWatchPoint(address, size) ==> !ok && cores == old(cores)
      ensures !ok ==> failures > old(failures) || ((read || write) && !IsValidWatchPoint(address, size))
      ensures ok && (read || write) ==> forall c :: 0 <= c < CORE_COUNT ==>
        && dataSlot in cores[c]
        && var (control, value) := cores[c][dataSlot];
        && (forall a: nat :: Watches(control, value, a) <==> address <= a < address + size)
        && (Lsc(control) % 2 == 1 <==> read) && (Lsc(control) / 2 == 1 <==> write) && Lbn(control) == contextSlot
      ensures ok && !read && !write ==> forall c :: 0 <= c < CORE_COUNT ==>
        dataSlot in cores[c] && !Enabled(cores[c][dataSlot].0)
      ensures forall c :: 0 <= c < CORE_COUNT ==> Untouched(old(cores)[c], cores[c], [dataSlot])
      ensures !ok ==> forall c :: reached < c < CORE_COUNT ==> cores[c] == old(cores)[c]
      ensures !ok && rolledBack ==> forall c :: 0 <= c <= reached ==> Cleared(cores[c], [dataSlot])
      // a single failed call leaves no core watching: each has the register off, or was never reached
      ensures old(pins) <= pins && forall i :: |old(pins)| <= i < |pins| ==> pins[i] <= reached
      ensures reached >= 0 ==> exists i :: |old(pins)| <= i < |pins| && pins[i] == reached
      ensures !ok && failures == old(failures) + 1 ==> forall c :: 0 <= c <= reached ==> Cleared(cores[c], [dataSlot])
    {
      hide Watches, Lsc, Lbn, Enabled, ControlWord, MaskBits, ByteSelect, AddressRegister, IsValidWatchPoint;
      var lsc := Access(read, write);
      if lsc != 0 && !IsValidWatchPoint(address, size) {
        return false, -1, true;
      }
      var control := ControlWord(MaskBits(size), contextSlot, ByteSelect(address, size), lsc);
      var value := AddressRegister(address, size);
      ok, reached, rolledBack := SetAllCores([dataSlot], [(control, value)]);
      forall c | 0 <= c < CORE_COUNT
        ensures Untouched(old(cores)[c], cores[c], [dataSlot])
        ensures ok ==> dataSlot in cores[c] && cores[c][dataSlot] == (control, value)
      {
        WrittenHolds(old(cores)[c], [dataSlot], [(control, value)]);
      }
      if lsc == 0 {
        DisabledWord(MaskBits(size), contextSlot, ByteSelect(address, size));
      } else {
        forall a: nat ensures Watches(control, value, a) <==> address <= a < address + size {
          WatchesExactly(address, size, contextSlot, read, write, a);
        }
        WatchesExactly(address, size, contextSlot, read, write, 0);
      }
    }
  }

  ghost predicate Untouched(before: Registers, after: Registers, registers: seq<int>) {
    forall r :: r !in registers ==> (r in after <==> r in before) && (r in before ==> after[r] == before[r])
  }

  ghost predicate Cleared(core: Registers, registers: seq<int>) {
    forall r :: r in registers ==> r in core && core[r] == (0, 0)
  }

  lemma UntouchedTwice(a: Registers, b: Registers, c: Registers, registers: seq<int>)
    ensures Untouched(a, b, registers) && Untouched(b, c, registers) ==> Untouched(a, c, registers)
  {
  }

  lemma DisabledWord(mask: byte, contextSlot: nat, bas: byte)
    requires contextSlot < 16
    ensures !Enabled(ControlWord(mask, contextSlot, bas, 0))
  {
    hide ControlWord;
    ControlSum(mask, contextSlot, bas, 0);
  }
}
