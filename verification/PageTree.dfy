/** The page tables of src/kernel/PageTable.cpp as words in memory: how an address is
    walked, and the invariant that makes the tables of all address spaces a forest
    whose kernel half is shared. */
module PageTree {
  import opened Powers

  const ENTRIES := 512
  const KERNEL_SLOT := 256      // first PML4 slot of the kernel half
  const PAGE := 0x1000
  const HUGE_PAGE := 0x20_0000

  const PAGE_USER := 4
  const NONE := -1

  type Table = seq<nat>
  /** The frames in use as page tables. */
  type Memory = map<nat, Table>

  // ---- One entry ----

  predicate Present(e: nat) { e % 2 == 1 }

  predicate Huge(e: nat) { (e / 128) % 2 == 1 }

  /** e & ~0xFFF */
  function Addr(e: nat): nat { e - e % PAGE }

  /** e & ~0x1FFFFF */
  function HugeAddr(e: nat): nat { e - e % HUGE_PAGE }

  /** `flags` with one bit set. */
  function WithBit(flags: nat, bit: nat): nat
    requires bit > 0
  {
    if (flags / bit) % 2 == 1 then flags else flags + bit
  }

  /** phys | PAGE_PRESENT | PAGE_WRITABLE | flags for a fresh table */
  function TableEntry(phys: nat, user: bool): nat { phys + 3 + if user then PAGE_USER else 0 }

  /** phys | flags | PAGE_PRESENT */
  function LeafEntry(phys: nat, flags: nat): nat { Addr(phys) + WithBit(flags, 1) }

  /** phys | flags | PAGE_PRESENT | PAGE_HUGE */
  function HugeEntry(phys: nat, flags: nat): nat { HugeAddr(phys) + WithBit(WithBit(flags, 1), 128) }

  lemma FlagFacts(flags: nat)
    requires flags < PAGE
    ensures var f := WithBit(flags, 1); f < PAGE && Present(f)
    ensures var f := WithBit(WithBit(flags, 1), 128); f < PAGE && Present(f) && Huge(f)
  {
    var f := WithBit(flags, 1);
    assert f < PAGE && Present(f);
    var q, r := f / 128, f % 128;
    assert q < 32 && f == 128 * q + r;
    if q % 2 == 0 { assert f + 128 == 128 * (q + 1) + r; }
  }

  /** Low bits added to an aligned address. */
  lemma LowBits(base: nat, f: nat)
    requires base % PAGE == 0 && f < PAGE
    ensures (base + f) % PAGE == f && Addr(base + f) == base
    ensures Present(base + f) == Present(f) && Huge(base + f) == Huge(f)
  {
    var q := base / PAGE;
    DivSum(q, PAGE, f);
    DivSum(2048 * q, 2, f);
    DivSum(32 * q, 128, f);
    DivSum(16 * q, 2, f / 128);
  }

  lemma LeafFacts(phys: nat, flags: nat)
    requires flags < PAGE
    ensures Present(LeafEntry(phys, flags)) && Addr(LeafEntry(phys, flags)) == Addr(phys)
  {
    FlagFacts(flags);
    LowBits(Addr(phys), WithBit(flags, 1));
  }

  lemma HugeFacts(phys: nat, flags: nat)
    requires flags < PAGE
    ensures var e := HugeEntry(phys, flags); Present(e) && Huge(e) && HugeAddr(e) == HugeAddr(phys)
  {
    FlagFacts(flags);
    var h, f := HugeAddr(phys), WithBit(WithBit(flags, 1), 128);
    var q := phys / HUGE_PAGE;
    DivSum(512 * q, PAGE, 0);
    LowBits(h, f);
    DivSum(q, HUGE_PAGE, f);
  }

  lemma TableFacts(phys: nat, user: bool)
    requires phys % PAGE == 0
    ensures var e := TableEntry(phys, user); Present(e) && !Huge(e) && Addr(e) == phys
  {
    LowBits(phys, 3 + if user then PAGE_USER else 0);
  }

  // ---- The walk ----

  function I4(v: nat): nat { v / 0x80_0000_0000 % ENTRIES }

  function I3(v: nat): nat { v / 0x4000_0000 % ENTRIES }

  function I2(v: nat): nat { v / 0x20_0000 % ENTRIES }

  function I1(v: nat): nat { v / 0x1000 % ENTRIES }

  lemma SlotBound(v: nat)
    ensures I4(v) < ENTRIES && I3(v) < ENTRIES && I2(v) < ENTRIES && I1(v) < ENTRIES
  {
  }

  /** Addresses that agree on the 36 page-number bits. */
  predicate SamePage(v: nat, w: nat) { I4(v) == I4(w) && I3(v) == I3(w) && I2(v) == I2(w) && I1(v) == I1(w) }

  predicate SameHugePage(v: nat, w: nat) { I4(v) == I4(w) && I3(v) == I3(w) && I2(v) == I2(w) }

  /** v >> 12 >> 9 is v >> 21, and so on up. */
  lemma Shifts(v: nat)
    ensures v / 0x20_0000 == v / 0x1000 / 512
    ensures v / 0x4000_0000 == v / 0x20_0000 / 512
    ensures v / 0x80_0000_0000 == v / 0x4000_0000 / 512
  {
  }

  lemma LowDigit(a: nat, m: nat)
    requires m > 0
    ensures a % (512 * m) == a / 512 % m * 512 + a % 512
  {
    var q := a / 512;
    var d, s := q / m, q % m;
    assert q == d * m + s;
    assert a == d * (512 * m) + (512 * s + a % 512) by { assert d * (512 * m) == 512 * (d * m); }
    DivModIs(a, 512 * m, d, 512 * s + a % 512);
  }

  lemma Digits(a: nat)
    ensures a % 0x4_0000 == a / 512 % 0x200 * 512 + a % 512
    ensures a % 0x800_0000 == a / 512 % 0x4_0000 * 512 + a % 512
    ensures a % 0x10_0000_0000 == a / 512 % 0x800_0000 * 512 + a % 512
  {
    LowDigit(a, 0x200);
    LowDigit(a, 0x4_0000);
    LowDigit(a, 0x800_0000);
  }

  /** The four indices are the 36-bit page number, the upper three the 27-bit number of
      the 2 MB page; the 16 top bits of an address do not take part. */
  lemma PageNumber(v: nat, w: nat)
    ensures SamePage(v, w) <==> v / PAGE % 0x10_0000_0000 == w / PAGE % 0x10_0000_0000
    ensures SameHugePage(v, w) <==> v / HUGE_PAGE % 0x800_0000 == w / HUGE_PAGE % 0x800_0000
  {
    Shifts(v);
    Shifts(w);
    Digits(v / 0x1000);
    Digits(v / 0x20_0000);
    Digits(v / 0x4000_0000);
    Digits(w / 0x1000);
    Digits(w / 0x20_0000);
    Digits(w / 0x4000_0000);
  }

  function Word(mem: Memory, t: int, i: nat): nat {
    if t >= 0 && t in mem && i < |mem[t]| then mem[t][i] else 0
  }

  /** The table an entry leads to. */
  function Step(mem: Memory, t: int, i: nat): int {
    var e := Word(mem, t, i);
    if Present(e) then Addr(e) else NONE
  }

  function Pdpt(mem: Memory, c: nat, v: nat): int { Step(mem, c, I4(v)) }

  function Pd(mem: Memory, c: nat, v: nat): int { Step(mem, Pdpt(mem, c, v), I3(v)) }

  function PdEntry(mem: Memory, c: nat, v: nat): nat { Word(mem, Pd(mem, c, v), I2(v)) }

  /** How many tables are missing on the way to the PD of an address, and to its PT. */
  function MissingPd(mem: Memory, c: nat, v: nat): nat {
    if Pdpt(mem, c, v) == NONE then 2 else if Pd(mem, c, v) == NONE then 1 else 0
  }

  function MissingPt(mem: Memory, c: nat, v: nat): nat {
    MissingPd(mem, c, v) + if Present(PdEntry(mem, c, v)) then 0 else 1
  }

  function Pt(mem: Memory, c: nat, v: nat): int {
    var e := PdEntry(mem, c, v);
    if Present(e) && !Huge(e) then Addr(e) else NONE
  }

  /** virtToPhys: 0 for an address that is not mapped. */
  function Translate(mem: Memory, c: nat, v: nat): nat {
    var e := PdEntry(mem, c, v);
    if Present(e) && Huge(e) then HugeAddr(e) + v % HUGE_PAGE
    else
      var l := Word(mem, Pt(mem, c, v), I1(v));
      if Present(l) then Addr(l) + v % PAGE else 0
  }

  // ---- The forest ----

  /** Where a table hangs: the slot of its parent that points to it. */
  datatype Slot = Slot(table: nat, index: nat)

  /** Level 4 is a PML4, 3 a PDPT, 2 a PD, 1 a PT; 0 is a PT cut off by a 2 MB mapping. */
  type Levels = map<nat, nat>
  type Parents = map<nat, Slot>

  /** The kernel half of every PML4 stands for the kernel's own. */
  function Owner(level: Levels, kernel: nat, t: nat, i: nat): Slot
    requires t in level
  {
    if level[t] == 4 && i >= KERNEL_SLOT then Slot(kernel, i) else Slot(t, i)
  }

  /** The entry points to a table of the next level. */
  predicate Links(level: nat, e: nat) { level >= 2 && Present(e) && !(level == 2 && Huge(e)) }

  predicate Frames(mem: Memory, level: Levels, parent: Parents) {
    && mem.Keys == level.Keys && parent.Keys <= level.Keys
    && forall t :: t in mem ==> |mem[t]| == ENTRIES && t % PAGE == 0 && level[t] <= 4
  }

  /** Every pointer leads to a table of the next level that has this slot as its parent. */
  predicate DownOk(mem: Memory, level: Levels, parent: Parents, kernel: nat, t: nat, i: nat)
    requires Frames(mem, level, parent) && t in mem && i < ENTRIES
  {
    Links(level[t], mem[t][i]) ==>
      var c := Addr(mem[t][i]);
      c in parent && level[c] == level[t] - 1 && parent[c] == Owner(level, kernel, t, i)
  }

  /** Every table below a PML4 is pointed to by its parent slot. */
  predicate UpOk(mem: Memory, level: Levels, parent: Parents, kernel: nat, c: nat)
    requires Frames(mem, level, parent) && c in parent
  {
    var s := parent[c];
    && 1 <= level[c] <= 3
    && s.table in mem && s.index < ENTRIES && level[s.table] == level[c] + 1
    && Links(level[s.table], mem[s.table][s.index]) && Addr(mem[s.table][s.index]) == c
    && s == Owner(level, kernel, s.table, s.index)
  }

  predicate Forest(mem: Memory, level: Levels, parent: Parents, kernel: nat) {
    && Frames(mem, level, parent)
    && kernel in level && level[kernel] == 4
    && (forall t, i :: t in mem && 0 <= i < ENTRIES ==> DownOk(mem, level, parent, kernel, t, i))
    && (forall c :: c in parent ==> UpOk(mem, level, parent, kernel, c))
  }

  /** All address spaces have the kernel's kernel half. */
  predicate Shared(mem: Memory, level: Levels, parent: Parents, kernel: nat)
    requires Forest(mem, level, parent, kernel)
  {
    forall c, i :: c in level && level[c] == 4 && KERNEL_SLOT <= i < ENTRIES ==> mem[c][i] == mem[kernel][i]
  }

  /** No kernel-half slot of the kernel's PML4 is empty. */
  predicate Filled(mem: Memory, level: Levels, parent: Parents, kernel: nat)
    requires Forest(mem, level, parent, kernel)
  {
    forall i :: KERNEL_SLOT <= i < ENTRIES ==> Present(mem[kernel][i])
  }

  /** Every table in use below a PML4 has a parent. */
  predicate Rooted(level: Levels, parent: Parents) { forall t :: t in level && 1 <= level[t] <= 3 ==> t in parent }

  /** The kernel's is the only address space. */
  predicate Alone(level: Levels, kernel: nat) { forall c :: c in level && level[c] == 4 ==> c == kernel }

  lemma AloneKept(level: Levels, level': Levels, kernel: nat)
    requires Alone(level, kernel) && forall c: nat :: IsPml4(level', c) <==> IsPml4(level, c)
    ensures Alone(level', kernel)
  {
    assert forall c :: c in level' && level'[c] == 4 ==> IsPml4(level', c);
  }

  /** Process address spaces exist only once the kernel half is filled, and share it. */
  predicate Sound(mem: Memory, level: Levels, parent: Parents, kernel: nat) {
    && Forest(mem, level, parent, kernel) && Rooted(level, parent) && Shared(mem, level, parent, kernel)
    && (Alone(level, kernel) || Filled(mem, level, parent, kernel))
  }

  lemma SoundForest(mem: Memory, level: Levels, parent: Parents, kernel: nat)
    requires Sound(mem, level, parent, kernel)
    ensures Forest(mem, level, parent, kernel) && Rooted(level, parent) && Shared(mem, level, parent, kernel)
  {
  }

  lemma ForestFrames(mem: Memory, level: Levels, parent: Parents, kernel: nat)
    requires Forest(mem, level, parent, kernel)
    ensures Frames(mem, level, parent)
  {
  }

  /** Reading a slot: its table, and the table it leads to. */
  lemma ReadSlot(mem: Memory, level: Levels, parent: Parents, kernel: nat, t: nat, i: nat)
    requires Forest(mem, level, parent, kernel) && t in level && i < ENTRIES
    ensures t in mem && |mem[t]| == ENTRIES && mem.Keys == level.Keys && Word(mem, t, i) == mem[t][i]
    ensures Links(level[t], mem[t][i]) ==>
      Addr(mem[t][i]) in parent && Addr(mem[t][i]) in level && level[Addr(mem[t][i])] == level[t] - 1
  {
    assert DownOk(mem, level, parent, kernel, t, i);
  }

  /** The walk of an address meets tables of the right levels, hung where it came from. */
  lemma WalkFacts(mem: Memory, level: Levels, parent: Parents, kernel: nat, c: nat, v: nat)
    requires Forest(mem, level, parent, kernel) && c in level && level[c] == 4
    ensures var t3 := Pdpt(mem, c, v); t3 != NONE ==>
      t3 in parent && level[t3] == 3 && parent[t3] == Owner(level, kernel, c, I4(v))
    ensures var t2 := Pd(mem, c, v); t2 != NONE ==>
      Pdpt(mem, c, v) != NONE && t2 in parent && level[t2] == 2 && parent[t2] == Slot(Pdpt(mem, c, v), I3(v))
    ensures var t1 := Pt(mem, c, v); t1 != NONE ==>
      Pd(mem, c, v) != NONE && t1 in parent && level[t1] == 1 && parent[t1] == Slot(Pd(mem, c, v), I2(v))
  {
    assert DownOk(mem, level, parent, kernel, c, I4(v));
    var t3 := Pdpt(mem, c, v);
    if t3 != NONE {
      assert DownOk(mem, level, parent, kernel, t3, I3(v));
      var t2 := Pd(mem, c, v);
      if t2 != NONE {
        assert DownOk(mem, level, parent, kernel, t2, I2(v));
      }
    }
  }

  /** Two addresses share a table exactly when they share the indices above it. */
  lemma SharedTables(mem: Memory, level: Levels, parent: Parents, kernel: nat, c: nat, v: nat, d: nat, w: nat)
    requires Forest(mem, level, parent, kernel)
    requires c in level && level[c] == 4 && d in level && level[d] == 4
    ensures Pdpt(mem, c, v) != NONE && Pdpt(mem, c, v) == Pdpt(mem, d, w) ==>
      I4(v) == I4(w) && (c == d || I4(v) >= KERNEL_SLOT)
    ensures Pd(mem, c, v) != NONE && Pd(mem, c, v) == Pd(mem, d, w) ==>
      Pdpt(mem, c, v) == Pdpt(mem, d, w) != NONE && I3(v) == I3(w)
    ensures Pt(mem, c, v) != NONE && Pt(mem, c, v) == Pt(mem, d, w) ==>
      Pd(mem, c, v) == Pd(mem, d, w) != NONE && I2(v) == I2(w)
  {
    WalkFacts(mem, level, parent, kernel, c, v);
    WalkFacts(mem, level, parent, kernel, d, w);
  }

  // ---- One word changes ----

  function SetWord(mem: Memory, t: nat, i: nat, e: nat): (mem': Memory)
    requires t in mem && i < |mem[t]|
    ensures mem'.Keys == mem.Keys
  {
    var words: Table := mem[t][i := e];
    mem[t := words]
  }

  predicate IsPml4(level: Levels, c: nat) { c in level && level[c] == 4 }

  /** Writing a PT entry. */
  lemma LeafSound(mem: Memory, level: Levels, parent: Parents, kernel: nat, t: nat, i: nat, e: nat)
    requires Sound(mem, level, parent, kernel) && t in level && level[t] == 1 && i < ENTRIES
    ensures Sound(SetWord(mem, t, i, e), level, parent, kernel)
  {
    var mem' := SetWord(mem, t, i, e);
    forall u, j | u in mem && 0 <= j < ENTRIES ensures DownOk(mem', level, parent, kernel, u, j) {
      assert DownOk(mem, level, parent, kernel, u, j);
    }
    forall c | c in parent ensures UpOk(mem', level, parent, kernel, c) {
      assert UpOk(mem, level, parent, kernel, c);
    }
  }

  lemma LeafWalk(mem: Memory, level: Levels, parent: Parents, kernel: nat, t: nat, i: nat, e: nat, c: nat, v: nat)
    requires Forest(mem, level, parent, kernel) && IsPml4(level, c)
    requires t in level && level[t] == 1 && i < ENTRIES
    ensures Translate(SetWord(mem, t, i, e), c, v) ==
      if Pt(mem, c, v) == t && I1(v) == i then (if Present(e) then Addr(e) + v % PAGE else 0) else Translate(mem, c, v)
  {
    var mem' := SetWord(mem, t, i, e);
    WalkFacts(mem, level, parent, kernel, c, v);
    assert Pd(mem', c, v) == Pd(mem, c, v) && PdEntry(mem', c, v) == PdEntry(mem, c, v);
  }

  function Empty(): (t: Table)
    ensures |t| == ENTRIES && forall i :: 0 <= i < ENTRIES ==> t[i] == 0
  {
    seq(ENTRIES, i => 0)
  }

  function LinkNew(mem: Memory, t: nat, i: nat, f: nat, user: bool): (mem': Memory)
    requires t in mem && f !in mem && i < |mem[t]|
    ensures mem'.Keys == mem.Keys + {f}
  {
    var words: Table := mem[t][i := TableEntry(f, user)];
    mem[f := Empty()][t := words]
  }

  /** What a fresh table may be hung into. */
  predicate CanHang(mem: Memory, level: Levels, parent: Parents, kernel: nat, t: nat, i: nat, f: nat) {
    && Forest(mem, level, parent, kernel)
    && t in level && level[t] >= 2 && i < ENTRIES && !Present(mem[t][i])
    && (level[t] == 4 && i >= KERNEL_SLOT ==> t == kernel)
    && f !in mem && f % PAGE == 0
  }

  lemma NewTableForest(mem: Memory, level: Levels, parent: Parents, kernel: nat, t: nat, i: nat, f: nat, user: bool)
    requires CanHang(mem, level, parent, kernel, t, i, f)
    ensures Forest(LinkNew(mem, t, i, f, user), level[f := level[t] - 1], parent[f := Slot(t, i)], kernel)
  {
    hide Huge, Addr, TableEntry;
    var mem', level', parent' := LinkNew(mem, t, i, f, user), level[f := level[t] - 1], parent[f := Slot(t, i)];
    TableFacts(f, user);
    forall u, j | u in mem' && 0 <= j < ENTRIES ensures DownOk(mem', level', parent', kernel, u, j) {
      if u in mem { assert DownOk(mem, level, parent, kernel, u, j); }
    }
    forall c | c in parent' ensures UpOk(mem', level', parent', kernel, c) {
      if c in parent { assert UpOk(mem, level, parent, kernel, c); }
    }
  }

  lemma NewTableSound(mem: Memory, level: Levels, parent: Parents, kernel: nat, t: nat, i: nat, f: nat, user: bool)
    requires Sound(mem, level, parent, kernel)
    requires t in level && level[t] >= 2 && i < ENTRIES && !Present(mem[t][i]) && f !in mem && f % PAGE == 0
    ensures CanHang(mem, level, parent, kernel, t, i, f)
    ensures Sound(LinkNew(mem, t, i, f, user), level[f := level[t] - 1], parent[f := Slot(t, i)], kernel)
    ensures var mem' := LinkNew(mem, t, i, f, user); Step(mem', t, i) == f && !Huge(Word(mem', t, i))
  {
    hide Present, Huge, Addr, TableEntry, DownOk, UpOk;
    TableFacts(f, user);
    assert level[t] == 4 && i >= KERNEL_SLOT ==> mem[t][i] == mem[kernel][i];
    NewTableForest(mem, level, parent, kernel, t, i, f, user);
  }

  /** Every entry in use is still what it was. */
  ghost predicate Kept(mem: Memory, mem': Memory) {
    forall u: nat, j: nat :: Present(Word(mem, u, j)) ==> Word(mem', u, j) == Word(mem, u, j)
  }

  lemma KeptSame(mem: Memory)
    ensures Kept(mem, mem)
  {
  }

  lemma LinkKeeps(mem: Memory, t: nat, i: nat, f: nat, user: bool)
    requires t in mem && f !in mem && i < |mem[t]| && !Present(mem[t][i])
    ensures Kept(mem, LinkNew(mem, t, i, f, user))
  {
  }

  lemma LinkWords(mem: Memory, t: nat, i: nat, f: nat, user: bool)
    requires t in mem && f !in mem && i < |mem[t]|
    ensures var mem' := LinkNew(mem, t, i, f, user); Word(mem', t, i) == TableEntry(f, user) && forall j: nat :: Word(mem', f, j) == 0
  {
  }

  lemma LinkOthers(mem: Memory, t: nat, i: nat, f: nat, user: bool)
    requires t in mem && f !in mem && i < |mem[t]|
    ensures forall j: nat :: j != i ==> Word(LinkNew(mem, t, i, f, user), t, j) == Word(mem, t, j)
  {
  }

  lemma StepPresent(mem: Memory, t: int, i: nat)
    ensures Step(mem, t, i) != NONE <==> Present(Word(mem, t, i))
  {
  }

  /** How many of the slots from `i` on are empty. */
  function Empties(mem: Memory, t: nat, i: nat): nat
    decreases ENTRIES - i
  {
    if i >= ENTRIES then 0 else (if Present(Word(mem, t, i)) then 0 else 1) + Empties(mem, t, i + 1)
  }

  lemma EmptiesStep(mem: Memory, t: nat, i: nat)
    requires i < ENTRIES
    ensures Empties(mem, t, i) == (if Present(Word(mem, t, i)) then 0 else 1) + Empties(mem, t, i + 1)
  {
  }

  lemma {:induction false} SameEmpties(mem: Memory, mem': Memory, t: nat, i: nat)
    requires forall j: nat :: j >= i ==> Word(mem', t, j) == Word(mem, t, j)
    ensures Empties(mem', t, i) == Empties(mem, t, i)
    decreases ENTRIES - i
  {
    if i < ENTRIES { SameEmpties(mem, mem', t, i + 1); }
  }

  lemma KeptSteps(mem: Memory, mem': Memory, c: nat, v: nat)
    requires Kept(mem, mem')
    ensures Pdpt(mem, c, v) != NONE ==> Pdpt(mem', c, v) == Pdpt(mem, c, v)
    ensures Pd(mem, c, v) != NONE ==> Pd(mem', c, v) == Pd(mem, c, v)
  {
    assert Present(Word(mem, c, I4(v))) ==> Word(mem', c, I4(v)) == Word(mem, c, I4(v));
    var t := Pdpt(mem, c, v);
    if t != NONE { assert Present(Word(mem, t, I3(v))) ==> Word(mem', t, I3(v)) == Word(mem, t, I3(v)); }
  }

  /** Hanging a fresh, empty table into an empty slot changes no translation. */
  lemma NewTableWalk(mem: Memory, level: Levels, parent: Parents, kernel: nat, t: nat, i: nat, f: nat, user: bool, c: nat, v: nat)
    requires CanHang(mem, level, parent, kernel, t, i, f) && IsPml4(level, c)
    ensures var mem' := LinkNew(mem, t, i, f, user);
      && Translate(mem', c, v) == Translate(mem, c, v)
      && (level[t] > 2 ==> PdEntry(mem', c, v) == PdEntry(mem, c, v))
  {
    var mem' := LinkNew(mem, t, i, f, user);
    hide Forest;
    TableFacts(f, user);
    WalkFacts(mem, level, parent, kernel, c, v);
    assert forall u: nat, j: nat :: u in mem && !(u == t && i == j) ==> Word(mem', u, j) == Word(mem, u, j);
    assert forall j: nat :: Word(mem', f, j) == 0;
  }

  /** The PT a 2 MB mapping cuts off, if its slot led to one. */
  function CutOff(mem: Memory, t: nat, i: nat): int {
    var e := Word(mem, t, i);
    if Present(e) && !Huge(e) then Addr(e) else NONE
  }

  /** Writing a 2 MB entry into a PD. */
  lemma HugeForest(mem: Memory, level: Levels, parent: Parents, kernel: nat, t: nat, i: nat, e: nat)
    requires Forest(mem, level, parent, kernel)
    requires t in level && level[t] == 2 && i < ENTRIES && Present(e) && Huge(e)
    ensures var p := CutOff(mem, t, i); p != NONE ==> p in parent && level[p] == 1
    ensures var p := CutOff(mem, t, i);
      Forest(SetWord(mem, t, i, e), if p == NONE then level else level[p := 0], if p == NONE then parent else parent - {p}, kernel)
  {
    assert DownOk(mem, level, parent, kernel, t, i);
    var p := CutOff(mem, t, i);
    var mem', level', parent' :=
      SetWord(mem, t, i, e), if p == NONE then level else level[p := 0], if p == NONE then parent else parent - {p};
    forall u, j | u in mem' && 0 <= j < ENTRIES ensures DownOk(mem', level', parent', kernel, u, j) {
      assert DownOk(mem, level, parent, kernel, u, j);
    }
    forall c | c in parent' ensures UpOk(mem', level', parent', kernel, c) {
      assert UpOk(mem, level, parent, kernel, c);
    }
  }

  lemma HugeSound(mem: Memory, level: Levels, parent: Parents, kernel: nat, t: nat, i: nat, e: nat)
    returns (level': Levels, parent': Parents)
    requires Sound(mem, level, parent, kernel)
    requires t in level && level[t] == 2 && i < ENTRIES && Present(e) && Huge(e)
    ensures Sound(SetWord(mem, t, i, e), level', parent', kernel)
    ensures forall c: nat :: IsPml4(level', c) <==> IsPml4(level, c)
    ensures var p := CutOff(mem, t, i);
      if p == NONE then level' == level else p >= 0 && p in level && level[p] == 1 && level' == level[p := 0]
  {
    HugeForest(mem, level, parent, kernel, t, i, e);
    var p := CutOff(mem, t, i);
    level', parent' := level, parent;
    if p != NONE {
      level', parent' := level[p := 0], parent - {p};
      SamePml4s(level, p);
    }
    HugeKeeps(mem, level, parent, kernel, t, i, e, level', parent');
  }

  /** The kernel half is not touched, and no table loses its parent but the one cut off. */
  lemma HugeKeeps(mem: Memory, level: Levels, parent: Parents, kernel: nat, t: nat, i: nat, e: nat,
                  level': Levels, parent': Parents)
    requires Sound(mem, level, parent, kernel) && t in level && level[t] == 2 && i < ENTRIES
    requires Forest(SetWord(mem, t, i, e), level', parent', kernel)
    requires level'.Keys == level.Keys
    requires forall c :: c in level ==> level'[c] == level[c] || (level[c] == 1 && level'[c] == 0)
    requires forall c :: c in parent && level[c] == level'[c] ==> c in parent'
    ensures Sound(SetWord(mem, t, i, e), level', parent', kernel)
  {
    hide DownOk, UpOk, Present, Links, Owner;
  }

  lemma SamePml4s(level: Levels, p: nat)
    requires p in level && level[p] == 1
    ensures forall c: nat :: IsPml4(level[p := 0], c) <==> IsPml4(level, c)
  {
  }

  lemma HugeWalk(mem: Memory, level: Levels, parent: Parents, kernel: nat, t: nat, i: nat, e: nat, c: nat, v: nat)
    requires Forest(mem, level, parent, kernel) && IsPml4(level, c)
    requires t in level && level[t] == 2 && i < ENTRIES && Present(e) && Huge(e)
    ensures Translate(SetWord(mem, t, i, e), c, v) ==
      if Pd(mem, c, v) == t && I2(v) == i then HugeAddr(e) + v % HUGE_PAGE else Translate(mem, c, v)
  {
    WalkFacts(mem, level, parent, kernel, c, v);
    var mem' := SetWord(mem, t, i, e);
    assert Pd(mem', c, v) == Pd(mem, c, v);
  }

  /** Two PML4s that agree on a slot agree on every address below it. */
  lemma SameSlot(mem: Memory, c: nat, d: nat, v: nat)
    requires Word(mem, c, I4(v)) == Word(mem, d, I4(v))
    ensures Pd(mem, c, v) == Pd(mem, d, v) && Pt(mem, c, v) == Pt(mem, d, v)
    ensures Translate(mem, c, v) == Translate(mem, d, v)
  {
  }

  /** The tables of (c, v) are reached from the same page of the same address space, and
      in the kernel half from that page of every address space. */
  lemma SamePt(mem: Memory, level: Levels, parent: Parents, kernel: nat, c: nat, v: nat, d: nat, w: nat)
    requires Forest(mem, level, parent, kernel) && Shared(mem, level, parent, kernel)
    requires IsPml4(level, c) && IsPml4(level, d)
    ensures Pd(mem, c, v) != NONE ==>
      (Pd(mem, d, w) == Pd(mem, c, v) && I2(w) == I2(v) <==> SameHugePage(w, v) && (d == c || I4(v) >= KERNEL_SLOT))
    ensures Pt(mem, c, v) != NONE ==>
      (Pt(mem, d, w) == Pt(mem, c, v) && I1(w) == I1(v) <==> SamePage(w, v) && (d == c || I4(v) >= KERNEL_SLOT))
  {
    WalkFacts(mem, level, parent, kernel, c, v);
    SharedTables(mem, level, parent, kernel, c, v, d, w);
    if SameHugePage(w, v) && (d == c || I4(v) >= KERNEL_SLOT) {
      var i := I4(v);
      assert c != d ==> mem[c][i] == mem[kernel][i] && mem[d][i] == mem[kernel][i];
      SameSlot(mem, c, d, v);
      assert Pd(mem, d, w) == Pd(mem, d, v) && PdEntry(mem, d, w) == PdEntry(mem, d, v);
    }
  }

  /** A fresh table moves no address. */
  lemma NewTableMoves(mem: Memory, level: Levels, parent: Parents, kernel: nat, t: nat, i: nat, f: nat, user: bool)
    requires CanHang(mem, level, parent, kernel, t, i, f)
    ensures forall c: nat, v: nat :: IsPml4(level, c) ==> Translate(LinkNew(mem, t, i, f, user), c, v) == Translate(mem, c, v)
    ensures level[t] > 2 ==>
      forall c: nat, v: nat :: IsPml4(level, c) ==> PdEntry(LinkNew(mem, t, i, f, user), c, v) == PdEntry(mem, c, v)
    ensures forall c: nat :: IsPml4(level[f := level[t] - 1], c) <==> IsPml4(level, c)
  {
    ForestFrames(mem, level, parent, kernel);
    hide Forest, Translate, PdEntry, LinkNew;
    forall c: nat, v: nat | IsPml4(level, c)
      ensures Translate(LinkNew(mem, t, i, f, user), c, v) == Translate(mem, c, v)
      ensures level[t] > 2 ==> PdEntry(LinkNew(mem, t, i, f, user), c, v) == PdEntry(mem, c, v)
    {
      NewTableWalk(mem, level, parent, kernel, t, i, f, user, c, v);
    }
  }

  /** All of this for one call. */
  lemma NewTable(mem: Memory, level: Levels, parent: Parents, kernel: nat, t: nat, i: nat, f: nat, user: bool)
    returns (level': Levels, parent': Parents)
    requires Sound(mem, level, parent, kernel)
    requires t in level && level[t] >= 2 && i < ENTRIES && t in mem && |mem[t]| == ENTRIES && !Present(mem[t][i])
    requires f !in mem && f % PAGE == 0
    ensures var mem' := LinkNew(mem, t, i, f, user);
      && Sound(mem', level', parent', kernel) && Kept(mem, mem') && mem'.Keys == mem.Keys + {f}
      && Step(mem', t, i) == f && !Huge(Word(mem', t, i))
      && (forall c: nat, v: nat :: IsPml4(level, c) ==> Translate(mem', c, v) == Translate(mem, c, v))
      && (level[t] > 2 ==> forall c: nat, v: nat :: IsPml4(level, c) ==> PdEntry(mem', c, v) == PdEntry(mem, c, v))
    ensures forall c: nat :: IsPml4(level', c) <==> IsPml4(level, c)
    ensures level' == level[f := level[t] - 1] && CanHang(mem, level, parent, kernel, t, i, f)
  {
    hide Translate, PdEntry, Kept, LinkNew;
    level', parent' := level[f := level[t] - 1], parent[f := Slot(t, i)];
    NewTableSound(mem, level, parent, kernel, t, i, f, user);
    hide Sound, Forest;
    NewTableMoves(mem, level, parent, kernel, t, i, f, user);
    LinkKeeps(mem, t, i, f, user);
  }

  /** A 2 MB entry in the PD of (ctx, virt) moves exactly the addresses of that 2 MB page. */
  lemma HugeMoves(mem: Memory, level: Levels, parent: Parents, kernel: nat, ctx: nat, virt: nat, pd: nat, e: nat)
    requires Sound(mem, level, parent, kernel) && IsPml4(level, ctx) && Present(e) && Huge(e)
    requires pd in level && level[pd] == 2 && Pd(mem, ctx, virt) == pd && pd in mem && I2(virt) < |mem[pd]|
    ensures forall c: nat, v: nat :: IsPml4(level, c) ==>
      Translate(SetWord(mem, pd, I2(virt), e), c, v) ==
        if SameHugePage(v, virt) && (c == ctx || I4(virt) >= KERNEL_SLOT) then HugeAddr(e) + v % HUGE_PAGE else Translate(mem, c, v)
  {
    hide Sound, Forest, Rooted, Shared, Translate, HugeAddr, Huge, Present, Pd, SameHugePage, SetWord, I2;
    SoundForest(mem, level, parent, kernel);
    SlotBound(virt);
    forall c: nat, v: nat | IsPml4(level, c)
      ensures Translate(SetWord(mem, pd, I2(virt), e), c, v) ==
        if SameHugePage(v, virt) && (c == ctx || I4(virt) >= KERNEL_SLOT) then HugeAddr(e) + v % HUGE_PAGE else Translate(mem, c, v)
    {
      HugeWalk(mem, level, parent, kernel, pd, I2(virt), e, c, v);
      SamePt(mem, level, parent, kernel, ctx, virt, c, v);
    }
  }

  /** A PT entry for (ctx, virt) moves exactly the addresses of that page. */
  lemma LeafMoves(mem: Memory, level: Levels, parent: Parents, kernel: nat, ctx: nat, virt: nat, pt: nat, e: nat)
    requires Sound(mem, level, parent, kernel) && IsPml4(level, ctx) && Present(e)
    requires pt in level && level[pt] == 1 && Pt(mem, ctx, virt) == pt && pt in mem && I1(virt) < |mem[pt]|
    ensures forall c: nat, v: nat :: IsPml4(level, c) ==>
      Translate(SetWord(mem, pt, I1(virt), e), c, v) ==
        if SamePage(v, virt) && (c == ctx || I4(virt) >= KERNEL_SLOT) then Addr(e) + v % PAGE else Translate(mem, c, v)
  {
    hide Sound, Forest, Rooted, Shared, Translate, Addr, Present, Pt, SamePage, SetWord, I1;
    SoundForest(mem, level, parent, kernel);
    SlotBound(virt);
    forall c: nat, v: nat | IsPml4(level, c)
      ensures Translate(SetWord(mem, pt, I1(virt), e), c, v) ==
        if SamePage(v, virt) && (c == ctx || I4(virt) >= KERNEL_SLOT) then Addr(e) + v % PAGE else Translate(mem, c, v)
    {
      LeafWalk(mem, level, parent, kernel, pt, I1(virt), e, c, v);
      SamePt(mem, level, parent, kernel, ctx, virt, c, v);
    }
  }

  // ---- A new address space ----

  /** An empty lower half under the kernel's kernel half. */
  function ProcessTable(mem: Memory, kernel: nat): (t: Table)
    requires kernel in mem && |mem[kernel]| == ENTRIES
    ensures |t| == ENTRIES
    ensures forall i :: 0 <= i < ENTRIES ==> t[i] == if i < KERNEL_SLOT then 0 else mem[kernel][i]
  {
    seq(ENTRIES, i requires 0 <= i < ENTRIES => if i < KERNEL_SLOT then 0 else mem[kernel][i])
  }

  lemma ProcessSound(mem: Memory, level: Levels, parent: Parents, kernel: nat, f: nat)
    requires Sound(mem, level, parent, kernel) && Filled(mem, level, parent, kernel)
    requires f !in mem && f % PAGE == 0
    ensures var mem', level' := mem[f := ProcessTable(mem, kernel)], level[f := 4];
      Sound(mem', level', parent, kernel) && Filled(mem', level', parent, kernel)
  {
    var mem', level' := mem[f := ProcessTable(mem, kernel)], level[f := 4];
    forall u, j | u in mem' && 0 <= j < ENTRIES ensures DownOk(mem', level', parent, kernel, u, j) {
      if u in mem { assert DownOk(mem, level, parent, kernel, u, j); }
      else { assert DownOk(mem, level, parent, kernel, kernel, j); }
    }
    forall c | c in parent ensures UpOk(mem', level', parent, kernel, c) {
      assert UpOk(mem, level, parent, kernel, c);
    }
  }

  lemma ProcessWalk(mem: Memory, level: Levels, parent: Parents, kernel: nat, f: nat, c: nat, v: nat)
    requires Forest(mem, level, parent, kernel) && f !in mem
    ensures var mem' := mem[f := ProcessTable(mem, kernel)];
      && (IsPml4(level, c) ==> Translate(mem', c, v) == Translate(mem, c, v))
      && Translate(mem', f, v) == if I4(v) < KERNEL_SLOT then 0 else Translate(mem, kernel, v)
  {
    var mem' := mem[f := ProcessTable(mem, kernel)];
    WalkFacts(mem, level, parent, kernel, kernel, v);
    if IsPml4(level, c) { WalkFacts(mem, level, parent, kernel, c, v); }
    assert Pdpt(mem', f, v) == if I4(v) < KERNEL_SLOT then NONE else Pdpt(mem, kernel, v);
  }

  lemma ProcessMoves(mem: Memory, level: Levels, parent: Parents, kernel: nat, f: nat)
    requires Sound(mem, level, parent, kernel) && f !in mem && kernel in mem && |mem[kernel]| == ENTRIES
    ensures var mem' := mem[f := ProcessTable(mem, kernel)];
      && (forall c: nat, v: nat :: IsPml4(level, c) ==> Translate(mem', c, v) == Translate(mem, c, v))
      && forall v: nat :: Translate(mem', f, v) == if I4(v) < KERNEL_SLOT then 0 else Translate(mem, kernel, v)
  {
    hide Sound, Forest, Rooted, Shared, Translate, ProcessTable;
    SoundForest(mem, level, parent, kernel);
    var mem' := mem[f := ProcessTable(mem, kernel)];
    forall c: nat, v: nat
      ensures IsPml4(level, c) ==> Translate(mem', c, v) == Translate(mem, c, v)
      ensures Translate(mem', f, v) == if I4(v) < KERNEL_SLOT then 0 else Translate(mem, kernel, v)
    {
      ProcessWalk(mem, level, parent, kernel, f, c, v);
    }
  }

  /** Every address space translates the kernel half as the kernel does. */
  lemma KernelHalfShared(mem: Memory, level: Levels, parent: Parents, kernel: nat, c: nat, v: nat)
    requires Sound(mem, level, parent, kernel) && IsPml4(level, c) && I4(v) >= KERNEL_SLOT
    ensures Translate(mem, c, v) == Translate(mem, kernel, v)
  {
    var i := I4(v);
    assert mem[c][i] == mem[kernel][i];
    SameSlot(mem, c, kernel, v);
  }
}
