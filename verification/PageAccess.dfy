/** What the tables grant: a page may be written, or touched by user code, only if every entry of its walk says so. */
module PageAccess {
  import opened PageRelease
  import opened PageTree
  import opened Powers

  datatype Right = Writing | UserMode

  /** Bit 1 of an entry lets the page be written, bit 2 lets user code touch it. */
  predicate Has(e: nat, r: Right) { if r == Writing then e / 2 % 2 == 1 else e / 4 % 2 == 1 }

  /** A fresh table grants writing in any case. */
  predicate Given(user: bool, r: Right) { r == Writing || user }

  /** The bit in the two upper entries of the walk. */
  predicate TopHas(mem: Memory, c: nat, v: nat, r: Right) {
    Has(Word(mem, c, I4(v)), r) && Has(Word(mem, Pdpt(mem, c, v), I3(v)), r)
  }

  /** The address is mapped, with the bit of the right in every entry of its walk. */
  predicate Grants(mem: Memory, c: nat, v: nat, r: Right) {
    var e := PdEntry(mem, c, v);
    && TopHas(mem, c, v, r) && Present(e) && Has(e, r)
    && (Huge(e) || var l := Word(mem, Pt(mem, c, v), I1(v)); Present(l) && Has(l, r))
  }

  /** The entries that lead to the tables already on the way to the PD of an address have the bit. */
  predicate TopGives(mem: Memory, c: nat, v: nat, r: Right) {
    && (Pdpt(mem, c, v) != NONE ==> Has(Word(mem, c, I4(v)), r))
    && (Pd(mem, c, v) != NONE ==> Has(Word(mem, Pdpt(mem, c, v), I3(v)), r))
  }

  /** The same for the way to its PT. */
  predicate TablesGive(mem: Memory, c: nat, v: nat, r: Right) {
    TopGives(mem, c, v, r) && (Pt(mem, c, v) != NONE ==> Has(PdEntry(mem, c, v), r))
  }

  ghost predicate SameAccess(level: Levels, mem: Memory, mem': Memory) {
    forall c: nat, v: nat, r: Right :: IsPml4(level, c) ==> Grants(mem', c, v, r) == Grants(mem, c, v, r)
  }

  /** The page of (ctx, virt), in the kernel half that of every address space, now grants the right or not; no other page changes. */
  ghost predicate SmallPageAccess(level: Levels, mem: Memory, mem': Memory, ctx: nat, virt: nat, r: Right, granted: bool) {
    forall c: nat, v: nat :: IsPml4(level, c) ==>
      Grants(mem', c, v, r) == if SamePage(v, virt) && (c == ctx || I4(virt) >= KERNEL_SLOT) then granted else Grants(mem, c, v, r)
  }

  ghost predicate HugePageAccess(level: Levels, mem: Memory, mem': Memory, ctx: nat, virt: nat, r: Right, granted: bool) {
    forall c: nat, v: nat :: IsPml4(level, c) ==>
      Grants(mem', c, v, r) == if SameHugePage(v, virt) && (c == ctx || I4(virt) >= KERNEL_SLOT) then granted else Grants(mem, c, v, r)
  }

  /** No page grants more or less than before, every frame is still there, and no table has been cut off. */
  ghost predicate Quiet(level: Levels, mem: Memory, pool: set<nat>, level': Levels, mem': Memory, pool': set<nat>) {
    && SameAccess(level', mem, mem') && (forall c: nat :: IsPml4(level', c) <==> IsPml4(level, c))
    && mem'.Keys + pool' == mem.Keys + pool && CutOffTables(level') == CutOffTables(level)
  }

  lemma QuietStart(level: Levels, mem: Memory, pool: set<nat>)
    ensures Quiet(level, mem, pool, level, mem, pool)
  {
  }

  lemma QuietStep(l0: Levels, m0: Memory, p0: set<nat>, l1: Levels, m1: Memory, p1: set<nat>,
                  l2: Levels, m2: Memory, p2: set<nat>)
    requires Quiet(l0, m0, p0, l1, m1, p1) && Quiet(l1, m1, p1, l2, m2, p2)
    ensures Quiet(l0, m0, p0, l2, m2, p2)
  {
    hide Grants, IsPml4, CutOffTables;
    SamePml4(l1, l2, m0, m1);
    SameBefore(l2, m0, m1, m2);
  }

  lemma QuietTable(mem: Memory, level: Levels, parent: Parents, kernel: nat, pool: set<nat>,
                   t: nat, i: nat, f: nat, user: bool, level': Levels)
    requires CanHang(mem, level, parent, kernel, t, i, f) && t in mem && i < |mem[t]| && f in pool
    requires level' == level[f := level[t] - 1] && f !in level
    requires forall c: nat :: IsPml4(level', c) <==> IsPml4(level, c)
    ensures Quiet(level, mem, pool, level', LinkNew(mem, t, i, f, user), pool - {f})
  {
    NewTableAccess(mem, level, parent, kernel, t, i, f, user);
    SamePml4(level, level', mem, LinkNew(mem, t, i, f, user));
    CutOffMore(level, f, level[t] - 1);
    hide Grants, IsPml4, CutOffTables, Forest, LinkNew, SameAccess;
  }

  lemma SamePml4(level: Levels, level': Levels, mem: Memory, mem': Memory)
    requires SameAccess(level, mem, mem') && forall c: nat :: IsPml4(level', c) <==> IsPml4(level, c)
    ensures SameAccess(level', mem, mem')
  {
  }

  lemma AccessAfter(level: Levels, m0: Memory, m1: Memory, m2: Memory, ctx: nat, virt: nat, r: Right, granted: bool)
    requires SameAccess(level, m0, m1)
    ensures SmallPageAccess(level, m1, m2, ctx, virt, r, granted) ==> SmallPageAccess(level, m0, m2, ctx, virt, r, granted)
    ensures HugePageAccess(level, m1, m2, ctx, virt, r, granted) ==> HugePageAccess(level, m0, m2, ctx, virt, r, granted)
  {
    hide Grants, SamePage, SameHugePage, IsPml4;
  }

  // ---- The two bits of an entry ----

  lemma LowHas(base: nat, f: nat, r: Right)
    requires base % PAGE == 0 && f < PAGE
    ensures Has(base + f, r) == Has(f, r)
  {
    var q := base / PAGE;
    if r == Writing {
      DivSum(2048 * q, 2, f);
      DivSum(1024 * q, 2, f / 2);
    } else {
      DivSum(1024 * q, 4, f);
      DivSum(512 * q, 2, f / 4);
    }
  }

  lemma TableHas(phys: nat, user: bool, r: Right)
    requires phys % PAGE == 0
    ensures Has(TableEntry(phys, user), r) == Given(user, r)
  {
    LowHas(phys, 3 + if user then PAGE_USER else 0, r);
  }

  /** Setting a bit that is not the one looked at. */
  lemma FlagHas(flags: nat, r: Right)
    requires flags < PAGE
    ensures Has(WithBit(flags, 1), r) == Has(flags, r) && Has(WithBit(WithBit(flags, 1), 128), r) == Has(flags, r)
  {
    hide WithBit;
    LowFlag(flags);
    HighFlag(WithBit(flags, 1));
  }

  lemma LowFlag(flags: nat)
    ensures WithBit(flags, 1) / 2 == flags / 2 && WithBit(flags, 1) / 4 == flags / 4
  {
    var q := flags / 2;
    assert WithBit(flags, 1) == 2 * q + 1;
    DivModIs(2 * q + 1, 4, q / 2, 2 * (q % 2) + 1);
    DivModIs(flags, 4, q / 2, 2 * (q % 2) + flags % 2);
  }

  lemma HighFlag(f: nat)
    ensures WithBit(f, 128) / 2 % 2 == f / 2 % 2 && WithBit(f, 128) / 4 % 2 == f / 4 % 2
  {
    if f / 128 % 2 == 0 {
      assert (f + 128) / 2 == f / 2 + 64;
      assert (f + 128) / 4 == f / 4 + 32;
    }
  }

  lemma LeafHas(phys: nat, flags: nat, r: Right)
    requires flags < PAGE
    ensures Has(LeafEntry(phys, flags), r) == Has(flags, r)
  {
    hide Has;
    FlagFacts(flags);
    FlagHas(flags, r);
    LowHas(Addr(phys), WithBit(flags, 1), r);
  }

  lemma HugeHas(phys: nat, flags: nat, r: Right)
    requires flags < PAGE
    ensures Has(HugeEntry(phys, flags), r) == Has(flags, r)
  {
    hide Has;
    FlagFacts(flags);
    FlagHas(flags, r);
    var q := phys / HUGE_PAGE;
    DivSum(512 * q, PAGE, 0);
    LowHas(HugeAddr(phys), WithBit(WithBit(flags, 1), 128), r);
  }

  // ---- Tables cut off ----

  /** The tables that no entry leads to any more. */
  function CutOffTables(level: Levels): set<nat> { set t | t in level && level[t] == 0 }

  lemma CutOffMore(level: Levels, t: nat, n: nat)
    requires t in level ==> level[t] > 0
    ensures CutOffTables(level[t := n]) == CutOffTables(level) + if n == 0 then {t} else {}
  {
  }

  /** No walk ever meets a table that was cut off. */
  lemma CutOffUnmet(mem: Memory, level: Levels, parent: Parents, kernel: nat, c: nat, v: nat, t: nat)
    requires Forest(mem, level, parent, kernel) && IsPml4(level, c) && t in CutOffTables(level)
    ensures !Meets(mem, c, v, t) && t !in parent
  {
    WalkFacts(mem, level, parent, kernel, c, v);
    assert t in parent ==> UpOk(mem, level, parent, kernel, t);
  }

  lemma NoneCutOffBelow(mem: Memory, level: Levels, parent: Parents, kernel: nat, t: nat)
    requires Forest(mem, level, parent, kernel) && Rooted(level, parent) && t in level
    ensures Below(mem, level, parent, kernel, t) <= mem.Keys
    ensures CutOffTables(level - Below(mem, level, parent, kernel, t)) == CutOffTables(level)
  {
    hide At;
  }

  // ---- The entries on a walk as tables are hung into it ----

  lemma SameBefore(level: Levels, m: Memory, m': Memory, m'': Memory)
    requires SameAccess(level, m, m') && SameAccess(level, m', m'')
    ensures SameAccess(level, m, m'')
  {
    hide Grants, IsPml4;
  }

  /** After both upper tables have been made on demand. */
  lemma TopSteps(m0: Memory, m1: Memory, m2: Memory, c: nat, v: nat, user: bool, r: Right)
    requires Kept(m1, m2) && Pdpt(m1, c, v) != NONE && Pd(m2, c, v) != NONE
    requires Pdpt(m0, c, v) != NONE ==> m1 == m0
    requires Pdpt(m0, c, v) == NONE ==> Has(Word(m1, c, I4(v)), r) == Given(user, r) && Word(m1, Pdpt(m1, c, v), I3(v)) == 0
    requires Pd(m1, c, v) == NONE ==> Has(Word(m2, Pdpt(m1, c, v), I3(v)), r) == Given(user, r)
    ensures TopHas(m2, c, v, r) <==> TopGives(m0, c, v, r) && (Given(user, r) || Pd(m0, c, v) != NONE)
  {
    hide Has;
    KeptWord(m1, m2, c, I4(v));
    if Pd(m1, c, v) != NONE { KeptWord(m1, m2, Pdpt(m1, c, v), I3(v)); }
  }

  /** After the PT has been made on demand as well. */
  lemma PtSteps(m0: Memory, m1: Memory, m2: Memory, c: nat, v: nat, user: bool, r: Right)
    requires Kept(m1, m2) && Pd(m1, c, v) != NONE && Present(PdEntry(m2, c, v))
    requires TopHas(m1, c, v, r) <==> TopGives(m0, c, v, r) && (Given(user, r) || Pd(m0, c, v) != NONE)
    requires PdEntry(m1, c, v) == PdEntry(m0, c, v) && !(Present(PdEntry(m0, c, v)) && Huge(PdEntry(m0, c, v)))
    requires !Present(PdEntry(m0, c, v)) ==> Has(Word(m2, Pd(m1, c, v), I2(v)), r) == Given(user, r)
    ensures TopHas(m2, c, v, r) && Has(PdEntry(m2, c, v), r) <==> TablesGive(m0, c, v, r) && (Given(user, r) || Pt(m0, c, v) != NONE)
  {
    hide Has;
    KeptWord(m1, m2, c, I4(v));
    KeptWord(m1, m2, Pdpt(m1, c, v), I3(v));
    if Present(PdEntry(m1, c, v)) { KeptWord(m1, m2, Pd(m1, c, v), I2(v)); }
  }

  lemma KeptWord(mem: Memory, mem': Memory, t: nat, i: nat)
    requires Kept(mem, mem') && Present(Word(mem, t, i))
    ensures Word(mem', t, i) == Word(mem, t, i)
  {
  }

  /** Hanging a fresh, empty table into an empty slot makes no page grant more or less. */
  lemma NewTableGrants(mem: Memory, level: Levels, parent: Parents, kernel: nat, t: nat, i: nat, f: nat, user: bool,
                       c: nat, v: nat, r: Right)
    requires CanHang(mem, level, parent, kernel, t, i, f) && IsPml4(level, c)
    ensures Grants(LinkNew(mem, t, i, f, user), c, v, r) == Grants(mem, c, v, r)
  {
    var mem' := LinkNew(mem, t, i, f, user);
    hide Forest, Has;
    TableFacts(f, user);
    WalkFacts(mem, level, parent, kernel, c, v);
    NewTableWords(mem, t, i, f, user);
    hide LinkNew;
    if Pdpt(mem, c, v) == NONE || Pd(mem, c, v) == NONE {
    } else {
    }
  }

  /** The words that are not new are as before, and the new ones but the link are 0. */
  lemma NewTableWords(mem: Memory, t: nat, i: nat, f: nat, user: bool)
    requires t in mem && i < |mem[t]| && f !in mem
    ensures var mem' := LinkNew(mem, t, i, f, user);
      && (forall u: nat, j: nat :: u in mem && !(u == t && i == j) ==> Word(mem', u, j) == Word(mem, u, j))
      && (forall j: nat :: Word(mem', f, j) == 0) && Word(mem', t, i) == TableEntry(f, user)
  {
  }

  lemma NewTableAccess(mem: Memory, level: Levels, parent: Parents, kernel: nat, t: nat, i: nat, f: nat, user: bool)
    requires CanHang(mem, level, parent, kernel, t, i, f)
    ensures SameAccess(level, mem, LinkNew(mem, t, i, f, user))
  {
    ForestFrames(mem, level, parent, kernel);
    hide Forest, Grants, LinkNew;
    forall c: nat, v: nat, r: Right | IsPml4(level, c)
      ensures Grants(LinkNew(mem, t, i, f, user), c, v, r) == Grants(mem, c, v, r)
    {
      NewTableGrants(mem, level, parent, kernel, t, i, f, user, c, v, r);
    }
  }

  lemma LeafWalkGrants(mem: Memory, level: Levels, parent: Parents, kernel: nat, t: nat, i: nat, e: nat, c: nat, v: nat, r: Right)
    requires Forest(mem, level, parent, kernel) && IsPml4(level, c)
    requires t in level && level[t] == 1 && i < ENTRIES
    ensures Grants(SetWord(mem, t, i, e), c, v, r) ==
      if Pt(mem, c, v) == t && I1(v) == i then TopHas(mem, c, v, r) && Has(PdEntry(mem, c, v), r) && Present(e) && Has(e, r)
      else Grants(mem, c, v, r)
  {
    hide Has;
    var mem' := SetWord(mem, t, i, e);
    WalkFacts(mem, level, parent, kernel, c, v);
    assert Pd(mem', c, v) == Pd(mem, c, v) && PdEntry(mem', c, v) == PdEntry(mem, c, v);
  }

  /** Addresses whose walks meet have the same entries above. */
  lemma SameTop(mem: Memory, level: Levels, parent: Parents, kernel: nat, c: nat, v: nat, d: nat, w: nat, r: Right)
    requires Forest(mem, level, parent, kernel) && Shared(mem, level, parent, kernel)
    requires IsPml4(level, c) && IsPml4(level, d)
    requires SameHugePage(w, v) && (d == c || I4(v) >= KERNEL_SLOT)
    ensures TopHas(mem, d, w, r) == TopHas(mem, c, v, r) && PdEntry(mem, d, w) == PdEntry(mem, c, v)
  {
    hide Has;
    assert c != d ==> mem[c][I4(v)] == mem[kernel][I4(v)] && mem[d][I4(v)] == mem[kernel][I4(v)];
    SameSlot(mem, c, d, v);
    assert Word(mem, d, I4(w)) == Word(mem, c, I4(v));
  }

  /** A PT entry for (ctx, virt) decides about exactly that page. */
  lemma LeafAccess(mem: Memory, level: Levels, parent: Parents, kernel: nat, ctx: nat, virt: nat, pt: nat, e: nat, r: Right)
    requires Sound(mem, level, parent, kernel) && IsPml4(level, ctx) && Present(e)
    requires pt in level && level[pt] == 1 && Pt(mem, ctx, virt) == pt && pt in mem && I1(virt) < |mem[pt]|
    ensures SmallPageAccess(level, mem, SetWord(mem, pt, I1(virt), e), ctx, virt, r,
                       TopHas(mem, ctx, virt, r) && Has(PdEntry(mem, ctx, virt), r) && Has(e, r))
  {
    hide Sound, Forest, Rooted, Shared, Grants, TopHas, Has, Present, Pt, SamePage, SetWord, I1, PdEntry;
    SoundForest(mem, level, parent, kernel);
    SlotBound(virt);
    forall c: nat, v: nat | IsPml4(level, c)
      ensures Grants(SetWord(mem, pt, I1(virt), e), c, v, r) ==
        if SamePage(v, virt) && (c == ctx || I4(virt) >= KERNEL_SLOT)
        then TopHas(mem, ctx, virt, r) && Has(PdEntry(mem, ctx, virt), r) && Has(e, r) else Grants(mem, c, v, r)
    {
      LeafWalkGrants(mem, level, parent, kernel, pt, I1(virt), e, c, v, r);
      SamePt(mem, level, parent, kernel, ctx, virt, c, v);
      if SamePage(v, virt) && (c == ctx || I4(virt) >= KERNEL_SLOT) {
        SamePageHuge(v, virt);
        SameTop(mem, level, parent, kernel, ctx, virt, c, v, r);
      }
    }
  }

  lemma SamePageHuge(v: nat, w: nat)
    requires SamePage(v, w)
    ensures SameHugePage(v, w)
  {
  }

  lemma HugeWalkGrants(mem: Memory, level: Levels, parent: Parents, kernel: nat, t: nat, i: nat, e: nat, c: nat, v: nat, r: Right)
    requires Forest(mem, level, parent, kernel) && IsPml4(level, c)
    requires t in level && level[t] == 2 && i < ENTRIES && Present(e) && Huge(e)
    ensures Grants(SetWord(mem, t, i, e), c, v, r) ==
      if Pd(mem, c, v) == t && I2(v) == i then TopHas(mem, c, v, r) && Has(e, r) else Grants(mem, c, v, r)
  {
    hide Has;
    WalkFacts(mem, level, parent, kernel, c, v);
    var mem' := SetWord(mem, t, i, e);
    assert Pd(mem', c, v) == Pd(mem, c, v);
  }

  /** A 2 MB entry in the PD of (ctx, virt) decides about exactly that 2 MB page. */
  lemma HugeAccess(mem: Memory, level: Levels, parent: Parents, kernel: nat, ctx: nat, virt: nat, pd: nat, e: nat, r: Right)
    requires Sound(mem, level, parent, kernel) && IsPml4(level, ctx) && Present(e) && Huge(e)
    requires pd in level && level[pd] == 2 && Pd(mem, ctx, virt) == pd && pd in mem && I2(virt) < |mem[pd]|
    ensures HugePageAccess(level, mem, SetWord(mem, pd, I2(virt), e), ctx, virt, r, TopHas(mem, ctx, virt, r) && Has(e, r))
  {
    hide Sound, Forest, Rooted, Shared, Grants, TopHas, Has, Huge, Present, Pd, SameHugePage, SetWord, I2, PdEntry;
    SoundForest(mem, level, parent, kernel);
    SlotBound(virt);
    forall c: nat, v: nat | IsPml4(level, c)
      ensures Grants(SetWord(mem, pd, I2(virt), e), c, v, r) ==
        if SameHugePage(v, virt) && (c == ctx || I4(virt) >= KERNEL_SLOT)
        then TopHas(mem, ctx, virt, r) && Has(e, r) else Grants(mem, c, v, r)
    {
      HugeWalkGrants(mem, level, parent, kernel, pd, I2(virt), e, c, v, r);
      SamePt(mem, level, parent, kernel, ctx, virt, c, v);
      if SameHugePage(v, virt) && (c == ctx || I4(virt) >= KERNEL_SLOT) {
        SameTop(mem, level, parent, kernel, ctx, virt, c, v, r);
      }
    }
  }

  lemma ProcessGrants(mem: Memory, level: Levels, parent: Parents, kernel: nat, f: nat, c: nat, v: nat, r: Right)
    requires Forest(mem, level, parent, kernel) && f !in mem
    ensures var mem' := mem[f := ProcessTable(mem, kernel)];
      && (IsPml4(level, c) ==> Grants(mem', c, v, r) == Grants(mem, c, v, r))
      && Grants(mem', f, v, r) == (I4(v) >= KERNEL_SLOT && Grants(mem, kernel, v, r))
  {
    hide Has;
    var mem' := mem[f := ProcessTable(mem, kernel)];
    WalkFacts(mem, level, parent, kernel, kernel, v);
    if IsPml4(level, c) { WalkFacts(mem, level, parent, kernel, c, v); }
    assert Pdpt(mem', f, v) == if I4(v) < KERNEL_SLOT then NONE else Pdpt(mem, kernel, v);
  }

  lemma ReleasedGrants(mem: Memory, level: Levels, parent: Parents, kernel: nat, t: nat, c: nat, v: nat, r: Right)
    requires Sound(mem, level, parent, kernel) && IsPml4(level, t) && t != kernel && IsPml4(level, c) && c != t
    ensures Grants(mem - Below(mem, level, parent, kernel, t), c, v, r) == Grants(mem, c, v, r)
  {
    hide Below, Meets, Word, Pdpt, Pd, PdEntry, Pt, Present, Huge, Has;
    NoneGone(mem, level, parent, kernel, t, c, v);
    WalkKept(mem, Below(mem, level, parent, kernel, t), c, v);
  }

  lemma AccessSame(level: Levels, mem: Memory)
    ensures SameAccess(level, mem, mem)
  {
  }

  lemma ProcessAccess(mem: Memory, level: Levels, parent: Parents, kernel: nat, f: nat)
    requires Sound(mem, level, parent, kernel) && f !in mem && kernel in mem && |mem[kernel]| == ENTRIES
    ensures var mem' := mem[f := ProcessTable(mem, kernel)];
      && SameAccess(level, mem, mem')
      && forall v: nat, r: Right :: Grants(mem', f, v, r) == (I4(v) >= KERNEL_SLOT && Grants(mem, kernel, v, r))
  {
    hide Sound, Forest, Rooted, Shared, Grants, ProcessTable;
    SoundForest(mem, level, parent, kernel);
    var mem' := mem[f := ProcessTable(mem, kernel)];
    forall c: nat, v: nat, r: Right
      ensures IsPml4(level, c) ==> Grants(mem', c, v, r) == Grants(mem, c, v, r)
      ensures Grants(mem', f, v, r) == (I4(v) >= KERNEL_SLOT && Grants(mem, kernel, v, r))
    {
      ProcessGrants(mem, level, parent, kernel, f, c, v, r);
    }
  }

  lemma ReleasedAccess(mem: Memory, level: Levels, parent: Parents, kernel: nat, t: nat)
    requires Sound(mem, level, parent, kernel) && IsPml4(level, t) && t != kernel
    requires Forest(mem, level, parent, kernel) && Rooted(level, parent)
    ensures var gone := Below(mem, level, parent, kernel, t);
      (forall c: nat :: IsPml4(level - gone, c) <==> c != t && IsPml4(level, c)) ==> SameAccess(level - gone, mem, mem - gone)
  {
    hide Sound, Forest, Rooted, Below, Grants;
    var gone := Below(mem, level, parent, kernel, t);
    forall c: nat, v: nat, r: Right | IsPml4(level, c) && c != t
      ensures Grants(mem - gone, c, v, r) == Grants(mem, c, v, r)
    {
      ReleasedGrants(mem, level, parent, kernel, t, c, v, r);
    }
  }

  lemma HugeAccessLevels(level: Levels, level': Levels, mem: Memory, mem': Memory, ctx: nat, virt: nat, r: Right, granted: bool)
    requires HugePageAccess(level, mem, mem', ctx, virt, r, granted) && forall c: nat :: IsPml4(level', c) <==> IsPml4(level, c)
    ensures HugePageAccess(level', mem, mem', ctx, virt, r, granted)
  {
    hide Grants, SameHugePage;
  }

  // ---- The PT behind a PD entry ----

  lemma SamePtEntry(m0: Memory, m1: Memory, c: nat, v: nat)
    requires PdEntry(m1, c, v) == PdEntry(m0, c, v)
    ensures Pt(m1, c, v) == Pt(m0, c, v)
  {
  }

  lemma PtIsCutOff(mem: Memory, c: nat, v: nat)
    requires Pd(mem, c, v) >= 0
    ensures CutOff(mem, Pd(mem, c, v), I2(v)) == Pt(mem, c, v)
  {
  }

  lemma TopOfPd(mem: Memory, c: nat, v: nat, r: Right)
    ensures Pd(mem, c, v) != NONE ==> (TopGives(mem, c, v, r) <==> TopHas(mem, c, v, r))
  {
  }

  lemma CutOffOne(level: Levels, p: nat)
    requires p in level && level[p] == 1
    ensures CutOffTables(level[p := 0]) == CutOffTables(level) + {p} && p !in CutOffTables(level)
  {
  }

  // ---- The words written ----

  lemma TableWord(phys: nat, user: bool)
    requires phys % PAGE == 0
    ensures TableEntry(phys, user) == phys + if user then 7 else 3
    ensures forall r: Right :: Has(TableEntry(phys, user), r) == Given(user, r)
  {
    TableHas(phys, user, Writing);
    TableHas(phys, user, UserMode);
  }

  lemma LeafWord(phys: nat, flags: nat)
    ensures LeafEntry(phys, flags) == phys - phys % 0x1000 + flags + 1 - flags % 2
  {
  }

  lemma HugeWord(phys: nat, flags: nat)
    ensures HugeEntry(phys, flags)
      == phys - phys % 0x20_0000 + flags + (1 - flags % 2) + if flags / 128 % 2 == 1 then 0 else 128
    ensures HugeAddr(phys) == phys - phys % 0x20_0000
  {
    var f := WithBit(flags, 1);
    assert f == flags + (1 - flags % 2) && f / 128 == flags / 128;
  }

  /** Every entry that was present is as it was, but for one. */
  ghost predicate KeptBut(mem: Memory, mem': Memory, t: int, i: nat) {
    forall u: nat, j: nat :: Present(Word(mem, u, j)) && !(u == t && i == j) ==> Word(mem', u, j) == Word(mem, u, j)
  }

  lemma KeptTwice(m0: Memory, m1: Memory, m2: Memory)
    requires Kept(m0, m1) && Kept(m1, m2)
    ensures Kept(m0, m2)
  {
  }

  lemma KeptThenSet(m0: Memory, m1: Memory, t: nat, i: nat, e: nat)
    requires Kept(m0, m1) && t in m1 && i < |m1[t]|
    ensures KeptBut(m0, SetWord(m1, t, i, e), t, i) && Word(SetWord(m1, t, i, e), t, i) == e
  {
    hide Present;
  }

  lemma SamePtAfter(mem: Memory, level: Levels, parent: Parents, kernel: nat, c: nat, v: nat, pt: nat, e: nat)
    requires Forest(mem, level, parent, kernel) && IsPml4(level, c)
    requires pt in level && level[pt] == 1 && Pt(mem, c, v) == pt && pt in mem && I1(v) < |mem[pt]|
    ensures Pt(SetWord(mem, pt, I1(v), e), c, v) == pt
  {
    WalkFacts(mem, level, parent, kernel, c, v);
    var mem' := SetWord(mem, pt, I1(v), e);
    assert Pd(mem', c, v) == Pd(mem, c, v) && PdEntry(mem', c, v) == PdEntry(mem, c, v);
  }

  lemma SamePdAfter(mem: Memory, level: Levels, parent: Parents, kernel: nat, c: nat, v: nat, pd: nat, e: nat)
    requires Forest(mem, level, parent, kernel) && IsPml4(level, c)
    requires pd in level && level[pd] == 2 && Pd(mem, c, v) == pd && pd in mem && I2(v) < |mem[pd]|
    ensures Pd(SetWord(mem, pd, I2(v), e), c, v) == pd && PdEntry(SetWord(mem, pd, I2(v), e), c, v) == e
  {
    WalkFacts(mem, level, parent, kernel, c, v);
    var mem' := SetWord(mem, pd, I2(v), e);
    assert Pdpt(mem', c, v) == Pdpt(mem, c, v);
  }
}
