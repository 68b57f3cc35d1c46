/** The page-table operations of src/kernel/PageTable.cpp on all address spaces at once.
    A frame enters `mem` when the allocator hands it out for a table and leaves it when it
    is freed, so touching a freed table or freeing one twice would not verify. */
module PageTable {
  import opened PageAccess
  import opened PageTree
  import opened PageRelease

  class PageTables {
    var mem: Memory
    var pool: set<nat>            // frames the allocator can still hand out
    const kernel: nat             // the kernel's PML4
    ghost var level: Levels
    ghost var parent: Parents

    ghost predicate Valid()
      reads this
    {
      && Sound(mem, level, parent, kernel)
      && (forall f :: f in pool ==> f !in mem && f % PAGE == 0)
    }

    /** The frames there are, in use as tables or still to be handed out. */
    ghost function AllFrames(): set<nat>
      reads `mem, `pool
    {
      mem.Keys + pool
    }

    /** Tables that were cut off by a 2 MB mapping: still in use, but nothing leads to them. */
    ghost function Lost(): set<nat>
      reads `level
    {
      CutOffTables(level)
    }

    /** malloc(4096) for a table, zeroed. The caller makes sure a frame is left. */
    method TakeFrame() returns (f: nat)
      requires pool != {}
      modifies this`pool
      ensures f in old(pool) && pool == old(pool) - {f}
    {
      f :| f in pool;
      pool := pool - {f};
    }

    method GetOrCreateTable(t: nat, i: nat, user: bool) returns (c: nat)
      requires Valid() && t in level && 2 <= level[t] && i < ENTRIES
      requires level[t] == 2 ==> !(Present(Word(mem, t, i)) && Huge(Word(mem, t, i)))
      requires !Present(Word(mem, t, i)) ==> pool != {}
      modifies this
      ensures Valid()
      ensures c in level && level[c] == old(level)[t] - 1 && Step(mem, t, i) == c
      ensures old(level)[t] == 2 ==> !Huge(Word(mem, t, i))
      ensures level.Keys == old(level).Keys + {c} && forall u :: u in old(level) ==> level[u] == old(level)[u]
      ensures Kept(old(mem), mem) && forall d: nat :: IsPml4(level, d) <==> old(IsPml4(level, d))
      ensures old(Present(Word(mem, t, i))) ==> mem == old(mem) && pool == old(pool)
      ensures !old(Present(Word(mem, t, i))) ==> |pool| == |old(pool)| - 1
      ensures forall j: nat :: j != i ==> Word(mem, t, j) == old(Word(mem, t, j))
      ensures forall d: nat, v: nat :: IsPml4(level, d) ==> Translate(mem, d, v) == old(Translate(mem, d, v))
      ensures old(level)[t] > 2 ==> forall d: nat, v: nat :: IsPml4(level, d) ==> PdEntry(mem, d, v) == old(PdEntry(mem, d, v))
      ensures !old(Present(Word(mem, t, i))) ==>
        Word(mem, t, i) == c + (if user then 7 else 3) && forall j: nat :: Word(mem, c, j) == 0
      ensures !old(Present(Word(mem, t, i))) ==> forall r: Right :: Has(Word(mem, t, i), r) == Given(user, r)
      ensures Quiet(old(level), old(mem), old(pool), level, mem, pool)
    {
      hide Sound, Forest, Rooted, Shared, CanHang, Translate, PdEntry, Present, Huge, Addr, LinkNew, IsPml4, Kept;
      hide Has, TableEntry, Quiet;
      SoundForest(mem, level, parent, kernel);
      ReadSlot(mem, level, parent, kernel, t, i);
      if Present(mem[t][i]) {
        KeptSame(mem);
        QuietStart(level, mem, pool);
        return Addr(mem[t][i]);
      }
      c := TakeFrame();
      LinkOthers(mem, t, i, c, user);
      LinkWords(mem, t, i, c, user);
      TableWord(c, user);
      ghost var level', parent' := NewTable(mem, level, parent, kernel, t, i, c, user);
      QuietTable(mem, level, parent, kernel, old(pool), t, i, c, user, level');
      mem := LinkNew(mem, t, i, c, user);
      level, parent := level', parent';
    }

    /** The PD of an address, made on demand. */
    method MakePd(ctx: nat, virt: nat, user: bool) returns (pd: nat)
      requires Valid() && IsPml4(level, ctx) && |pool| >= MissingPd(mem, ctx, virt)
      modifies this
      ensures Valid() && pd in level && level[pd] == 2 && Pd(mem, ctx, virt) == pd
      ensures |pool| >= |old(pool)| - old(MissingPd(mem, ctx, virt))
      ensures forall c :: IsPml4(level, c) <==> old(IsPml4(level, c))
      ensures forall d: nat, v: nat :: IsPml4(level, d) ==>
        Translate(mem, d, v) == old(Translate(mem, d, v)) && PdEntry(mem, d, v) == old(PdEntry(mem, d, v))
      ensures TopHas(mem, ctx, virt, Writing) <==> old(TopGives(mem, ctx, virt, Writing))
      ensures TopHas(mem, ctx, virt, UserMode) <==>
              old(TopGives(mem, ctx, virt, UserMode)) && (user || old(Pd(mem, ctx, virt)) != NONE)
      ensures Quiet(old(level), old(mem), old(pool), level, mem, pool) && Kept(old(mem), mem)
    {
      hide Sound, Translate, PdEntry, Present, Addr, Word, Kept, Step, Has, TopHas, TopGives, Quiet;
      StepPresent(mem, ctx, I4(virt));
      ghost var m0 := mem;
      var pdpt := GetOrCreateTable(ctx, I4(virt), user);
      assert Pdpt(mem, ctx, virt) == pdpt;
      StepPresent(mem, pdpt, I3(virt));
      ghost var m, lev, p := mem, level, pool;
      pd := GetOrCreateTable(pdpt, I3(virt), user);
      KeptSteps(m, mem, ctx, virt);
      TopSteps(m0, m, mem, ctx, virt, user, Writing);
      TopSteps(m0, m, mem, ctx, virt, user, UserMode);
      KeptTwice(m0, m, mem);
      QuietStep(old(level), m0, old(pool), lev, m, p, level, mem, pool);
    }

    /** Maps one 4 KB page: exactly that page of the address space, or of every address
        space when it lies in the kernel half, now translates to the new frame. */
    method MapPage4KB(ctx: nat, virt: nat, phys: nat, flags: nat)
      requires Valid() && IsPml4(level, ctx) && flags < PAGE
      requires !(Present(PdEntry(mem, ctx, virt)) && Huge(PdEntry(mem, ctx, virt)))
      requires |pool| >= MissingPt(mem, ctx, virt)
      modifies this
      ensures Valid() && forall c :: IsPml4(level, c) <==> old(IsPml4(level, c))
      ensures forall c: nat, v: nat :: IsPml4(level, c) ==>
        Translate(mem, c, v) ==
          if SamePage(v, virt) && (c == ctx || I4(virt) >= 256) then phys - phys % 0x1000 + v % 0x1000
          else old(Translate(mem, c, v))
      ensures SmallPageAccess(level, old(mem), mem, ctx, virt, Writing, Has(flags, Writing) && old(TablesGive(mem, ctx, virt, Writing)))
      ensures SmallPageAccess(level, old(mem), mem, ctx, virt, UserMode, Has(flags, UserMode) && old(TablesGive(mem, ctx, virt, UserMode)))
      ensures Pt(mem, ctx, virt) >= 0
      ensures Word(mem, Pt(mem, ctx, virt), I1(virt)) == phys - phys % 0x1000 + flags + 1 - flags % 2
      ensures KeptBut(old(mem), mem, Pt(mem, ctx, virt), I1(virt))
      ensures AllFrames() == old(AllFrames()) && Lost() == old(Lost())
    {
      hide Sound, Forest, Translate, LeafEntry, Has, SmallPageAccess, SameAccess, TablesGive, CutOffTables, TopHas, IsPml4, Kept, KeptBut;
      var pt := MakePt(ctx, virt, Has(flags, UserMode));
      var e := LeafEntry(phys, flags);
      LeafFacts(phys, flags);
      LeafWord(phys, flags);
      LeafHas(phys, flags, Writing);
      LeafHas(phys, flags, UserMode);
      ghost var m := mem;
      WriteLeaf(ctx, virt, pt, e);
      AccessAfter(level, old(mem), m, mem, ctx, virt, Writing, Has(flags, Writing) && old(TablesGive(mem, ctx, virt, Writing)));
      AccessAfter(level, old(mem), m, mem, ctx, virt, UserMode, Has(flags, UserMode) && old(TablesGive(mem, ctx, virt, UserMode)));
      KeptThenSet(old(mem), m, pt, I1(virt), e);
    }

    /** The PT of an address, made on demand. */
    method MakePt(ctx: nat, virt: nat, user: bool) returns (pt: nat)
      requires Valid() && IsPml4(level, ctx) && |pool| >= MissingPt(mem, ctx, virt)
      requires !(Present(PdEntry(mem, ctx, virt)) && Huge(PdEntry(mem, ctx, virt)))
      modifies this
      ensures Valid() && pt in level && level[pt] == 1 && Pt(mem, ctx, virt) == pt
      ensures forall c :: IsPml4(level, c) <==> old(IsPml4(level, c))
      ensures forall d: nat, v: nat :: IsPml4(level, d) ==> Translate(mem, d, v) == old(Translate(mem, d, v))
      ensures TopHas(mem, ctx, virt, Writing) && Has(PdEntry(mem, ctx, virt), Writing) <==> old(TablesGive(mem, ctx, virt, Writing))
      ensures TopHas(mem, ctx, virt, UserMode) && Has(PdEntry(mem, ctx, virt), UserMode) <==>
              old(TablesGive(mem, ctx, virt, UserMode)) && (user || old(Pt(mem, ctx, virt)) != NONE)
      ensures Quiet(old(level), old(mem), old(pool), level, mem, pool) && Kept(old(mem), mem)
    {
      hide Sound, Forest, Translate, Huge, Addr, Present, Word, Kept, Has, TopGives, TablesGive, TopHas, Quiet;
      ghost var m0 := mem;
      var pd := MakePd(ctx, virt, user);
      ghost var m, lev, p := mem, level, pool;
      assert PdEntry(m, ctx, virt) == Word(m, pd, I2(virt));
      pt := GetOrCreateTable(pd, I2(virt), user);
      KeptSteps(m, mem, ctx, virt);
      assert Pt(mem, ctx, virt) == pt;
      StepPresent(mem, pd, I2(virt));
      PtSteps(m0, m, mem, ctx, virt, user, Writing);
      PtSteps(m0, m, mem, ctx, virt, user, UserMode);
      KeptTwice(m0, m, mem);
      QuietStep(old(level), m0, old(pool), lev, m, p, level, mem, pool);
    }

    method WriteLeaf(ctx: nat, virt: nat, pt: nat, e: nat)
      requires Valid() && IsPml4(level, ctx) && Present(e)
      requires pt in level && level[pt] == 1 && Pt(mem, ctx, virt) == pt
      modifies this`mem
      ensures Valid()
      ensures forall c: nat, v: nat :: IsPml4(level, c) ==>
        Translate(mem, c, v) ==
          if SamePage(v, virt) && (c == ctx || I4(virt) >= KERNEL_SLOT) then Addr(e) + v % PAGE
          else old(Translate(mem, c, v))
      ensures forall r: Right :: SmallPageAccess(level, old(mem), mem, ctx, virt, r,
                         old(TopHas(mem, ctx, virt, r)) && Has(old(PdEntry(mem, ctx, virt)), r) && Has(e, r))
      ensures pt in old(mem) && I1(virt) < |old(mem)[pt]| && mem == SetWord(old(mem), pt, I1(virt), e)
      ensures Pt(mem, ctx, virt) == pt
    {
      hide Sound, Forest, Rooted, Shared, Translate, Addr, Present, Pt, SamePage, SetWord, I1, I4, Has, TopHas, SmallPageAccess, PdEntry;
      SoundForest(mem, level, parent, kernel);
      SlotBound(virt);
      ReadSlot(mem, level, parent, kernel, pt, I1(virt));
      LeafMoves(mem, level, parent, kernel, ctx, virt, pt, e);
      forall r: Right
        ensures SmallPageAccess(level, mem, SetWord(mem, pt, I1(virt), e), ctx, virt, r,
                                TopHas(mem, ctx, virt, r) && Has(PdEntry(mem, ctx, virt), r) && Has(e, r))
      {
        LeafAccess(mem, level, parent, kernel, ctx, virt, pt, e, r);
      }
      SamePtAfter(mem, level, parent, kernel, ctx, virt, pt, e);
      LeafSound(mem, level, parent, kernel, pt, I1(virt), e);
      mem := SetWord(mem, pt, I1(virt), e);
    }

    /** Maps one 2 MB page; a PT its slot led to is cut off. */
    method MapPage2MB(ctx: nat, virt: nat, phys: nat, flags: nat)
      requires Valid() && IsPml4(level, ctx) && flags < PAGE && |pool| >= MissingPd(mem, ctx, virt)
      modifies this
      ensures Valid() && forall c :: IsPml4(level, c) <==> old(IsPml4(level, c))
      ensures forall c: nat, v: nat :: IsPml4(level, c) ==>
        Translate(mem, c, v) ==
          if SameHugePage(v, virt) && (c == ctx || I4(virt) >= 256) then phys - phys % 0x20_0000 + v % 0x20_0000
          else old(Translate(mem, c, v))
      ensures HugePageAccess(level, old(mem), mem, ctx, virt, Writing, Has(flags, Writing) && old(TopGives(mem, ctx, virt, Writing)))
      ensures HugePageAccess(level, old(mem), mem, ctx, virt, UserMode,
                             Has(flags, UserMode) && old(Pd(mem, ctx, virt)) != NONE && old(TopHas(mem, ctx, virt, UserMode)))
      ensures Pd(mem, ctx, virt) >= 0
      ensures PdEntry(mem, ctx, virt)
        == phys - phys % 0x20_0000 + flags + (1 - flags % 2) + if flags / 128 % 2 == 1 then 0 else 128
      ensures KeptBut(old(mem), mem, Pd(mem, ctx, virt), I2(virt))
      ensures AllFrames() == old(AllFrames())
      ensures var p := old(Pt(mem, ctx, virt));
              Lost() == old(Lost()) + (if p >= 0 then {p as nat} else {}) && (p >= 0 ==> p as nat !in old(Lost()))
    {
      hide Sound, Translate, HugeEntry, HugeAddr, Huge, Present, Pd, Pt, SameHugePage, Has, TopHas, TopGives, SameAccess;
      hide HugePageAccess, CutOffTables, PdEntry, IsPml4, Kept, KeptBut;
      ghost var m0 := mem;
      var pd := MakePd(ctx, virt, false);
      HugeFacts(phys, flags);
      HugeWord(phys, flags);
      HugeHas(phys, flags, Writing);
      HugeHas(phys, flags, UserMode);
      ghost var m, lev := mem, level;
      SamePtEntry(m0, m, ctx, virt);
      TopOfPd(m0, ctx, virt, UserMode);
      WriteHuge(ctx, virt, pd, HugeEntry(phys, flags));
      SamePml4(lev, level, m0, m);
      AccessAfter(level, m0, m, mem, ctx, virt, Writing, Has(flags, Writing) && old(TopGives(mem, ctx, virt, Writing)));
      AccessAfter(level, m0, m, mem, ctx, virt, UserMode,
                  Has(flags, UserMode) && old(Pd(mem, ctx, virt)) != NONE && old(TopHas(mem, ctx, virt, UserMode)));
      KeptThenSet(m0, m, pd, I2(virt), HugeEntry(phys, flags));
    }

    method WriteHuge(ctx: nat, virt: nat, pd: nat, e: nat)
      requires Valid() && IsPml4(level, ctx) && Present(e) && Huge(e)
      requires pd in level && level[pd] == 2 && Pd(mem, ctx, virt) == pd
      modifies this`mem, this`level, this`parent
      ensures Valid() && forall c :: IsPml4(level, c) <==> old(IsPml4(level, c))
      ensures forall c: nat, v: nat :: IsPml4(level, c) ==>
        Translate(mem, c, v) ==
          if SameHugePage(v, virt) && (c == ctx || I4(virt) >= KERNEL_SLOT) then HugeAddr(e) + v % HUGE_PAGE
          else old(Translate(mem, c, v))
      ensures forall r: Right :: HugePageAccess(level, old(mem), mem, ctx, virt, r, old(TopHas(mem, ctx, virt, r)) && Has(e, r))
      ensures pd in old(mem) && I2(virt) < |old(mem)[pd]| && mem == SetWord(old(mem), pd, I2(virt), e)
      ensures Pd(mem, ctx, virt) == pd && PdEntry(mem, ctx, virt) == e
      ensures var p := old(Pt(mem, ctx, virt));
              Lost() == old(Lost()) + (if p >= 0 then {p as nat} else {}) && (p >= 0 ==> p as nat !in old(Lost()))
    {
      hide Sound, Forest, Rooted, Shared, Translate, HugeAddr, Addr, Huge, Present, Pd, SameHugePage, SetWord, CutOff, I2, I4, IsPml4;
      hide Has, TopHas, HugePageAccess, CutOffTables, Pt, PdEntry;
      SoundForest(mem, level, parent, kernel);
      SlotBound(virt);
      ReadSlot(mem, level, parent, kernel, pd, I2(virt));
      HugeMoves(mem, level, parent, kernel, ctx, virt, pd, e);
      PtIsCutOff(mem, ctx, virt);
      ghost var level', parent' := HugeSound(mem, level, parent, kernel, pd, I2(virt), e);
      ghost var p := Pt(mem, ctx, virt);
      if p >= 0 { CutOffOne(level, p); }
      forall r: Right
        ensures HugePageAccess(level', mem, SetWord(mem, pd, I2(virt), e), ctx, virt, r, TopHas(mem, ctx, virt, r) && Has(e, r))
      {
        HugeAccess(mem, level, parent, kernel, ctx, virt, pd, e, r);
        HugeAccessLevels(level, level', mem, SetWord(mem, pd, I2(virt), e), ctx, virt, r, TopHas(mem, ctx, virt, r) && Has(e, r));
      }
      SamePdAfter(mem, level, parent, kernel, ctx, virt, pd, e);
      mem := SetWord(mem, pd, I2(virt), e);
      level, parent := level', parent';
    }

    /** virtToPhys */
    method VirtToPhys(ctx: nat, virt: nat) returns (phys: nat)
      requires Valid() && IsPml4(level, ctx)
      ensures phys == Translate(mem, ctx, virt)
    {
      WalkFacts(mem, level, parent, kernel, ctx, virt);
      var e4 := mem[ctx][I4(virt)];
      if !Present(e4) {
        return 0;
      }
      var pdpt := Addr(e4);
      var e3 := mem[pdpt][I3(virt)];
      if !Present(e3) {
        return 0;
      }
      var pd := Addr(e3);
      var e2 := mem[pd][I2(virt)];
      if !Present(e2) {
        return 0;
      }
      if Huge(e2) {
        return HugeAddr(e2) + virt % HUGE_PAGE;
      }
      var pt := Addr(e2);
      var e1 := mem[pt][I1(virt)];
      if !Present(e1) {
        return 0;
      }
      return Addr(e1) + virt % PAGE;
    }

    /** createProcessPageTable: nothing in the lower half, the kernel's upper half. */
    method CreateProcessPageTable() returns (ctx: nat)
      requires Valid() && Filled(mem, level, parent, kernel) && pool != {}
      modifies this
      ensures Valid() && Filled(mem, level, parent, kernel)
      ensures !old(IsPml4(level, ctx)) && forall c :: IsPml4(level, c) <==> c == ctx || old(IsPml4(level, c))
      ensures forall v: nat :: Translate(mem, ctx, v) == if I4(v) < 256 then 0 else old(Translate(mem, kernel, v))
      ensures forall c: nat, v: nat :: old(IsPml4(level, c)) ==> Translate(mem, c, v) == old(Translate(mem, c, v))
      ensures forall v: nat, r: Right :: Grants(mem, ctx, v, r) == (I4(v) >= 256 && old(Grants(mem, kernel, v, r)))
      ensures SameAccess(old(level), old(mem), mem) && AllFrames() == old(AllFrames()) && Lost() == old(Lost())
    {
      hide Sound, Forest, Filled, Translate, Grants, SameAccess, CutOffTables, ProcessTable;
      KernelTable();
      ctx := TakeFrame();
      ProcessSound(mem, level, parent, kernel, ctx);
      ProcessMoves(mem, level, parent, kernel, ctx);
      ProcessAccess(mem, level, parent, kernel, ctx);
      CutOffMore(level, ctx, 4);
      var words := KernelHalf();
      mem := mem[ctx := words];
      level := level[ctx := 4];
    }

    lemma KernelTable()
      requires Valid()
      ensures kernel in mem && |mem[kernel]| == ENTRIES && mem.Keys == level.Keys
    {
    }

    /** An empty lower half and a copy of the kernel half. */
    method KernelHalf() returns (words: Table)
      requires Valid() && kernel in mem && |mem[kernel]| == ENTRIES
      ensures words == ProcessTable(mem, kernel)
    {
      hide Sound;
      words := Empty();
      var i := KERNEL_SLOT;
      while i < ENTRIES
        invariant KERNEL_SLOT <= i <= ENTRIES && |words| == ENTRIES
        invariant forall j :: 0 <= j < i ==> words[j] == ProcessTable(mem, kernel)[j]
        invariant forall j :: i <= j < ENTRIES ==> words[j] == 0
      {
        words := words[i := mem[kernel][i]];
        i := i + 1;
      }
      assert words == ProcessTable(mem, kernel);
    }

    /** syncKernelMappings finds nothing to copy. */
    method SyncKernelMappings(proc: nat)
      requires Valid() && IsPml4(level, proc)
      modifies this`mem
      ensures Valid() && mem == old(mem)
    {
      var i := KERNEL_SLOT;
      while i < ENTRIES
        invariant mem == old(mem) && Valid()
      {
        assert mem[proc][i] == mem[kernel][i];
        var words: Table := mem[proc][i := mem[kernel][i]];
        assert words == mem[proc];
        mem := mem[proc := words];
        assert mem == old(mem);
        i := i + 1;
      }
    }

    constructor (kernelPml4: nat, frames: set<nat>)
      requires kernelPml4 % PAGE == 0 && kernelPml4 !in frames && forall f :: f in frames ==> f % PAGE == 0
      ensures Valid() && kernel == kernelPml4 && pool == frames
      ensures forall c :: IsPml4(level, c) <==> c == kernel
      ensures forall v: nat :: Translate(mem, kernel, v) == 0
      ensures AllFrames() == frames + {kernelPml4} && Lost() == {}
    {
      kernel, pool := kernelPml4, frames;
      mem := map[kernelPml4 := Empty()];
      level, parent := map[kernelPml4 := 4], map[];
    }

    /** The last step of the boot loader: every kernel-half slot gets a table. */
    method FillKernelHalf()
      requires Valid() && Alone(level, kernel) && |pool| >= Empties(mem, kernel, KERNEL_SLOT)
      modifies this
      ensures Valid() && Filled(mem, level, parent, kernel)
      ensures forall c :: IsPml4(level, c) <==> c == kernel
      ensures forall v: nat :: Translate(mem, kernel, v) == old(Translate(mem, kernel, v))
      ensures Quiet(old(level), old(mem), old(pool), level, mem, pool)
    {
      hide Sound, Forest, Filled, Translate, Present, Empties, Word, Quiet, Alone;
      var i := KERNEL_SLOT;
      QuietStart(level, mem, pool);
      while i < ENTRIES
        invariant KERNEL_SLOT <= i <= ENTRIES && Valid() && Alone(level, kernel) && |pool| >= Empties(mem, kernel, i)
        invariant forall j: nat :: KERNEL_SLOT <= j < i ==> Present(Word(mem, kernel, j))
        invariant forall v: nat :: Translate(mem, kernel, v) == old(Translate(mem, kernel, v))
        invariant Quiet(old(level), old(mem), old(pool), level, mem, pool)
      {
        ghost var m, lev, p := mem, level, pool;
        FillSlot(i);
        QuietStep(old(level), old(mem), old(pool), lev, m, p, level, mem, pool);
        i := i + 1;
      }
      AllPresent();
    }

    method FillSlot(i: nat)
      requires Valid() && Alone(level, kernel) && KERNEL_SLOT <= i < ENTRIES && |pool| >= Empties(mem, kernel, i)
      modifies this
      ensures Valid() && Alone(level, kernel) && |pool| >= Empties(mem, kernel, i + 1)
      ensures Present(Word(mem, kernel, i)) && forall j: nat :: j != i ==> Word(mem, kernel, j) == old(Word(mem, kernel, j))
      ensures forall v: nat :: Translate(mem, kernel, v) == old(Translate(mem, kernel, v))
      ensures Quiet(old(level), old(mem), old(pool), level, mem, pool)
    {
      hide Sound, Forest, Translate, Huge, Addr, Kept, Step, Present, Empties, Word, Quiet, Has, Alone;
      ghost var m, lev := mem, level;
      KernelRoot();
      EmptiesStep(mem, kernel, i);
      StepPresent(mem, kernel, i);
      var t := GetOrCreateTable(kernel, i, false);
      StepPresent(mem, kernel, i);
      SameEmpties(m, mem, kernel, i + 1);
      AloneKept(lev, level, kernel);
    }

    lemma KernelRoot()
      requires Valid()
      ensures kernel in level && level[kernel] == 4 && IsPml4(level, kernel)
    {
    }

    lemma AllPresent()
      requires Valid() && Alone(level, kernel)
      requires forall j: nat :: KERNEL_SLOT <= j < ENTRIES ==> Present(Word(mem, kernel, j))
      ensures Filled(mem, level, parent, kernel)
      ensures forall c :: IsPml4(level, c) <==> c == kernel
    {
      assert forall j: nat :: KERNEL_SLOT <= j < ENTRIES ==> Word(mem, kernel, j) == mem[kernel][j];
    }

    /** The tables of `M` without those in `F`, whose frames went back to the pool `P`. */
    ghost predicate Partly(M: Memory, F: set<nat>, P: set<nat>)
      reads this
    {
      Sound(M, level, parent, kernel) && mem == M - F && pool == P + F
    }

    /** free of a table page, which must still be in use. */
    method FreeFrame(f: nat)
      requires f in mem
      modifies this`mem, this`pool
      ensures mem == old(mem) - {f} && pool == old(pool) + {f}
    {
      mem := mem - {f};
      pool := pool + {f};
    }

    /** The innermost loop of freePageTable, and the free after it. */
    method ReleasePd(pd: nat, ghost M: Memory, ghost F: set<nat>, ghost P: set<nat>)
      requires Partly(M, F, P) && pd in level && level[pd] == 2
      requires Forest(M, level, parent, kernel) && Rooted(level, parent)
      requires Below(M, level, parent, kernel, pd) !! F
      modifies this`mem, this`pool
      ensures Partly(M, F + Below(M, level, parent, kernel, pd), P)
    {
      hide Sound, Forest, Rooted, Below, Before, Present, Huge, Addr;
      BelowFacts(M, level, parent, kernel, pd, 0);
      var i := 0;
      while i < ENTRIES
        invariant 0 <= i <= ENTRIES && Partly(M, F + Before(M, level, parent, kernel, pd, i), P)
      {
        BelowFacts(M, level, parent, kernel, pd, i);
        ReadSlot(M, level, parent, kernel, pd, i);
        BeforeStep(M, level, parent, kernel, pd, i);
        BelowFacts(M, level, parent, kernel, pd, i + 1);
        var e := mem[pd][i];
        i := i + 1;
        if !Present(e) {
          continue;
        }
        if Huge(e) {
          continue;
        }
        var pt := Addr(e);
        BelowFacts(M, level, parent, kernel, pt, 0);
        FreeFrame(pt);
      }
      BeforeAll(M, level, parent, kernel, pd);
      ReadSlot(M, level, parent, kernel, pd, 0);
      FreeFrame(pd);
    }

    /** The middle loop of freePageTable, and the free after it. */
    method ReleasePdpt(pdpt: nat, ghost M: Memory, ghost F: set<nat>, ghost P: set<nat>)
      requires Partly(M, F, P) && pdpt in level && level[pdpt] == 3
      requires Forest(M, level, parent, kernel) && Rooted(level, parent)
      requires Below(M, level, parent, kernel, pdpt) !! F
      modifies this`mem, this`pool
      ensures Partly(M, F + Below(M, level, parent, kernel, pdpt), P)
    {
      hide Sound, Forest, Rooted, Below, Before, Present, Huge, Addr;
      BelowFacts(M, level, parent, kernel, pdpt, 0);
      var i := 0;
      while i < ENTRIES
        invariant 0 <= i <= ENTRIES && Partly(M, F + Before(M, level, parent, kernel, pdpt, i), P)
      {
        BelowFacts(M, level, parent, kernel, pdpt, i);
        ReadSlot(M, level, parent, kernel, pdpt, i);
        BeforeStep(M, level, parent, kernel, pdpt, i);
        BelowFacts(M, level, parent, kernel, pdpt, i + 1);
        var e := mem[pdpt][i];
        if Present(e) {
          ReleasePd(Addr(e), M, F + Before(M, level, parent, kernel, pdpt, i), P);
          assert F + Before(M, level, parent, kernel, pdpt, i) + Below(M, level, parent, kernel, Addr(e))
            == F + Before(M, level, parent, kernel, pdpt, i + 1);
        }
        i := i + 1;
      }
      BeforeAll(M, level, parent, kernel, pdpt);
      ReadSlot(M, level, parent, kernel, pdpt, 0);
      FreeFrame(pdpt);
    }

    /** freePageTable: exactly the tables that hang from the address space go back to the
        allocator, each while it was still in use, and no other address space notices. */
    method FreePageTable(ctx: nat)
      requires Valid() && IsPml4(level, ctx) && ctx != kernel
      modifies this
      ensures Valid()
      ensures forall c :: IsPml4(level, c) <==> c != ctx && old(IsPml4(level, c))
      ensures old(Forest(mem, level, parent, kernel) && Rooted(level, parent) && ctx in level)
      ensures var gone := old(Below(mem, level, parent, kernel, ctx));
        mem == old(mem) - gone && pool == old(pool) + gone
      ensures forall c: nat, v: nat :: IsPml4(level, c) ==> Translate(mem, c, v) == old(Translate(mem, c, v))
      ensures SameAccess(level, old(mem), mem) && AllFrames() == old(AllFrames()) && Lost() == old(Lost())
    {
      hide Sound, Forest, Rooted, Shared, Below, Before, Present, Huge, Addr, Translate, Grants, SameAccess, CutOffTables;
      SoundForest(mem, level, parent, kernel);
      ghost var M, P := mem, pool;
      BelowFacts(M, level, parent, kernel, ctx, 0);
      assert M - {} == M && P + {} == P;
      var i := 0;
      while i < KERNEL_SLOT
        invariant level == old(level) && parent == old(parent) && Forest(M, level, parent, kernel)
        invariant 0 <= i <= KERNEL_SLOT && Partly(M, Before(M, level, parent, kernel, ctx, i), P)
      {
        BelowFacts(M, level, parent, kernel, ctx, i);
        ReadSlot(M, level, parent, kernel, ctx, i);
        BeforeStep(M, level, parent, kernel, ctx, i);
        BelowFacts(M, level, parent, kernel, ctx, i + 1);
        var e := mem[ctx][i];
        if Present(e) {
          ReleasePdpt(Addr(e), M, Before(M, level, parent, kernel, ctx, i), P);
        }
        i := i + 1;
      }
      BeforeAll(M, level, parent, kernel, ctx);
      ReadSlot(M, level, parent, kernel, ctx, 0);
      FreeFrame(ctx);
      ghost var gone := Below(M, level, parent, kernel, ctx);
      ReleasedSound(M, level, parent, kernel, ctx);
      ReleasedAccess(M, level, parent, kernel, ctx);
      NoneCutOffBelow(M, level, parent, kernel, ctx);
      forall c: nat, v: nat | IsPml4(level, c) && c != ctx
        ensures c !in gone && Translate(M - gone, c, v) == Translate(M, c, v)
      {
        ReleasedWalk(M, level, parent, kernel, ctx, c, v);
      }
      forall f | f in pool ensures f !in mem && f % PAGE == 0 {
        if f in gone { InGone(M, level, parent, kernel, ctx, f); }
      }
      assert mem == M - gone;
      level, parent := level - gone, parent - gone;
    }
  }
}
