/** Which tables belong to one address space, and why giving them back leaves all other
    address spaces as they were. */
module PageRelease {
  import opened PageTree

  /** The table of level `n` above the table `x`. */
  function At(mem: Memory, level: Levels, parent: Parents, kernel: nat, x: nat, n: nat): (t: nat)
    requires Forest(mem, level, parent, kernel) && Rooted(level, parent) && x in level && 1 <= level[x] <= n <= 4
    ensures t in level && level[t] == n
    decreases n
  {
    if level[x] == n then x
    else
      var k := At(mem, level, parent, kernel, x, n - 1);
      assert UpOk(mem, level, parent, kernel, k);
      parent[k].table
  }

  predicate IsBelow(mem: Memory, level: Levels, parent: Parents, kernel: nat, t: nat, x: nat)
    requires Forest(mem, level, parent, kernel) && Rooted(level, parent) && t in level
  {
    x in level && 1 <= level[x] <= level[t] && At(mem, level, parent, kernel, x, level[t]) == t
  }

  /** The table `t` and all tables that hang from it. */
  function Below(mem: Memory, level: Levels, parent: Parents, kernel: nat, t: nat): set<nat>
    requires Forest(mem, level, parent, kernel) && Rooted(level, parent) && t in level
  {
    set x | x in level && IsBelow(mem, level, parent, kernel, t, x)
  }

  predicate HangsBefore(mem: Memory, level: Levels, parent: Parents, kernel: nat, t: nat, i: nat, x: nat)
    requires Forest(mem, level, parent, kernel) && Rooted(level, parent) && t in level
  {
    && x in level && 1 <= level[x] < level[t]
    && var k := At(mem, level, parent, kernel, x, level[t] - 1);
       k in parent && parent[k].table == t && parent[k].index < i
  }

  /** The tables that hang from the slots of `t` before slot `i`. */
  function Before(mem: Memory, level: Levels, parent: Parents, kernel: nat, t: nat, i: nat): set<nat>
    requires Forest(mem, level, parent, kernel) && Rooted(level, parent) && t in level
  {
    set x | x in level && HangsBefore(mem, level, parent, kernel, t, i, x)
  }

  lemma StepDown(mem: Memory, level: Levels, parent: Parents, kernel: nat, t: nat, i: nat)
    requires Forest(mem, level, parent, kernel) && t in level && i < ENTRIES
    ensures var e := mem[t][i]; Links(level[t], e) ==>
      Addr(e) in parent && Addr(e) in level && level[Addr(e)] == level[t] - 1 && parent[Addr(e)] == Owner(level, kernel, t, i)
  {
    assert DownOk(mem, level, parent, kernel, t, i);
  }

  lemma StepAt(mem: Memory, level: Levels, parent: Parents, kernel: nat, t: nat, i: nat, x: nat)
    requires Forest(mem, level, parent, kernel) && Rooted(level, parent) && t in level && level[t] >= 2 && i < ENTRIES
    requires Owner(level, kernel, t, i) == Slot(t, i) && x in level && 1 <= level[x] < level[t]
    ensures var e := mem[t][i];
      && (Links(level[t], e) ==> Addr(e) in parent && level[Addr(e)] == level[t] - 1 && parent[Addr(e)] == Slot(t, i))
      && var k := At(mem, level, parent, kernel, x, level[t] - 1);
         k in parent && (parent[k] == Slot(t, i) <==> Links(level[t], e) && Addr(e) == k)
  {
    assert DownOk(mem, level, parent, kernel, t, i);
    assert UpOk(mem, level, parent, kernel, At(mem, level, parent, kernel, x, level[t] - 1));
  }

  /** One more slot: nothing, or the table in it with all that hangs from it. */
  lemma BeforeStep(mem: Memory, level: Levels, parent: Parents, kernel: nat, t: nat, i: nat)
    requires Forest(mem, level, parent, kernel) && Rooted(level, parent) && t in level && level[t] >= 2 && i < ENTRIES
    requires Owner(level, kernel, t, i) == Slot(t, i)
    ensures var e := mem[t][i];
      if Links(level[t], e) then
        && Addr(e) in parent && level[Addr(e)] == level[t] - 1
        && Before(mem, level, parent, kernel, t, i + 1) == Before(mem, level, parent, kernel, t, i) + Below(mem, level, parent, kernel, Addr(e))
        && Before(mem, level, parent, kernel, t, i) !! Below(mem, level, parent, kernel, Addr(e))
      else Before(mem, level, parent, kernel, t, i + 1) == Before(mem, level, parent, kernel, t, i)
  {
    ReadSlot(mem, level, parent, kernel, t, i);
    var e := mem[t][i];
    StepDown(mem, level, parent, kernel, t, i);
    hide Forest, Rooted, At, Links, Addr, Owner;
    forall x | x in level && 1 <= level[x] < level[t]
      ensures HangsBefore(mem, level, parent, kernel, t, i + 1, x) <==>
        HangsBefore(mem, level, parent, kernel, t, i, x) || (Links(level[t], e) && IsBelow(mem, level, parent, kernel, Addr(e), x))
      ensures HangsBefore(mem, level, parent, kernel, t, i, x) && Links(level[t], e) ==> !IsBelow(mem, level, parent, kernel, Addr(e), x)
    {
      StepAt(mem, level, parent, kernel, t, i, x);
    }
  }

  /** All slots together: everything below the table except the table itself. */
  lemma BeforeAll(mem: Memory, level: Levels, parent: Parents, kernel: nat, t: nat)
    requires Forest(mem, level, parent, kernel) && Rooted(level, parent) && t in level && level[t] >= 2
    ensures Below(mem, level, parent, kernel, t) == Before(mem, level, parent, kernel, t, ENTRIES) + {t}
    ensures t !in Before(mem, level, parent, kernel, t, ENTRIES)
    ensures level[t] == 4 && t != kernel ==>
      Before(mem, level, parent, kernel, t, KERNEL_SLOT) == Before(mem, level, parent, kernel, t, ENTRIES)
  {
    forall x | x in level && 1 <= level[x] < level[t]
      ensures IsBelow(mem, level, parent, kernel, t, x) <==> HangsBefore(mem, level, parent, kernel, t, ENTRIES, x)
      ensures level[t] == 4 && t != kernel && HangsBefore(mem, level, parent, kernel, t, ENTRIES, x) ==>
        HangsBefore(mem, level, parent, kernel, t, KERNEL_SLOT, x)
    {
      var k := At(mem, level, parent, kernel, x, level[t] - 1);
      assert UpOk(mem, level, parent, kernel, k);
    }
  }

  lemma BelowFacts(mem: Memory, level: Levels, parent: Parents, kernel: nat, t: nat, i: nat)
    requires Forest(mem, level, parent, kernel) && Rooted(level, parent) && t in level && level[t] >= 1
    ensures t in Below(mem, level, parent, kernel, t) && t !in Before(mem, level, parent, kernel, t, i)
    ensures Before(mem, level, parent, kernel, t, 0) == {}
    ensures i <= ENTRIES ==> Before(mem, level, parent, kernel, t, i) <= Below(mem, level, parent, kernel, t)
    ensures level[t] == 1 ==> Below(mem, level, parent, kernel, t) == {t}
  {
  }

  lemma InGone(mem: Memory, level: Levels, parent: Parents, kernel: nat, t: nat, f: nat)
    requires Forest(mem, level, parent, kernel) && Rooted(level, parent) && t in level
    requires f in Below(mem, level, parent, kernel, t)
    ensures f in mem && f % PAGE == 0
  {
  }

  // ---- Giving an address space back ----

  /** Nothing outside an address space points into it, and nothing in it is shared. */
  lemma BelowClosed(mem: Memory, level: Levels, parent: Parents, kernel: nat, t: nat, c: nat)
    requires Forest(mem, level, parent, kernel) && Rooted(level, parent) && IsPml4(level, t) && c in parent
    ensures c in Below(mem, level, parent, kernel, t) <==> parent[c].table in Below(mem, level, parent, kernel, t)
  {
    assert UpOk(mem, level, parent, kernel, c);
    Climb(mem, level, parent, kernel, c, 4);
  }

  lemma {:induction false} Climb(mem: Memory, level: Levels, parent: Parents, kernel: nat, c: nat, n: nat)
    requires Forest(mem, level, parent, kernel) && Rooted(level, parent) && c in parent && c in level && level[c] < n <= 4
    ensures 1 <= level[c] <= 3 && parent[c].table in level && level[parent[c].table] == level[c] + 1
    ensures At(mem, level, parent, kernel, c, n) == At(mem, level, parent, kernel, parent[c].table, n)
    decreases n
  {
    assert UpOk(mem, level, parent, kernel, c);
    if level[c] + 1 < n { Climb(mem, level, parent, kernel, c, n - 1); }
  }

  lemma ReleasedSound(mem: Memory, level: Levels, parent: Parents, kernel: nat, t: nat)
    requires Sound(mem, level, parent, kernel) && IsPml4(level, t) && t != kernel
    ensures var gone := Below(mem, level, parent, kernel, t);
      && Sound(mem - gone, level - gone, parent - gone, kernel)
      && forall c: nat :: IsPml4(level - gone, c) <==> c != t && IsPml4(level, c)
  {
    var gone := Below(mem, level, parent, kernel, t);
    var mem', level', parent' := mem - gone, level - gone, parent - gone;
    assert kernel !in gone;
    forall u, j | u in mem' && 0 <= j < ENTRIES ensures DownOk(mem', level', parent', kernel, u, j) {
      assert DownOk(mem, level, parent, kernel, u, j);
      if Links(level[u], mem[u][j]) { BelowClosed(mem, level, parent, kernel, t, Addr(mem[u][j])); }
    }
    forall c | c in parent' ensures UpOk(mem', level', parent', kernel, c) {
      assert UpOk(mem, level, parent, kernel, c);
      BelowClosed(mem, level, parent, kernel, t, c);
    }
  }

  /** The walk of `v` in the address space `c` goes through the table `f`. */
  predicate Meets(mem: Memory, c: nat, v: nat, f: nat) {
    f == Pdpt(mem, c, v) || f == Pd(mem, c, v) || f == Pt(mem, c, v)
  }

  /** The walks of other address spaces meet none of the tables given back. */
  lemma NoneGone(mem: Memory, level: Levels, parent: Parents, kernel: nat, t: nat, c: nat, v: nat)
    requires Sound(mem, level, parent, kernel) && IsPml4(level, t) && t != kernel && IsPml4(level, c) && c != t
    ensures var gone := Below(mem, level, parent, kernel, t); c !in gone && !exists f :: f in gone && Meets(mem, c, v, f)
  {
    var gone := Below(mem, level, parent, kernel, t);
    WalkFacts(mem, level, parent, kernel, c, v);
    assert kernel !in gone && c !in gone;
    var t3, t2, t1 := Pdpt(mem, c, v), Pd(mem, c, v), Pt(mem, c, v);
    if t3 != NONE { BelowClosed(mem, level, parent, kernel, t, t3); }
    if t2 != NONE { BelowClosed(mem, level, parent, kernel, t, t2); }
    if t1 != NONE { BelowClosed(mem, level, parent, kernel, t, t1); }
  }

  lemma WordKept(mem: Memory, gone: set<nat>, t: int, i: nat)
    requires t < 0 || t as nat !in gone
    ensures Word(mem - gone, t, i) == Word(mem, t, i)
  {
  }

  /** The words on a walk that meets none of the tables given back. */
  lemma WalkKept(mem: Memory, gone: set<nat>, c: nat, v: nat)
    requires c !in gone && !exists f :: f in gone && Meets(mem, c, v, f)
    ensures var mem' := mem - gone;
      && Word(mem', c, I4(v)) == Word(mem, c, I4(v)) && Pdpt(mem', c, v) == Pdpt(mem, c, v)
      && Word(mem', Pdpt(mem, c, v), I3(v)) == Word(mem, Pdpt(mem, c, v), I3(v)) && Pd(mem', c, v) == Pd(mem, c, v)
      && PdEntry(mem', c, v) == PdEntry(mem, c, v) && Pt(mem', c, v) == Pt(mem, c, v)
      && Word(mem', Pt(mem, c, v), I1(v)) == Word(mem, Pt(mem, c, v), I1(v))
  {
    var t3, t2, t1 := Pdpt(mem, c, v), Pd(mem, c, v), Pt(mem, c, v);
    assert forall f :: f in gone ==> !Meets(mem, c, v, f);
    hide Word, Present, Addr, Huge;
    WordKept(mem, gone, c, I4(v));
    WordKept(mem, gone, t3, I3(v));
    WordKept(mem, gone, t2, I2(v));
    WordKept(mem, gone, t1, I1(v));
  }

  lemma ReleasedWalk(mem: Memory, level: Levels, parent: Parents, kernel: nat, t: nat, c: nat, v: nat)
    requires Sound(mem, level, parent, kernel) && IsPml4(level, t) && t != kernel && IsPml4(level, c) && c != t
    ensures c !in Below(mem, level, parent, kernel, t)
    ensures Translate(mem - Below(mem, level, parent, kernel, t), c, v) == Translate(mem, c, v)
  {
    hide Below, Meets, Word, Pdpt, Pd, PdEntry, Pt, Addr, HugeAddr, Present, Huge;
    NoneGone(mem, level, parent, kernel, t, c, v);
    WalkKept(mem, Below(mem, level, parent, kernel, t), c, v);
  }

  // ---- What hangs from an address space is what its lower-half walks meet ----

  function Compose(i: nat, j: nat, k: nat): nat { i * 0x80_0000_0000 + j * 0x4000_0000 + k * 0x20_0000 }

  lemma ComposeFacts(i: nat, j: nat, k: nat)
    requires i < ENTRIES && j < ENTRIES && k < ENTRIES
    ensures I4(Compose(i, j, k)) == i && I3(Compose(i, j, k)) == j && I2(Compose(i, j, k)) == k
  {
    var v := Compose(i, j, k);
    assert v / 0x20_0000 == i * 0x4_0000 + j * 0x200 + k;
    assert v / 0x4000_0000 == i * 0x200 + j;
    assert v / 0x80_0000_0000 == i;
  }

  lemma MetIsBelow(mem: Memory, level: Levels, parent: Parents, kernel: nat, c: nat, v: nat, f: nat)
    requires Sound(mem, level, parent, kernel) && IsPml4(level, c) && I4(v) < KERNEL_SLOT && Meets(mem, c, v, f)
    ensures f in Below(mem, level, parent, kernel, c) && f != c
  {
    WalkFacts(mem, level, parent, kernel, c, v);
    BelowFacts(mem, level, parent, kernel, c, 0);
    var t3, t2, t1 := Pdpt(mem, c, v), Pd(mem, c, v), Pt(mem, c, v);
    if t3 != NONE { BelowClosed(mem, level, parent, kernel, c, t3); }
    if t2 != NONE { BelowClosed(mem, level, parent, kernel, c, t2); }
    if t1 != NONE { BelowClosed(mem, level, parent, kernel, c, t1); }
  }

  lemma BelowIsMet(mem: Memory, level: Levels, parent: Parents, kernel: nat, c: nat, f: nat) returns (v: nat)
    requires Sound(mem, level, parent, kernel) && IsPml4(level, c) && c != kernel
    requires f in Below(mem, level, parent, kernel, c) && f != c
    ensures I4(v) < KERNEL_SLOT && Meets(mem, c, v, f)
  {
    assert UpOk(mem, level, parent, kernel, f);
    BelowClosed(mem, level, parent, kernel, c, f);
    var s := parent[f];
    var k, j, i := 0, 0, 0;
    if level[f] == 1 {
      k := s.index;
      assert UpOk(mem, level, parent, kernel, s.table);
      BelowClosed(mem, level, parent, kernel, c, s.table);
      s := parent[s.table];
    }
    if level[f] <= 2 {
      j := s.index;
      assert UpOk(mem, level, parent, kernel, s.table);
      BelowClosed(mem, level, parent, kernel, c, s.table);
      s := parent[s.table];
    }
    i := s.index;
    assert s.table == c;
    ComposeFacts(i, j, k);
    v := Compose(i, j, k);
    hide Compose, I4, I3, I2;
  }

  /** The tables an address space owns are its PML4 and every table a lower-half walk goes through. */
  lemma BelowIsReachable(mem: Memory, level: Levels, parent: Parents, kernel: nat, c: nat, f: nat)
    requires Sound(mem, level, parent, kernel) && IsPml4(level, c) && c != kernel
    ensures f in Below(mem, level, parent, kernel, c) <==>
      f == c || exists v: nat :: I4(v) < KERNEL_SLOT && Meets(mem, c, v, f)
  {
    if f == c {
      BelowFacts(mem, level, parent, kernel, c, 0);
    } else {
      if f in Below(mem, level, parent, kernel, c) {
        var v := BelowIsMet(mem, level, parent, kernel, c, f);
      }
      forall v: nat | I4(v) < KERNEL_SLOT && Meets(mem, c, v, f) ensures f in Below(mem, level, parent, kernel, c) {
        MetIsBelow(mem, level, parent, kernel, c, v, f);
      }
    }
  }
}
