/** The tracer's operations on probes, with every step that can fail. */
module ProbeSession {
  import opened ByteString
  import opened Options
  import opened TrampolinePool
  import opened ProbeLifecycle
  import opened ProbeInstall

  // What goes wrong during one operation, and where mmap would put the pool (0: it fails).
  datatype Faults = Faults(read: bool, mmapAt: nat, munmap: bool, writeSlot: bool, unsafe: bool, writeText: bool)

  // Nothing fails but possibly the mapping of the pool.
  predicate Quiet(faults: Faults) {
    !faults.read && !faults.writeSlot && !faults.unsafe && !faults.writeText
  }

  class Session {
    const arch: Arch
    ghost const original: seq<Byte>
    var image: seq<Byte>
    var probes: seq<Probe>
    var nextId: nat
    const pool: Pool

    ghost predicate Shape()
      reads this, pool
    {
      && pool.Valid() && |probes| == PROBES && UniqueIds(probes, nextId) && Sane(arch)
    }

    ghost function View(): World
      reads this, pool
    {
      World(original, image, probes, pool.base, pool.used, pool.code)
    }

    /** The code image, the probe table and the pool fit together. */
    ghost predicate Good()
      reads this, pool
    {
      Shape() && Consistent(arch, View())
    }

    constructor (arch: Arch, text: seq<Byte>)
      requires Sane(arch)
      ensures Good() && fresh(pool) && image == original == text && pool.base == 0
      ensures this.arch == arch && nextId == 1
      ensures |probes| == 32 && forall i | 0 <= i < 32 :: probes[i] == NoProbe
    {
      this.arch, original, image := arch, text, text;
      probes := seq(PROBES, _ => NoProbe);
      nextId := 1;
      pool := new Pool();
    }

    // Finds the probe of a symbol or makes one; returns its index, or 32.
    method Register(symbol: string) returns (i: nat)
      requires Shape()
      modifies this`probes, this`nextId
      ensures Shape()
      ensures var c := Chosen(arch, old(probes), old(nextId), symbol);
              if c.None? then i == PROBES && probes == old(probes)
              else i == c.value.0 < PROBES && probes == old(probes)[i := c.value.1] && probes[i].id != 0
      ensures Registers(arch, old(probes), old(nextId), symbol, i, probes)
      ensures old(Good()) && MayRegister(arch, old(probes), old(nextId), symbol) ==> Good()
    {
      hide Sane;
      hide Consistent;
      hide Registers;
      ChosenRegisters(arch, probes, nextId, symbol);
      i := FindSymbol(probes, symbol);
      if i < PROBES {
        assert probes[i := probes[i]] == probes;
        return;
      }
      var target := arch.resolve(symbol);
      if target.None? {
        return PROBES;
      }
      var stored := Stored(symbol);
      if stored == "" {
        return PROBES;
      }
      i := FindSymbol(probes, stored);
      if i < PROBES {
        assert probes[i := probes[i]] == probes;
        return;
      }
      i := FindId(probes, 0);
      if i == PROBES {
        return;
      }
      var p := Fresh(nextId, stored, target.value);
      if Consistent(arch, View()) && MayRegister(arch, probes, nextId, symbol) {
        RegisterKeeps(arch, View(), i, p);
      }
      assert probes[i].id == 0;
      probes := probes[i := p];
      nextId := nextId + 1;
    }

    method Unregister(id: nat) returns (ok: bool)
      requires Shape()
      modifies this`probes
      ensures Shape()
      ensures ok <==> id != 0 && FindId(old(probes), id) < PROBES
      ensures probes == if ok then old(probes)[FindId(old(probes), id) := NoProbe] else old(probes)
    {
      if id == 0 {
        return false;
      }
      var i := FindId(probes, id);
      if i == PROBES {
        return false;
      }
      probes := probes[i := NoProbe];
      return true;
    }

    // Saves the prologue; does nothing for a probe that has it saved already.
    method Prepare(i: nat, readFails: bool) returns (ok: bool)
      requires Shape() && i < PROBES && probes[i].id != 0
      modifies this`probes
      ensures Shape()
      ensures !ok ==> probes == old(probes)
      ensures ok && old(probes[i].stage) != Prepared && old(probes[i].stage) != Installed ==>
                var p := old(probes[i]);
                && arch.span(p.target).Some? && arch.span(p.target).value <= ORIG_CODE_MAX
                && p.target + ORIG_CODE_MAX <= |image|
                && probes == old(probes)[i := p.(orig := image[p.target..p.target + arch.span(p.target).value], stage := Prepared)]
      ensures ok && (old(probes[i].stage) == Prepared || old(probes[i].stage) == Installed) ==> probes == old(probes)
      ensures var p := old(probes[i]);
              ok <==> p.stage == Prepared || p.stage == Installed || (!readFails && Readable(arch, p.target, image))
    {
      var p := probes[i];
      if p.stage == Prepared || p.stage == Installed {
        return true;
      }
      if readFails || p.target + ORIG_CODE_MAX > |image| {
        return false;
      }
      var n := arch.span(p.target);
      if n.None? || n.value > ORIG_CODE_MAX {
        return false;
      }
      probes := probes[i := p.(orig := image[p.target..p.target + n.value], stage := Prepared)];
      return true;
    }

    method InstallPatch(i: nat, tramp: nat, faults: Faults) returns (ok: bool)
      requires Shape() && i < PROBES && probes[i].id != 0
      modifies this`probes, this`image
      ensures Shape()
      ensures !ok ==> probes == old(probes) && image == old(image)
      ensures ok ==> var p := old(probes[i]);
                && p.stage == Prepared && |p.orig| >= arch.patchLen && tramp != 0
                && p.target + arch.patchLen <= |old(image)|
                && probes == old(probes)[i := p.(tramp := tramp, stage := Installed)]
                && image == Overwrite(old(image), p.target, arch.jump(tramp))
      ensures var p := old(probes[i]);
              ok <==> tramp != 0 && p.stage == Prepared && |p.orig| >= arch.patchLen && p.target + arch.patchLen <= |image|
                      && !faults.unsafe && !faults.writeText
    {
      var p := probes[i];
      if tramp == 0 || p.stage != Prepared || |p.orig| < arch.patchLen {
        return false;
      }
      if faults.unsafe || faults.writeText || p.target + arch.patchLen > |image| {
        return false;
      }
      image := Overwrite(image, p.target, arch.jump(tramp));
      probes := probes[i := p.(tramp := tramp, stage := Installed)];
      return true;
    }

    method UninstallPatch(i: nat, faults: Faults) returns (ok: bool)
      requires Shape() && i < PROBES && probes[i].id != 0
      modifies this`probes, this`image
      ensures Shape()
      ensures !ok ==> probes == old(probes) && image == old(image)
      ensures ok ==> var p := old(probes[i]);
                && p.target + |p.orig| <= |old(image)|
                && probes == old(probes)[i := p.(stage := Disabled)]
                && image == Overwrite(old(image), p.target, p.orig)
      ensures var p := old(probes[i]);
              ok <==> p.orig != [] && p.target + |p.orig| <= |image| && !faults.unsafe && !faults.writeText
      ensures old(Good()) && Live(old(probes[i])) ==> Good() && (ok <==> !faults.unsafe && !faults.writeText)
      ensures old(TableOk(arch, View())) && Live(old(probes[i])) ==> TableOk(arch, View())
    {
      var p := probes[i];
      ghost var w := View();
      if Consistent(arch, w) && Live(p) {
        UninstallKeeps(arch, w, i);
      }
      hide TableOk;
      hide Consistent;
      if p.orig == [] {
        return false;
      }
      if faults.unsafe || faults.writeText || p.target + |p.orig| > |image| {
        return false;
      }
      image := Overwrite(image, p.target, p.orig);
      probes := probes[i := p.(stage := Disabled)];
      if TableOk(arch, w) && Live(p) {
        DisableTable(arch, w, View(), i);
      }
      return true;
    }

    // Undoes a failed install: gives back a newly taken slot, then forgets a new probe or
    // restores a known one.
    method Rollback(i: nat, existed: bool, was: Probe, munmapFails: bool)
      requires Shape() && i < PROBES && probes[i].id != 0
      requires var p := probes[i]; p.id == was.id && p.symbol == was.symbol && p.target == was.target
      modifies this`probes, pool
      ensures Shape() && pool.code == old(pool.code)
      ensures probes == old(probes)[i := if existed then was else NoProbe]
      ensures var p := old(probes[i]);
              if p.tramp == 0 || p.tramp == was.tramp
              then pool.used == old(pool.used) && pool.base == old(pool.base)
              else SlotValid(p.slot) && p.tramp == SlotAddr(old(pool.base), p.slot) ==>
                     pool.used == old(pool.used)[p.slot := false] && (pool.base == old(pool.base) || AllFree(pool.used))
    {
      hide Sane;
      hide UniqueIds;
      hide FindId;
      hide AllFree;
      var p := probes[i];
      ghost var before := probes;
      UniqueIdsAfter(before, nextId, i, NoProbe);
      UniqueIdsAfter(before, nextId, i, was);
      if p.tramp != 0 && p.tramp != was.tramp {
        var slot, tramp := pool.Release(p.slot, p.tramp, !munmapFails);
        UniqueIdsAfter(before, nextId, i, p.(slot := slot, tramp := tramp));
        probes := probes[i := p.(slot := slot, tramp := tramp)];
      }
      FindsIt(probes, nextId, i);
      assert probes[i := NoProbe] == before[i := NoProbe] && probes[i := was] == before[i := was];
      if !existed {
        var _ := Unregister(p.id);
      } else {
        probes := probes[i := probes[i].(stage := was.stage, tramp := was.tramp, slot := was.slot,
                                         orig := was.orig, filter := was.filter)];
      }
    }

    // Sets the filter, saves the prologue and takes a slot.
    method Take(i: nat, filter: Option<nat>, faults: Faults) returns (ok: bool)
      requires Shape() && i < PROBES && probes[i].id != 0
      modifies this`probes, pool
      ensures Shape() && probes == old(probes)[i := probes[i]]
      ensures var p, p' := old(probes[i]), probes[i];
              && p'.id == p.id && p'.symbol == p.symbol && p'.target == p.target && p'.filter == ChosenFilter(filter)
              && (ok && p.stage != Prepared && p.stage != Installed ==>
                   && arch.span(p.target).Some? && arch.span(p.target).value <= ORIG_CODE_MAX
                   && p.target + ORIG_CODE_MAX <= |image| && p'.stage == Prepared
                   && p'.orig == image[p.target..p.target + arch.span(p.target).value])
      ensures Answer(old(View()), old(probes[i]), View(), probes[i], ok, pool.code)
              || (!ok && probes[i].tramp == old(probes[i].tramp) && pool.base == old(pool.base)
                  && pool.used == old(pool.used) && pool.code == old(pool.code))
      ensures var p := old(probes[i]);
              p.stage == Resolved || p.stage == Disabled ==>
                && (ok <==> !faults.read && Readable(arch, p.target, image) && Grantable(old(View()), p, faults.mmapAt))
                && (ok ==> probes[i].tramp == GrantedAddr(old(View()), p, faults.mmapAt))
    {
      hide Sane;
      hide UniqueIds;
      hide AllFree;
      hide Grantable;
      hide GrantedAddr;
      hide Answer;
      hide Readable;
      ghost var before := probes;
      var p := probes[i].(filter := ChosenFilter(filter));
      UniqueIdsAfter(probes, nextId, i, p);
      probes := probes[i := p];
      ok := Prepare(i, faults.read);
      assert probes == before[i := probes[i]];
      if !ok {
        return;
      }
      ghost var w := View();
      ok := Grant(i, faults.mmapAt);
      assert probes == before[i := probes[i]];
      SameGrant(old(View()), before[i], w, w.probes[i], View(), probes[i], ok, pool.code, faults.mmapAt);
    }

    // Asks the pool for a slot for probe i.
    method Grant(i: nat, mmapAt: nat) returns (ok: bool)
      requires Shape() && i < PROBES && probes[i].id != 0
      modifies this`probes, pool
      ensures Shape() && |probes| == PROBES
      ensures probes == old(probes)[i := old(probes[i]).(slot := probes[i].slot, tramp := probes[i].tramp)]
      ensures Answer(old(View()), old(probes[i]), View(), probes[i], ok, pool.code)
      ensures ok <==> Grantable(old(View()), old(probes[i]), mmapAt)
      ensures ok ==> probes[i].tramp == GrantedAddr(old(View()), old(probes[i]), mmapAt)
    {
      hide Sane;
      hide UniqueIds;
      var p := probes[i];
      ghost var used := pool.used;
      var slot, tramp;
      ok, slot, tramp := pool.Alloc(p.slot, p.tramp, mmapAt);
      if ok && !(SlotValid(p.slot) && old(pool.base) != 0) {
        FirstFreeIs(used, slot);
      }
      UniqueIdsAfter(probes, nextId, i, p.(slot := slot, tramp := tramp));
      probes := probes[i := p.(slot := slot, tramp := tramp)];
    }

    // Everything from setting the filter to writing the jump. The caller rolls back.
    method TryInstall(i: nat, filter: Option<nat>, faults: Faults) returns (ok: bool)
      requires Shape() && i < PROBES && probes[i].id != 0
      modifies this`probes, this`image, pool
      ensures Shape()
      ensures probes == old(probes)[i := probes[i]]
      ensures var p, p' := old(probes[i]), probes[i]; p'.id == p.id && p'.symbol == p.symbol && p'.target == p.target
      ensures !ok ==> image == old(image)
      ensures old(Good()) && !Live(old(probes[i])) ==>
                (if ok then Good() && Live(probes[i]) && probes[i].filter == ChosenFilter(filter) else Undoable(old(View()), View(), i))
      ensures old(Good()) && !Live(old(probes[i])) ==>
                (ok <==> Quiet(faults) && Installable(arch, old(View()), old(probes[i]), faults.mmapAt))
    {
      hide Sane;
      hide UniqueIds;
      hide AllFree;
      hide Consistent;
      hide Undoable;
      hide Answer;
      hide Allocated;
      hide Installable;
      hide Readable;
      hide Grantable;
      hide Fillable;
      ghost var w := View();
      ghost var sound := Consistent(arch, w) && !Live(w.probes[i]);
      if sound {
        NotLiveYet(arch, w, i);
        CanBeGranted(arch, w, i, faults.mmapAt);
        InstallableNeeds(arch, w, w.probes[i], faults.mmapAt);
      }
      ok := Take(i, filter, faults);
      ghost var code := pool.code;
      if sound { Attempted(arch, w, View(), i, ok, code); }
      if !ok {
        return;
      }
      Placed(w, w.probes[i], View(), probes[i], code);
      ghost var mid := View();
      if sound { FillableIff(arch, w, w.probes[i], probes[i], faults.mmapAt); }
      ok := Fill(i, faults);
      assert probes == w.probes[i := probes[i]];
      if sound {
        SlotTakenStill(w, mid, View(), i, code);
        SlotTaken(arch, w, View(), i, true, code);
        if ok {
          Completed(arch, w, View(), i);
        }
      }
    }

    // Builds the trampoline, writes it into the probe's slot, and writes the jump to it.
    method Fill(i: nat, faults: Faults) returns (ok: bool)
      requires Shape() && i < PROBES && probes[i].id != 0 && SlotValid(probes[i].slot)
      modifies this`probes, this`image, pool`code, pool`memory
      ensures Shape()
      ensures !ok ==> probes == old(probes) && image == old(image)
      ensures pool.code == old(pool.code) || pool.code == old(pool.code)[old(probes[i].slot) := pool.code[old(probes[i].slot)]]
      ensures ok ==> var p := old(probes[i]);
                && p.stage == Prepared && |p.orig| >= arch.patchLen && |arch.jump(p.tramp)| == arch.patchLen
                && p.target + arch.patchLen <= |old(image)|
                && arch.build(p.id, p.target, p.orig, p.tramp) == Some(pool.code[p.slot])
                && probes == old(probes)[i := p.(stage := Installed)]
                && image == Overwrite(old(image), p.target, arch.jump(p.tramp))
      ensures ok <==> Fillable(arch, old(probes[i]), old(image)) && !faults.writeSlot && !faults.unsafe && !faults.writeText
    {
      hide UniqueIds;
      var p := probes[i];
      var bytes := arch.build(p.id, p.target, p.orig, p.tramp);
      if bytes.None? || faults.writeSlot {
        return false;
      }
      assert Fitting(bytes);
      pool.WriteSlot(p.slot, bytes.value);
      ok := InstallPatch(i, p.tramp, faults);
    }

    // Changing the filter of a probe leaves everything else alone.
    method SetFilter(i: nat, filter: nat)
      requires Shape() && i < PROBES && probes[i].id != 0
      modifies this`probes
      ensures Shape() && probes == old(probes)[i := old(probes[i]).(filter := filter)]
      ensures old(Good()) ==> Good()
    {
      hide UniqueIds;
      hide Sane;
      hide Consistent;
      ghost var w := View();
      UniqueIdsAfter(probes, nextId, i, probes[i].(filter := filter));
      if Consistent(arch, w) {
        FilterMayChange(arch, w, i, filter);
      }
      probes := probes[i := probes[i].(filter := filter)];
    }

    // Tries to install probe i and undoes everything if that fails.
    method InstallOrUndo(i: nat, existed: bool, filter: Option<nat>, faults: Faults) returns (ok: bool)
      requires Shape() && i < PROBES && probes[i].id != 0
      modifies this`probes, this`image, pool
      ensures Shape()
      ensures ok ==> probes == old(probes)[i := probes[i]]
      ensures ok ==> probes[i].id == old(probes[i].id) && probes[i].symbol == old(probes[i].symbol) && probes[i].target == old(probes[i].target)
      ensures old(Good()) && !Live(old(probes[i])) && ok ==> probes[i].filter == if filter.Some? then filter.value else 0
      ensures old(Good()) && !Live(old(probes[i])) ==>
                && (ok <==> Quiet(faults) && Installable(arch, old(View()), old(probes[i]), faults.mmapAt))
                && (ok ==> Good() && Live(probes[i]))
                && (!ok ==> Undone(old(View()), View(), i, existed))
                && (!ok ==> (Good() <==> existed || !Owns(old(probes[i]))))
    {
      hide UniqueIds;
      hide Sane;
      hide Consistent;
      hide Undoable;
      hide AllFree;
      hide SlotAddr;
      hide Installable;
      hide Quiet;
      ghost var w := View();
      var was := probes[i];
      ok := TryInstall(i, filter, faults);
      if !ok {
        ghost var mid := View();
        Rollback(i, existed, was, faults.munmap);
        assert probes == w.probes[i := if existed then was else NoProbe];
        if Consistent(arch, w) && !Live(was) {
          RolledBack(arch, w, mid, View(), i, existed);
        }
      }
    }

    // A probe that is installed already only gets the new filter, if there is one.
    method InstallRegistered(i: nat, existed: bool, filter: Option<nat>, faults: Faults) returns (ok: bool)
      requires Shape() && i < PROBES && probes[i].id != 0
      modifies this`probes, this`image, pool
      ensures Shape()
      ensures ok ==> probes == old(probes)[i := probes[i]]
      ensures ok ==> probes[i].id == old(probes[i].id) && probes[i].symbol == old(probes[i].symbol) && probes[i].target == old(probes[i].target)
      ensures old(Good()) && ok && filter.Some? ==> probes[i].filter == filter.value
      ensures old(Good()) && ok && filter.None? ==> probes[i].filter == if Live(old(probes[i])) then old(probes[i].filter) else 0
      ensures old(Good()) ==>
                && (ok <==> Live(old(probes[i])) || (Quiet(faults) && Installable(arch, old(View()), old(probes[i]), faults.mmapAt)))
                && (ok ==> Good() && Live(probes[i]))
                && (!ok ==> Undone(old(View()), View(), i, existed))
                && (!ok ==> (Good() <==> existed || !Owns(old(probes[i]))))
    {
      hide UniqueIds;
      hide Sane;
      hide Consistent;
      hide Installable;
      hide Quiet;
      hide Undone;
      ghost var before := probes;
      if probes[i].stage == Installed {
        if filter.Some? {
          SetFilter(i, filter.value);
        }
        assert probes == before[i := probes[i]];
        return true;
      }
      ok := InstallOrUndo(i, existed, filter, faults);
    }

    /** Installs a probe on a symbol, for names of any length. It succeeds exactly if the
        probe is installed already, or nothing fails and the prologue is suitable. A failed
        install leaves text, table and slots as they were, except that a probe taken for a
        new one because its name was cut is forgotten: then, and only if it owned a slot,
        the invariant is lost. */
    method InstallProbe(symbol: string, filter: Option<nat>, faults: Faults) returns (ok: bool)
      requires Shape()
      modifies this, pool
      ensures Shape()
      ensures Chosen(arch, old(probes), old(nextId), symbol).None? ==>
                !ok && probes == old(probes) && image == old(image) && pool.used == old(pool.used) && (old(Good()) ==> Good())
      ensures var c := Chosen(arch, old(probes), old(nextId), symbol);
              old(Good()) && MayRegister(arch, old(probes), old(nextId), symbol) && c.Some? ==>
                var (i, p) := c.value;
                var mistaken := Mistaken(arch, old(probes), old(nextId), symbol);
                && (ok <==> Live(p) || (Quiet(faults) && Installable(arch, old(View()), p, faults.mmapAt)))
                && (ok ==> Good() && probes == old(probes)[i := probes[i]]
                           && Live(probes[i]) && probes[i].id == p.id && probes[i].symbol == p.symbol && probes[i].target == p.target)
                && (ok && filter.Some? ==> probes[i].filter == filter.value)
                && (ok && filter.None? ==> probes[i].filter == if Live(p) then p.filter else 0)
                && (!ok ==> image == old(image) && pool.used == old(pool.used))
                && (!ok ==> probes == if mistaken then old(probes)[i := NoProbe] else old(probes))
                && (!ok ==> (Good() <==> !(mistaken && Owns(p))))
    {
      hide UniqueIds;
      hide Sane;
      hide Consistent;
      hide Installable;
      hide Quiet;
      hide Undone;
      hide FindSymbol;
      hide FindId;
      hide Chosen;
      hide MayRegister;
      ghost var sound := Good() && MayRegister(arch, probes, nextId, symbol);
      ghost var w0, c := View(), Chosen(arch, probes, nextId, symbol);
      ChosenFits(arch, probes, nextId, symbol);
      var existing := FindSymbol(probes, symbol);
      var i := Register(symbol);
      if i == PROBES {
        return false;
      }
      ghost var w := View();
      InstallableStill(arch, w0, w, probes[i], faults.mmapAt);
      ok := InstallRegistered(i, existing < PROBES, filter, faults);
      if sound && !ok {
        if w0.probes[i].id == 0 { EmptyEntry(arch, w0, i); }
        UndoneAll(w0, w, View(), i, existing < PROBES);
      }
    }

    /** Writes the prologue back; the probe keeps its slot. */
    method DisableProbe(id: nat, faults: Faults) returns (ok: bool)
      requires Shape()
      modifies this
      ensures Shape()
      ensures !ok ==> probes == old(probes) && image == old(image)
      ensures ok ==> var i := FindId(old(probes), id);
                     i < PROBES && Live(old(probes)[i]) && probes == old(probes)[i := old(probes)[i].(stage := Disabled)]
      ensures old(Good()) ==> Good()
      ensures old(Good()) && id != 0 ==>
                var i := FindId(old(probes), id);
                (ok <==> i < PROBES && Live(old(probes)[i]) && !faults.unsafe && !faults.writeText)
    {
      if id == 0 {
        return false;
      }
      var i := FindId(probes, id);
      if i == PROBES || probes[i].stage != Installed {
        return false;
      }
      ok := UninstallPatch(i, faults);
    }

    /** Puts the jump of a disabled probe back, with the filter it has. */
    method EnableProbe(id: nat, faults: Faults) returns (ok: bool)
      requires Shape()
      modifies this, pool
      ensures Shape()
      ensures old(Good()) ==>
                var i := FindId(old(probes), id);
                && Good()
                && (ok <==> && id != 0 && i < PROBES
                            && (Live(old(probes)[i]) || (Quiet(faults) && Installable(arch, old(View()), old(probes)[i], faults.mmapAt))))
                && (!ok ==> probes == old(probes) && image == old(image) && pool.used == old(pool.used))
                && (ok ==> Live(probes[i]) && probes == old(probes)[i := probes[i]] && probes[i].filter == old(probes)[i].filter)
    {
      hide Installable;
      hide Quiet;
      hide Consistent;
      hide Sane;
      hide UniqueIds;
      if id == 0 {
        return false;
      }
      var i := FindId(probes, id);
      if i == PROBES {
        return false;
      }
      if probes[i].stage == Installed {
        assert probes[i := probes[i]] == probes;
        return true;
      }
      if Consistent(arch, View()) {
        FoundAgain(arch, View(), i);
        KnownIsChosen(arch, probes, nextId, i);
      }
      hide Chosen;
      hide Mistaken;
      hide MayRegister;
      ok := InstallProbe(probes[i].symbol, Some(probes[i].filter), faults);
    }

    // Gives a probe's slot back and clears its entry.
    method Forget(i: nat, munmapFails: bool)
      requires Shape() && i < PROBES && probes[i].id != 0
      modifies this`probes, pool
      ensures Shape() && probes == old(probes)[i := NoProbe]
      ensures old(Good()) && !Live(old(probes[i])) ==> Good()
      ensures old(TableOk(arch, View())) ==> TableOk(arch, View())
    {
      hide Sane;
      hide UniqueIds;
      hide TableOk;
      hide ImageOk;
      hide AllFree;
      hide FindId;
      var p := probes[i];
      ghost var w := View();
      var slot, tramp := pool.Release(p.slot, p.tramp, !munmapFails);
      UniqueIdsAfter(probes, nextId, i, p.(slot := slot, tramp := tramp));
      probes := probes[i := p.(slot := slot, tramp := tramp)];
      FindsIt(probes, nextId, i);
      var _ := Unregister(p.id);
      assert probes == w.probes[i := NoProbe];
      if TableOk(arch, w) {
        ReleasedRight(arch, w, i);
        RemoveTable(arch, w, View(), i);
        if Consistent(arch, w) && !Live(p) {
          RemoveKeeps(arch, w, View(), i);
        }
      }
    }

    /** Uninstalls if needed, gives the slot back and forgets the probe. */
    method RemoveProbe(id: nat, faults: Faults) returns (ok: bool)
      requires Shape()
      modifies this, pool
      ensures Shape()
      ensures if ok then id != 0 && FindId(old(probes), id) < PROBES && probes == old(probes)[FindId(old(probes), id) := NoProbe]
              else probes == old(probes) && image == old(image)
      ensures old(Good()) ==> Good()
      ensures old(Good()) && id != 0 ==>
                var i := FindId(old(probes), id);
                (ok <==> i < PROBES && !Remains(old(probes)[i], faults))
    {
      hide Sane;
      hide UniqueIds;
      hide Consistent;
      if id == 0 {
        return false;
      }
      var i := FindId(probes, id);
      if i == PROBES {
        return false;
      }
      if probes[i].stage == Installed {
        ok := UninstallPatch(i, faults);
        if !ok {
          return;
        }
      }
      Forget(i, faults.munmap);
      assert probes == old(probes)[i := NoProbe];
      return true;
    }

    /** Stopping forgets all probes and gives back all slots. The text is the original one
        exactly if every jump that could not be taken back happens to be what was there;
        success means that all could be, and that cleaning up the runtime worked. */
    method Stop(faults: nat -> Faults, cleanupFails: bool) returns (ok: bool)
      requires Shape()
      modifies this, pool
      ensures Shape() && forall i | 0 <= i < PROBES :: probes[i].id == 0
      ensures old(Good()) ==>
                var restored := forall i: nat | i < PROBES :: !Remains(old(probes[i]), faults(i));
                && (ok <==> restored && !cleanupFails)
                && (restored ==> Good()) && AllFree(pool.used)
                && (image == original <==>
                      forall i: nat | i < PROBES && Remains(old(probes[i]), faults(i)) :: Unnoticed(arch, original, old(probes[i])))
      ensures old(Good()) ==> forall i: nat | i < PROBES && Remains(old(probes[i]), faults(i)) :: JumpAt(arch, image, old(probes[i]))
    {
      hide Sane;
      hide UniqueIds;
      hide Consistent;
      hide TableOk;
      hide AllFree;
      hide Unnoticed;
      hide JumpAt;
      ok := true;
      ghost var sound := Good();
      // The session as if the probes that could not be uninstalled were kept.
      ghost var kept := View();
      if sound { TableFirst(arch, kept); }
      var i: nat := 0;
      while i < PROBES
        invariant i <= PROBES && Shape()
        invariant forall k | 0 <= k < i :: probes[k].id == 0
        invariant forall k | i <= k < PROBES :: probes[k] == old(probes[k])
        invariant sound && ok ==> Good()
        invariant sound && ok ==> forall k: nat | k < i :: !Remains(old(probes[k]), faults(k))
        invariant sound && !ok ==> exists k: nat :: k < i && Remains(old(probes[k]), faults(k))
        invariant sound ==> TableOk(arch, View()) && Mirrored(kept) && |kept.probes| == PROBES
        invariant sound ==> forall k: nat | i <= k < PROBES :: kept.probes[k] == old(probes[k])
        invariant sound ==>
                    forall k: nat | k < i :: kept.probes[k] == if Remains(old(probes[k]), faults(k)) then old(probes[k]) else NoProbe
      {
        var uninstalled;
        uninstalled, kept := StopEntry(i, faults(i), kept);
        if !uninstalled {
          ok := false;
        }
        i := i + 1;
      }
      if sound {
        NobodyOwns(arch, View());
        TextAfterStop(arch, kept, old(probes), faults);
      }
      if cleanupFails {
        ok := false;
      }
    }

    // A consistent world with the session's text.
    ghost predicate Mirrored(kept: World)
      reads this
    {
      Consistent(arch, kept) && kept.original == original && kept.image == image
    }

    // One entry: uninstalled if needed and possible, then forgotten. In `kept` it stays if
    // its jump does.
    method StopEntry(i: nat, f: Faults, ghost kept: World) returns (uninstalled: bool, ghost kept': World)
      requires Shape() && i < PROBES
      modifies this`probes, this`image, pool
      ensures Shape() && probes[i].id == 0 && forall k | 0 <= k < PROBES && k != i :: probes[k] == old(probes[k])
      ensures old(Good()) && uninstalled ==> Good()
      ensures old(TableOk(arch, View())) && old(Mirrored(kept)) && i < |kept.probes| && kept.probes[i] == old(probes[i]) ==>
                && TableOk(arch, View()) && Mirrored(kept') && (uninstalled <==> !Remains(old(probes[i]), f))
                && kept'.probes == kept.probes[i := if Remains(old(probes[i]), f) then old(probes[i]) else NoProbe]
    {
      hide Sane;
      hide UniqueIds;
      hide Consistent;
      hide TableOk;
      hide Overwrite;
      ghost var sound := TableOk(arch, View()) && Mirrored(kept) && i < |kept.probes| && kept.probes[i] == probes[i];
      if sound { TableFirst(arch, kept); }
      kept' := kept;
      uninstalled := true;
      if probes[i].id == 0 {
        if sound { EmptyEntry(arch, kept, i); }
        return;
      }
      ghost var p := probes[i];
      if probes[i].stage == Installed {
        if sound { UninstallKeeps(arch, kept, i); }
        uninstalled := UninstallPatch(i, f);
        if uninstalled && sound {
          kept' := kept.(probes := kept.probes[i := p.(stage := Disabled)], image := image);
        }
      }
      if uninstalled && sound {
        kept' := Dropped(arch, kept', i);
      }
      Forget(i, f.munmap);
    }
  }

  // The jump of this installed probe cannot be taken back.
  predicate Remains(p: Probe, faults: Faults) {
    Live(p) && (faults.unsafe || faults.writeText)
  }

  // The text holds p's jump.
  ghost predicate JumpAt(arch: Arch, image: seq<Byte>, p: Probe) {
    p.target + arch.patchLen <= |image| && image[p.target..p.target + arch.patchLen] == arch.jump(p.tramp)
  }

  lemma TextAfterStop(arch: Arch, kept: World, probes: seq<Probe>, faults: nat -> Faults)
    requires Sane(arch) && Consistent(arch, kept) && |probes| == |kept.probes| == PROBES
    requires forall k: nat | k < PROBES :: kept.probes[k] == if Remains(probes[k], faults(k)) then probes[k] else NoProbe
    ensures kept.image == kept.original <==>
              forall i: nat | i < PROBES && Remains(probes[i], faults(i)) :: Unnoticed(arch, kept.original, probes[i])
    ensures forall i: nat | i < PROBES && Remains(probes[i], faults(i)) :: JumpAt(arch, kept.image, probes[i])
  {
    hide Sane;
    hide Consistent;
    hide Unnoticed;
    TextIsOriginalIf(arch, kept);
    assert forall k: nat | k < PROBES :: Live(kept.probes[k]) <==> Remains(probes[k], faults(k));
    forall i: nat | i < PROBES && Remains(probes[i], faults(i)) ensures JumpAt(arch, kept.image, probes[i]) {
      JumpsLeadHome(arch, kept, i);
    }
  }

  // The world without a probe that is not installed.
  lemma Dropped(arch: Arch, w: World, i: nat) returns (w': World)
    requires Consistent(arch, w) && i < |w.probes| == PROBES && |w.used| == SLOTS && w.probes[i].id != 0 && !Live(w.probes[i])
    ensures Consistent(arch, w') && w'.original == w.original && w'.image == w.image && w'.probes == w.probes[i := NoProbe]
  {
    hide Consistent;
    var p := w.probes[i];
    w' := w.(probes := w.probes[i := NoProbe], used := if Owns(p) && SlotValid(p.slot) then w.used[p.slot := false] else w.used);
    RemoveKeeps(arch, w, w', i);
  }

  lemma TableFirst(arch: Arch, w: World)
    requires Consistent(arch, w)
    ensures TableOk(arch, w) && |w.used| == |w.code| == SLOTS && |w.probes| == PROBES
  {
  }
}
