/** crates/paguro-boot/src/machine.rs: the loader's stage machine, in a given world: the firmware, its
    variables, the files and the volumes answer as that says. Everything else (derived keys, clocks,
    failing reads, what is on screen) is arbitrary at every call; what the user types is a script, and a
    run that outlasts it is still waiting at a prompt. An error halts the run. */
module Ratchet {
  import opened Words
  import opened BootTrace

  datatype Mode = Normal | FirstBoot | Recovery

  datatype Row = PasswordOrPin | RecoveryPassphrase | RecoveryKeyRow

  datatype Input = Recover | StartWindows | Continue | Secret | Select(row: Row) | Choose(i: nat)
                 | Entry | Parent | TypePath | NoRoot | UseDefault | BrowseDisk | Escape

  /** How a run ends short of starting an image. */
  datatype Stop = WindowsNext | Halted | Waiting

  datatype Outcome = Started(rung: Rung) | Stopped(stop: Stop)

  /** A value to go on with, or the end of the run. */
  datatype Flow<+T> = Go(value: T) | Done(stop: Stop)

  class Machine {
    const world: World
    var tpm: bool
    var capped: bool
    var mode: Mode
    var iniHash: bool
    var setup: bool
    var bootstrap: Option<Guid>
    var volume: Option<Guid>
    var vmk: Option<Key>
    var grey: bool
    var script: seq<Input>
    ghost var trace: seq<Act>
    ghost var pasts: seq<Past>
    ghost var past: Past

    /** The trace is safe, and `past` is what it amounts to. */
    ghost predicate Recorded()
      reads this
    {
      Safe(world, trace, pasts) && past == pasts[|trace|]
    }

    /** Recorded, with no configuration parsed meanwhile. */
    twostate predicate Logged()
      reads this
    {
      Recorded() && past.parsed == old(past.parsed)
    }

    /** The fields know what the trace says: which extends happened, which volume is open, and that the
        TPM did not refuse. */
    ghost predicate Ledger()
      reads this
    {
      && Recorded() && (tpm ==> world.tpm) && (past.loaded ==> past.parsed.Some?)
      && past.taints == (if past.loaded then [Ini(past.parsed.value)] else []) + (if capped then [Boot] else [])
      && capped == past.tainted && (capped || past.loaded ==> tpm)
      && volume == past.volume && (past.refused ==> grey)
    }

    /** From stage 2 on the machine knows whether there is a TPM. */
    ghost predicate Running()
      reads this
    {
      Ledger() && tpm == world.tpm
    }

    /** The configuration in hand is the one that was parsed. */
    ghost predicate Configured(cfg: Option<Config>)
      reads this
    {
      cfg.Some? ==> past.parsed.Some? && world.parse(past.parsed.value) == cfg
    }

    /** The volume is open, its seals are known, and in normal mode it is the configured one. */
    ghost predicate Opened(cfg: Option<Config>, seals: set<Kind>)
      reads this
    {
      && Configured(cfg) && volume.Some? && past.encrypted && seals <= world.seals(volume.value)
      && (mode == Normal && cfg.Some? ==> volume == Some(cfg.value.volume))
    }

    /** A key the volume accepted, by this rung. */
    ghost predicate Unlocked(rung: Rung)
      reads this
    {
      KeyFor(past, vmk, rung)
    }

    /** In normal mode a usable TPM seal means PCR 12 holds the configuration and nothing else. */
    ghost predicate Armed(seals: set<Kind>)
      reads this
    {
      mode == Normal && tpm && TpmSeal in seals ==> past.loaded && !capped
    }

    /** The machine stays in its mode, with PCR 12 as it was, or goes to recovery. */
    twostate predicate Kept()
      reads this
    {
      && tpm == old(tpm) && (mode == old(mode) || mode == Recovery)
      && (mode == old(mode) ==> capped == old(capped) && past.loaded == old(past.loaded))
      && Carried()
    }

    /** The volume, the configuration and the unseals submitted are not forgotten. */
    twostate predicate Carried()
      reads this
    {
      && past.encrypted == old(past.encrypted) && past.parsed == old(past.parsed) && volume == old(volume)
      && old(past.unsealed) <= past.unsealed && old(past.accepted) <= past.accepted && |script| <= |old(script)|
    }

    constructor (world: World, script: seq<Input>)
      ensures Ledger() && trace == [] && past == NoPast && this.world == world && this.script == script
      ensures mode == Normal && bootstrap == None && volume == None && vmk == None && !tpm
    {
      this.world, this.script := world, script;
      tpm, capped, mode, iniHash, setup, bootstrap, volume, vmk, grey := false, false, Normal, false, false, None, None, None, false;
      trace, pasts, past := [], [NoPast], NoPast;
    }

    ghost method Emit(a: Act)
      requires Recorded() && Allowed(world, past, a)
      modifies this`trace, this`pasts, this`past
      ensures Recorded() && past == After(old(past), a) && trace == old(trace) + [a]
    {
      Append(world, trace, pasts, a);
      trace, pasts, past := trace + [a], pasts + [After(past, a)], After(past, a);
    }

    /** The next answer at a prompt. */
    method Ask() returns (i: Option<Input>)
      modifies this`script
      ensures i.Some? ==> |script| < |old(script)|
      ensures i.None? ==> script == old(script)
    {
      if script == [] {
        return None;
      }
      i := Some(script[0]);
      script := script[1..];
    }

    // ---- PCR 12 ------------------------------------------------------------

    /** extend12. */
    method Extend12(what: Taint) returns (ok: bool)
      requires Recorded() && Allowed(world, past, Extend(what, world.takes(what)))
      modifies this`trace, this`pasts, this`past
      ensures Recorded() && past == After(old(past), Extend(what, ok))
    {
      ok := world.takes(what);
      Emit(Extend(what, ok));
    }

    /** cap: the boot-taint sentinel, once. */
    method Cap() returns (ok: bool)
      requires Running()
      modifies this`capped, this`trace, this`pasts, this`past
      ensures Logged()
      ensures ok ==> Running() && Carried() && (tpm ==> capped) && past.loaded == old(past.loaded)
    {
      if !tpm || capped {
        return true;
      }
      ok := Extend12(Boot);
      if ok {
        capped := true;
      }
    }

    /** enter_recovery. */
    method EnterRecovery() returns (ok: bool)
      requires Running()
      modifies this`mode, this`grey, this`capped, this`trace, this`pasts, this`past
      ensures Logged() && mode == Recovery
      ensures ok ==> Running() && Carried() && (tpm ==> capped)
    {
      mode, grey, ok := Recovery, true, true;
      if tpm && !capped {
        ok := Cap();
      }
    }

    method Pcr12IsZero() returns (zero: bool)
      requires Ledger() && past.taints == []
      modifies this`trace, this`pasts, this`past
      ensures Ledger() && past == if tpm then After(old(past), ReadPcr12(zero)) else old(past)
      ensures zero <==> tpm && world.pcr12Zero
    {
      if !tpm {
        return false;
      }
      zero := world.pcr12Zero;
      Emit(ReadPcr12(zero));
    }

    /** start_windows: BootNext and reset, or no Windows entry. */
    method BootWindows() returns (o: Stop)
      requires Recorded()
      modifies this`trace, this`pasts, this`past
      ensures Recorded() && past == old(past) && (o == WindowsNext || o == Halted)
    {
      var found: bool := *;
      if !found {
        return Halted;
      }
      Emit(Reset);
      o := WindowsNext;
    }

    // ---- stages 0 to 2 -----------------------------------------------------

    /** stage1: read, hash, compare. No parser. It hands on exactly the genuine configuration. */
    method Stage1() returns (r: Flow<Option<seq<byte>>>)
      requires Ledger() && mode == Normal && !tpm && past == NoPast
      modifies this`mode, this`iniHash, this`script, this`trace, this`pasts, this`past
      ensures Recorded() && past.parsed == None && (r.Done? ==> forall b :: !Genuine(world, b))
      ensures r.Go? ==> Ledger() && past == NoPast.(trusted := r.value) && (r.value.Some? <==> mode == Normal)
      ensures r.Go? ==> forall b :: r.value == Some(b) <==> Genuine(world, b)
      ensures r.Go? ==> (mode == FirstBoot <==> world.ini == NoFile && bootstrap.Some?)
    {
      match world.ini {
        case NoFile =>
          mode := if bootstrap.Some? then FirstBoot else Recovery;
          return Go(None);
        case Unreadable =>
          mode := Recovery;
          return Go(None);
        case Contents(bytes) =>
          r := Verify(bytes);
      }
    }

    /** The hash of the configuration against the stored one, under Secure Boot. */
    method Verify(bytes: seq<byte>) returns (r: Flow<Option<seq<byte>>>)
      requires Ledger() && mode == Normal && !tpm && past == NoPast && world.ini == Contents(bytes)
      modifies this`mode, this`iniHash, this`script, this`trace, this`pasts, this`past
      ensures Recorded() && past.parsed == None && (r.Done? ==> !Genuine(world, bytes))
      ensures r.Go? ==> Ledger() && past == NoPast.(trusted := r.value) && (r.value.Some? <==> mode == Normal) && mode != FirstBoot
      ensures r.Go? ==> r.value == if Genuine(world, bytes) then Some(bytes) else None
    {
      var hash := world.digest(bytes);
      iniHash := true;
      if world.secureBoot && world.stored.None? {
        mode := Recovery;
        return Go(None);
      }
      if world.secureBoot && world.stored != Some(hash) {
        var i := Ask();
        if i == None {
          return Done(Waiting);
        }
        if i == Some(Recover) {
          mode := Recovery;
          return Go(None);
        }
        var o := BootWindows();
        return Done(o);
      }
      Emit(Trust(bytes));
      r := Go(Some(bytes));
    }

    /** stage2: parse; or recovery and first boot, which cap. */
    method Stage2(ini: Option<seq<byte>>) returns (r: Flow<Option<Config>>)
      requires Running() && past == NoPast.(trusted := ini) && (ini.Some? <==> mode == Normal)
      modifies this`mode, this`grey, this`capped, this`script, this`trace, this`pasts, this`past
      ensures Recorded() && past.parsed == ini
      ensures r.Go? ==> Running() && past.volume == None && Configured(r.value)
      ensures r.Go? ==> if mode == Normal then r.value.Some? && past.taints == [] else r.value == None && (tpm ==> capped)
    {
      if mode == Recovery {
        var ok := EnterRecovery();
        return if ok then Go(None) else Done(Halted);
      }
      if mode == FirstBoot {
        var zero := Pcr12IsZero();
        var ok := Cap();
        return if ok then Go(None) else Done(Halted);
      }
      Emit(Parse(ini.value));
      var cfg := world.parse(ini.value);
      if cfg.Some? {
        return Go(cfg);
      }
      var i := Ask();
      if i == None {
        return Done(Waiting);
      }
      if i == Some(Recover) {
        var ok := EnterRecovery();
        return if ok then Go(None) else Done(Halted);
      }
      var o := BootWindows();
      r := Done(o);
    }

    /** ratchet: arms the load. From a register that reads zero the configuration is extended; a volume
        without a seal is capped instead; on any other reading the user picks recovery or Windows. */
    method LoadTaint(ini: seq<byte>, seals: set<Kind>) returns (r: Flow<()>)
      requires Running() && mode == Normal && past.taints == [] && past.parsed == Some(ini)
      modifies this`mode, this`grey, this`capped, this`script, this`trace, this`pasts, this`past
      ensures Logged()
      ensures r.Go? ==> Running() && Armed(seals) && past.volume == old(past.volume) && (mode == Normal || mode == Recovery)
      ensures r.Go? && mode == Normal && tpm ==> world.pcr12Zero && (TpmSeal !in seals ==> capped)
    {
      if !tpm {
        return Go(());
      }
      var zero := Pcr12IsZero();
      if !zero {
        var i := Ask();
        if i == None {
          return Done(Waiting);
        }
        if i == Some(Recover) {
          var ok := EnterRecovery();
          return if ok then Go(()) else Done(Halted);
        }
        var o := BootWindows();
        return Done(o);
      }
      var ok;
      if TpmSeal in seals {
        ok := Extend12(Ini(ini));
      } else {
        ok := Cap();
      }
      r := if ok then Go(()) else Done(Halted);
    }

    // ---- stage 3 -----------------------------------------------------------

    /** select_volume: the configured volume, or whatever enumeration finds. */
    method SelectVolume(target: Option<Guid>) returns (r: Flow<Guid>)
      requires Running() && (mode == Normal ==> target.Some?)
      modifies this`mode, this`grey, this`capped, this`script, this`trace, this`pasts, this`past
      ensures Logged()
      ensures r.Go? ==> Running() && Kept() && past.volume == old(past.volume) && (mode == Normal ==> target == Some(r.value))
    {
      if mode != Recovery && target.Some? {
        var found: bool, fails: bool := *, *;
        if fails {
          return Done(Halted);
        }
        if found {
          return Go(target.value);
        }
        var i := Ask();
        if i == None {
          return Done(Waiting);
        }
        if i != Some(Recover) {
          var o := BootWindows();
          return Done(o);
        }
        var ok := EnterRecovery();
        if !ok {
          return Done(Halted);
        }
      }
      r := PickVolume();
    }

    /** Whatever enumeration finds, chosen by the user among several. */
    method PickVolume() returns (r: Flow<Guid>)
      requires Recorded()
      modifies this`script, this`trace, this`pasts, this`past
      ensures Recorded() && past == old(past) && |script| <= |old(script)|
    {
      var candidates: nat, guid: Guid := *, *;
      if candidates == 1 {
        return Go(guid);
      }
      var i := Ask();
      match i {
        case None => return Done(Waiting);
        case Some(StartWindows) =>
          var o := BootWindows();
          return Done(o);
        case Some(Choose(pick)) => return if candidates > 0 && pick < candidates then Go(guid) else Done(Halted);
        case Some(_) => return Done(Halted);
      }
    }

    /** accept: the volume's verdict on a key. None: reading it failed. */
    method Accept(key: Key, rung: Rung) returns (ok: Option<bool>)
      requires Running() && volume.Some? && Usable(world, past, rung)
      modifies this`vmk, this`trace, this`pasts, this`past
      ensures Running() && Kept() && (ok == Some(true) ==> vmk == Some(key) && Unlocked(rung))
      ensures ok.Some? ==> (ok.value <==> world.opens(volume.value, key))
    {
      var fails: bool := *;
      if fails {
        return None;
      }
      var opens := world.opens(volume.value, key);
      Emit(TryVmk(key, rung, opens));
      if opens {
        vmk := Some(key);
      }
      ok := Some(opens);
    }

    /** A key from somewhere, tried on the volume. */
    method TryKey(rung: Rung) returns (r: Flow<Option<Rung>>)
      requires Running() && volume.Some? && Usable(world, past, rung)
      modifies this`vmk, this`trace, this`pasts, this`past
      ensures Running() && Kept()
      ensures r.Go? && r.value.Some? ==> r.value == Some(rung) && Unlocked(rung)
    {
      var key: Key, fails: bool := *, *;
      if fails {
        return Done(Halted);
      }
      var ok := Accept(key, rung);
      match ok {
        case None => return Done(Halted);
        case Some(true) => return Go(Some(rung));
        case Some(false) => return Go(None);
      }
    }

    predicate TpmUsable(cfg: Option<Config>, seals: set<Kind>)
      reads this
    {
      tpm && mode == Normal && !grey && TpmSeal in seals && cfg.Some? && cfg.value.tpm
    }

    predicate SetupUsable(cfg: Option<Config>, seals: set<Kind>)
      reads this
    {
      setup && iniHash && SetupTpmSeal in seals && (mode != Normal || (cfg.Some? && cfg.value.setupTpm))
    }

    predicate PassphraseUsable(cfg: Option<Config>, seals: set<Kind>)
      reads this
    {
      PassphraseSeal in seals && (mode != Normal || (cfg.Some? && cfg.value.passphrase))
    }

    /** try_pin_bypass. */
    method TryPinBypass(cfg: Option<Config>, seals: set<Kind>) returns (r: Flow<Option<Rung>>)
      requires Running() && Opened(cfg, seals)
      modifies this`vmk, this`trace, this`pasts, this`past
      ensures Running() && Kept()
      ensures r.Go? && r.value.Some? ==> Unlocked(r.value.value)
    {
      if PinBypassSeal !in seals || !tpm || mode != Normal || cfg.None? || !cfg.value.tpm {
        return Go(None);
      }
      var clockFits: bool, unsealed: bool := *, *;
      if !clockFits {
        return Go(None);
      }
      Emit(UnsealBypass);
      if !unsealed {
        return Go(None);
      }
      r := TryKey(PinBypass);
    }

    /** try_tpm: the TPM unseal under the password, counted by the TPM against its lockout. */
    method TryTpm(cfg: Option<Config>, seals: set<Kind>) returns (r: Flow<Option<Rung>>)
      requires Running() && Armed(seals) && Opened(cfg, seals) && TpmUsable(cfg, seals)
      modifies this`vmk, this`grey, this`trace, this`pasts, this`past
      ensures Running() && Kept()
      ensures r.Go? && r.value.Some? ==> Unlocked(r.value.value)
    {
      var answer: Answer := *;
      Emit(UnsealTpm(answer));
      if answer == Unsealed {
        r := TryKey(Tpm);
      } else {
        grey := grey || answer == Refused;
        r := Go(None);
      }
    }

    /** A protector tried if it is usable and nothing before it ended the search. */
    method TryNext(before: Flow<Option<Rung>>, usable: bool, rung: Rung) returns (r: Flow<Option<Rung>>)
      requires Running() && volume.Some? && (usable ==> Usable(world, past, rung))
      requires before.Go? && before.value.Some? ==> Unlocked(before.value.value)
      modifies this`vmk, this`trace, this`pasts, this`past
      ensures Running() && Kept()
      ensures r.Go? && r.value.Some? ==> Unlocked(r.value.value)
    {
      if before.Done? || before.value.Some? || !usable {
        return before;
      }
      r := TryKey(rung);
    }

    /** The free protectors of try_password_hash. */
    method TryFree(withTpm: bool, cfg: Option<Config>, seals: set<Kind>) returns (r: Flow<Option<Rung>>)
      requires Running() && Opened(cfg, seals)
      modifies this`vmk, this`trace, this`pasts, this`past
      ensures Running() && Kept()
      ensures r.Go? && r.value.Some? ==> Unlocked(r.value.value)
    {
      var protector: bool := *;
      r := TryNext(Go(None), withTpm && SetupUsable(cfg, seals), SetupTpm);
      r := TryNext(r, PassphraseUsable(cfg, seals), Passphrase);
      r := TryNext(r, withTpm && bootstrap.Some?, Bootstrap);
      r := TryNext(r, protector, BitLockerPassword);
    }

    /** try_password_hash: free protectors first, then the TPM. */
    method TryPassword(withTpm: bool, cfg: Option<Config>, seals: set<Kind>) returns (r: Flow<Option<Rung>>)
      requires Running() && Armed(seals) && Opened(cfg, seals)
      modifies this`vmk, this`grey, this`trace, this`pasts, this`past
      ensures Running() && Kept()
      ensures r.Go? && r.value.Some? ==> Unlocked(r.value.value)
    {
      r := TryFree(withTpm, cfg, seals);
      if r.Done? || r.value.Some? {
        return;
      }
      if withTpm && TpmUsable(cfg, seals) {
        r := TryTpm(cfg, seals);
      }
    }

    /** The row picked on the unlock screen, recovery asked for (None), or the end. */
    method PickRow(cfg: Option<Config>, seals: set<Kind>) returns (r: Flow<Option<Row>>)
      requires Running()
      modifies this`mode, this`grey, this`capped, this`script, this`trace, this`pasts, this`past
      ensures Logged()
      ensures r.Go? ==> Running() && Kept() && |script| < |old(script)| && vmk == old(vmk)
    {
      var free: bool := *;
      var i := Ask();
      if i == None {
        return Done(Waiting);
      }
      if i == Some(Select(PasswordOrPin))
         && (TpmUsable(cfg, seals) || SetupUsable(cfg, seals) || PassphraseUsable(cfg, seals) || bootstrap.Some? || free) {
        return Go(Some(PasswordOrPin));
      }
      if i == Some(Select(RecoveryPassphrase)) && PassphraseUsable(cfg, seals) {
        return Go(Some(RecoveryPassphrase));
      }
      if i == Some(Select(RecoveryKeyRow)) {
        return Go(Some(RecoveryKeyRow));
      }
      if i == Some(StartWindows) {
        var o := BootWindows();
        return Done(o);
      }
      if i == Some(Recover) && mode == Normal {
        var ok := EnterRecovery();
        return if ok then Go(None) else Done(Halted);
      }
      i := Ask();
      match i {
        case None => return Done(Waiting);
        case Some(Select(row)) => return if row == RecoveryKeyRow then Go(Some(RecoveryKeyRow)) else Done(Halted);
        case Some(StartWindows) =>
          var o := BootWindows();
          return Done(o);
        case Some(Continue) =>
          var o := BootWindows();
          return Done(o);
        case Some(_) => return Done(Halted);
      }
    }

    /** What was typed for a row, tried. */
    method TryRow(row: Row, cfg: Option<Config>, seals: set<Kind>) returns (r: Flow<Option<Rung>>)
      requires Running() && Armed(seals) && Opened(cfg, seals)
      modifies this`vmk, this`grey, this`trace, this`pasts, this`past
      ensures Running() && Kept()
      ensures r.Go? && r.value.Some? ==> Unlocked(r.value.value)
    {
      var wellFormed: bool, opens: bool := *, *;
      if !wellFormed {
        return Go(None);
      }
      if row == RecoveryKeyRow {
        if !opens {
          return Go(None);
        }
        r := TryKey(RecoveryKey);
        return;
      }
      r := TryPassword(row == PasswordOrPin, cfg, seals);
    }

    /** The input-free rungs: the PIN bypass, then a clear key. */
    method TrySilently(cfg: Option<Config>, seals: set<Kind>) returns (r: Flow<Option<Rung>>)
      requires Running() && Opened(cfg, seals)
      modifies this`vmk, this`trace, this`pasts, this`past
      ensures Running() && Kept()
      ensures r.Go? && r.value.Some? ==> Unlocked(r.value.value)
    {
      r := TryPinBypass(cfg, seals);
      if r.Done? || r.value.Some? {
        return;
      }
      var clear: bool := *;
      if clear {
        r := TryKey(ClearKey);
      }
    }

    /** One turn of the prompt loop: a row, a secret, a try. */
    method UnlockOnce(cfg: Option<Config>, seals: set<Kind>) returns (r: Flow<Option<Rung>>)
      requires Running() && Armed(seals) && Opened(cfg, seals)
      modifies this`mode, this`grey, this`capped, this`script, this`vmk, this`trace, this`pasts, this`past
      ensures Logged()
      ensures r.Go? ==> Running() && Kept() && |script| < |old(script)|
      ensures r.Go? && r.value.Some? ==> Unlocked(r.value.value)
    {
      var row := PickRow(cfg, seals);
      if row.Done? {
        return Done(row.stop);
      }
      if row.value.None? {
        return Go(None);
      }
      var i := Ask();
      if i == None {
        return Done(Waiting);
      }
      if i != Some(Secret) {
        return Go(None);
      }
      r := TryRow(row.value.value, cfg, seals);
    }

    /** unlock: the input-free rungs, then the prompt loop. */
    method Unlock(config: Option<Config>, seals: set<Kind>) returns (r: Flow<Rung>)
      requires Running() && Armed(seals) && Opened(config, seals)
      modifies this`mode, this`grey, this`capped, this`script, this`vmk, this`trace, this`pasts, this`past
      ensures Logged()
      ensures r.Go? ==> Running() && Kept() && Unlocked(r.value)
    {
      var got := TrySilently(config, seals);
      if got.Go? && got.value.None? && TpmUsable(config, seals) {
        grey := *;
      }
      while got.Go? && got.value.None?
        invariant Logged()
        invariant got.Go? ==> Running() && Armed(seals) && Kept()
        invariant got.Go? && got.value.Some? ==> Unlocked(got.value.value)
        decreases got.Go? && got.value.None?, |script|
      {
        got := UnlockOnce(if mode == Normal then config else None, seals);
      }
      r := if got.Done? then Done(got.stop) else Go(got.value.value);
    }

    // ---- stage 4 -----------------------------------------------------------

    /** Past the boot taint: what follows may touch NTFS. */
    ghost predicate Tainted()
      reads this
    {
      Running() && (world.tpm ==> past.tainted)
    }

    /** The machine is as it was but for prompts answered and files looked at. */
    twostate predicate Looked()
      reads this
    {
      Tainted() && past == old(past) && mode == old(mode) && vmk == old(vmk) && |script| <= |old(script)|
    }

    /** typed_path: whether a path was typed and taken. */
    method TypedPath() returns (r: Flow<bool>)
      requires Tainted()
      modifies this`script
      ensures Looked()
    {
      var i := Ask();
      var fits: bool := *;
      r := if i == None then Done(Waiting) else Go(i == Some(Secret) && fits);
    }

    method List() returns (ok: bool)
      requires Tainted()
      modifies this`trace, this`pasts, this`past
      ensures Looked()
    {
      Emit(ListFiles);
      ok := *;
    }

    /** browse_root and browse_efi_partition: a listing and an answer, again and again; false goes back. */
    method BrowseFor(root: bool) returns (r: Flow<bool>)
      requires Tainted()
      modifies this`script, this`trace, this`pasts, this`past
      ensures Looked()
    {
      while true
        invariant Looked()
        decreases |script|
      {
        var ok := List();
        if !ok {
          return Done(Halted);
        }
        var partition: bool := *;
        if !root && !partition {
          return Go(false);
        }
        var i := Ask();
        match i {
          case None => return Done(Waiting);
          case Some(Entry) =>
            var taken: bool := *;
            if taken {
              return Go(true);
            }
          case Some(Parent) =>
          case Some(TypePath) =>
            r := TypedPath();
            if r.Done? || r.value {
              return;
            }
          case Some(NoRoot) => return Go(root);
          case Some(_) => return Go(false);
        }
      }
    }

    /** disk_start: the default image, one browsed on the disk's EFI partition, or a typed one. */
    method DiskStart() returns (r: Flow<bool>)
      requires Tainted()
      modifies this`script, this`trace, this`pasts, this`past
      ensures Looked()
    {
      while true
        invariant Looked()
        decreases |script|
      {
        var i := Ask();
        match i {
          case None => return Done(Waiting);
          case Some(UseDefault) => return Go(true);
          case Some(TypePath) => r := TypedPath();
          case Some(BrowseDisk) => r := BrowseFor(false);
          case Some(_) => return Go(false);
        }
        if r.Done? || r.value {
          return;
        }
      }
    }

    /** Step 2 of recovery: a disk (true) or a UEFI image (false) on the volume; None looks again. */
    method PickFile() returns (r: Flow<Option<bool>>)
      requires Tainted()
      modifies this`script, this`trace, this`pasts, this`past
      ensures Logged()
      ensures r.Go? ==> Looked() && |script| < |old(script)|
    {
      var ok := List();
      if !ok {
        return Done(Halted);
      }
      var i := Ask();
      var taken: bool, disk: bool := *, *;
      match i {
        case None => return Done(Waiting);
        case Some(Entry) => return Go(if taken then Some(disk) else None);
        case Some(Parent) => return Go(None);
        case Some(TypePath) =>
          var typed := TypedPath();
          return if typed.Done? then Done(typed.stop) else Go(if typed.value then Some(disk) else None);
        case Some(StartWindows) =>
          var o := BootWindows();
          return Done(o);
        case Some(_) => return Done(Halted);
      }
    }

    /** choose_target: what recovery starts, chosen on screen. */
    method ChooseTarget() returns (r: Flow<()>)
      requires Tainted()
      modifies this`script, this`trace, this`pasts, this`past
      ensures Logged()
      ensures r.Go? ==> Looked()
    {
      var ok := List();
      var alone: bool, disks: nat := *, *;
      if !ok || alone {
        return if ok then Go(()) else Done(Halted);
      }
      while true
        invariant Looked()
        decreases |script|
      {
        var picked := PickFile();
        if picked.Done? {
          return Done(picked.stop);
        }
        if picked.value.None? {
          continue;
        }
        if !picked.value.value && disks <= 1 {
          return Go(());
        }
        var settled;
        if picked.value.value {
          settled := DiskStart();
        } else {
          settled := BrowseFor(true);
        }
        if settled.Done? {
          return Done(settled.stop);
        }
        if settled.value {
          return Go(());
        }
      }
    }

    /** Locating the image, and the gates of a hibernated or dirty volume. */
    method FindImage() returns (r: Flow<()>)
      requires Tainted()
      modifies this`script, this`trace, this`pasts, this`past
      ensures Logged()
      ensures r.Go? ==> Looked()
    {
      if mode == Recovery {
        var chosen := ChooseTarget();
        if chosen.Done? {
          return Done(chosen.stop);
        }
      }
      Emit(Locate);
      var bootable: bool, gates: nat := *, *;
      if !bootable {
        return Done(Halted);
      }
      var g := 0;
      while g < gates && g < 2
        invariant Looked()
      {
        var i := Ask();
        if i == None {
          return Done(Waiting);
        }
        if i == Some(StartWindows) {
          var o := BootWindows();
          return Done(o);
        }
        g := g + 1;
      }
      r := Go(());
    }

    /** What unlocking a volume leaves: its rung, and a key where it is encrypted. */
    ghost predicate Chosen(rung: Rung)
      reads this
    {
      && Running() && volume.Some?
      && if past.encrypted then Unlocked(rung) else rung == Unencrypted && TpmSeal !in world.seals(volume.value)
    }

    /** The handoff, and the image started. */
    method HandOff(rung: Rung) returns (o: Outcome)
      requires Tainted() && Chosen(rung)
      modifies this`trace, this`pasts, this`past
      ensures Logged() && (o == Stopped(Halted) || (o == Started(rung) && trace != [] && trace[|trace| - 1] == Start))
    {
      var built: bool, loaded: bool, starts: bool := *, *, *;
      if !built {
        return Stopped(Halted);
      }
      Emit(Publish(vmk, rung));
      if !loaded {
        return Stopped(Halted);
      }
      Emit(Start);
      o := if starts then Started(rung) else Stopped(Halted);
    }

    // ---- the run -----------------------------------------------------------

    /** open. */
    method Mount(guid: Guid, encrypted: bool)
      requires Running() && past.volume == None && encrypted == (world.kind(guid) == BitLockerVolume)
      modifies this`volume, this`trace, this`pasts, this`past
      ensures Running() && volume == Some(guid) && past == old(past).(volume := Some(guid), encrypted := encrypted)
    {
      Emit(Open(guid, encrypted));
      volume := Some(guid);
    }

    /** Stage 3 on the volume chosen: its seals, its kind, its key. */
    method OpenVolume(cfg: Option<Config>, seals: set<Kind>, parsed: set<Kind>, guid: Guid) returns (r: Flow<Rung>)
      requires Running() && Armed(seals) && parsed <= seals && past.volume == None && seals == world.seals(guid)
      requires Configured(cfg) && (mode == Normal ==> cfg.Some? && guid == cfg.value.volume)
      modifies this`mode, this`grey, this`capped, this`script, this`volume, this`vmk, this`trace, this`pasts, this`past
      ensures Logged() && (r.Go? ==> Chosen(r.value))
    {
      var fails: bool := *;
      var kind := world.kind(guid);
      if fails || kind == OtherVolume {
        return Done(Halted);
      }
      Mount(guid, kind == BitLockerVolume);
      if kind == NtfsVolume {
        return if TpmSeal in seals then Done(Halted) else Go(Unencrypted);
      }
      r := Unlock(cfg, parsed);
    }

    /** Stages 3 and 4, from the volume on. */
    method Finish(cfg: Option<Config>, seals: set<Kind>, guid: Guid) returns (o: Outcome)
      requires Running() && Armed(seals) && past.volume == None && seals == world.seals(guid)
      requires Configured(cfg) && (mode == Normal ==> cfg.Some? && guid == cfg.value.volume)
      modifies this`mode, this`grey, this`capped, this`script, this`volume, this`vmk, this`trace, this`pasts, this`past
      ensures Logged() && (o.Started? ==> trace != [] && trace[|trace| - 1] == Start)
    {
      var parsed: set<Kind> := *;
      var rung := OpenVolume(cfg, seals, parsed * seals, guid);
      if rung.Done? {
        return Stopped(rung.stop);
      }
      var ok := Cap();
      if !ok {
        return Stopped(Halted);
      }
      var found := FindImage();
      if found.Done? {
        return Stopped(found.stop);
      }
      o := HandOff(rung.value);
    }

    /** Stages 1 and 2: the configuration, or None outside normal mode. The genuine one is parsed, and
        nothing else is. */
    method ReadConfig() returns (ini: Option<seq<byte>>, r: Flow<Option<Config>>)
      requires Ledger() && mode == Normal && !tpm && past == NoPast
      modifies this`tpm, this`mode, this`iniHash, this`grey, this`capped, this`script, this`trace, this`pasts, this`past
      ensures Recorded() && (forall b :: past.parsed == Some(b) <==> Genuine(world, b))
      ensures r.Go? ==> Running() && past.volume == None && Configured(r.value) && past.parsed == ini
      ensures r.Go? ==> (mode == Normal <==> r.value.Some?) && (mode == Normal ==> past.taints == [] && ini.Some?)
    {
      ini := None;
      var verified := Stage1();
      if verified.Done? {
        return None, Done(verified.stop);
      }
      ini := verified.value;
      tpm := world.tpm;
      r := Stage2(ini);
    }

    /** Stage 2 to the end, in the mode the configuration left. */
    method Proceed(ini: Option<seq<byte>>, cfg: Option<Config>) returns (o: Outcome)
      requires Running() && past.volume == None && Configured(cfg) && past.parsed == ini
      requires (mode == Normal <==> cfg.Some?) && (mode == Normal ==> past.taints == [] && ini.Some?)
      modifies this
      ensures Logged() && (o.Started? ==> trace != [] && trace[|trace| - 1] == Start)
    {
      var rng: bool := *;
      var target := if mode == Normal then Some(cfg.value.volume) else if mode == FirstBoot then bootstrap else None;
      var seals := if target.Some? then world.seals(target.value) else {};
      if mode == Normal {
        var taint := LoadTaint(ini.value, seals);
        if taint.Done? {
          return Stopped(taint.stop);
        }
      }
      setup := *;
      if !rng {
        return Stopped(Halted);
      }
      var guid := SelectVolume(target);
      if guid.Done? {
        return Stopped(guid.stop);
      }
      if target != Some(guid.value) {
        seals := world.seals(guid.value);
      }
      o := Finish(if mode == Normal then cfg else None, seals, guid.value);
    }

    /** go: the whole run of the loader. Its trace is safe in its world, and the configuration is parsed
        exactly when it is genuine. */
    method Run() returns (o: Outcome)
      requires Ledger() && mode == Normal && !tpm && trace == [] && past == NoPast
      modifies this
      ensures Safe(world, trace, pasts)
      ensures forall b :: Parse(b) in trace <==> !world.uninstall && Genuine(world, b)
      ensures o.Started? ==> trace != [] && trace[|trace| - 1] == Start
    {
      bootstrap := *;
      if world.uninstall {
        var stop := BootWindows();
        ParsedIs();
        return Stopped(stop);
      }
      var ini, cfg := ReadConfig();
      if cfg.Done? {
        ParsedIs();
        return Stopped(cfg.stop);
      }
      o := Proceed(ini, cfg.value);
      ParsedIs();
    }

    /** The trace says which configuration was parsed. */
    lemma {:induction false} ParsedIs()
      requires Recorded()
      ensures forall b :: Parse(b) in trace <==> past.parsed == Some(b)
    {
      assert trace[..|trace|] == trace;
      forall b ensures Parse(b) in trace <==> past.parsed == Some(b) {
        ParsedExactly(world, trace, pasts, |trace|, b);
      }
    }
  }
}
