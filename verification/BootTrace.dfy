/** What a boot does that matters to PCR 12 and to the key, as a trace of events, and which traces
    are safe in a given world (crates/paguro-boot/src/machine.rs). */
module BootTrace {
  import opened Words

  type Key = int
  type Guid = int
  type Digest = int

  // ---- the world around the loader -----------------------------------------

  datatype Kind = TpmSeal | SetupTpmSeal | PassphraseSeal | PinBypassSeal

  datatype VolumeKind = BitLockerVolume | NtfsVolume | OtherVolume

  /** paguro.ini, as far as the machine looks: the default entry's volume and the enabled rungs. */
  datatype Config = Config(volume: Guid, tpm: bool, setupTpm: bool, passphrase: bool)

  /** The file itself; one that fails to read or is over 64 KiB counts as unreadable. */
  datatype IniFile = NoFile | Unreadable | Contents(bytes: seq<byte>)

  /** What PCR 12 is extended with: the configuration's bytes, or the boot-taint sentinel. */
  datatype Taint = Ini(bytes: seq<byte>) | Boot

  /** What the loader finds: the firmware, its variables and TPM, the files of the ESP, the volumes. */
  datatype World = World(
    tpm: bool, secureBoot: bool, uninstall: bool,
    ini: IniFile,
    stored: Option<Digest>,               // the configuration hash variable, if it has the right size
    digest: seq<byte> -> Digest,
    parse: seq<byte> -> Option<Config>,
    pcr12Zero: bool,                      // what reading PCR 12 says before any extend
    takes: Taint -> bool,                 // whether that extend succeeds
    seals: Guid -> set<Kind>,             // the seal files in a volume's directory
    kind: Guid -> VolumeKind,
    opens: (Guid, Key) -> bool)           // whether the volume opens under the key

  /** b is the configuration, and nobody changed it under Secure Boot. */
  predicate Genuine(w: World, b: seq<byte>) {
    w.ini == Contents(b) && (w.secureBoot ==> w.stored == Some(w.digest(b)))
  }

  // ---- traces --------------------------------------------------------------

  datatype Rung = Tpm | SetupTpm | Passphrase | Bootstrap | BitLockerPassword | RecoveryKey | ClearKey | PinBypass | Unencrypted

  /** The TPM's answer to an unseal: the secret, a wrong password, or anything else. */
  datatype Answer = Unsealed | AuthFail | Refused

  datatype Act =
    | Trust(bytes: seq<byte>)                   // the configuration's hash matched, or Secure Boot is off
    | Parse(bytes: seq<byte>)                   // the configuration is parsed
    | ReadPcr12(zero: bool)
    | Extend(what: Taint, ok: bool)             // submitted; ok: the firmware says it happened
    | Open(volume: Guid, encrypted: bool)       // the volume: BitLocker, or plain NTFS
    | TryVmk(vmk: Key, rung: Rung, ok: bool)    // ok: the volume opened under it
    | UnsealTpm(answer: Answer)                 // the `tpm` rung's unseal
    | UnsealBypass
    | ListFiles                                 // a directory of the NTFS volume, or of a disk on it
    | Locate                                    // NTFS is searched for the image
    | Publish(handed: Option<Key>, rung: Rung)  // the handoff
    | Start                                     // LoadImage / StartImage
    | Reset                                     // BootNext = Windows, and reset

  /** What the past amounts to. */
  datatype Past = Past(taints: seq<Taint>, tainted: bool, loaded: bool, zero: bool, trusted: Option<seq<byte>>, parsed: Option<seq<byte>>,
                       volume: Option<Guid>, encrypted: bool, accepted: set<(Key, Rung)>, refused: bool, unsealed: set<Rung>,
                       published: Option<(Option<Key>, Rung)>)

  const NoPast := Past([], false, false, false, None, None, None, false, {}, false, {}, None)

  function After(p: Past, a: Act): Past {
    match a
    case Trust(bytes) => p.(trusted := Some(bytes))
    case Parse(bytes) => p.(parsed := Some(bytes))
    case ReadPcr12(zero) => p.(zero := zero)
    case Extend(what, ok) =>
      p.(taints := p.taints + [what], tainted := p.tainted || (what == Boot && ok), loaded := p.loaded || (what.Ini? && ok), zero := false)
    case Open(volume, encrypted) => p.(volume := Some(volume), encrypted := encrypted)
    case TryVmk(vmk, rung, ok) => if ok then p.(accepted := p.accepted + {(vmk, rung)}) else p
    case UnsealTpm(answer) => p.(refused := p.refused || answer == Refused, unsealed := p.unsealed + {Tpm})
    case UnsealBypass => p.(unsealed := p.unsealed + {PinBypass})
    case Publish(vmk, rung) => p.(published := Some((vmk, rung)))
    case _ => p
  }

  /** Extended with the configuration and nothing else, successfully. */
  predicate ExactlyLoaded(p: Past) {
    |p.taints| == 1 && p.taints[0].Ini? && p.loaded
  }

  /** The configuration that was parsed enables the TPM, for the volume that is open. */
  predicate EnablesTpm(w: World, p: Past) {
    && p.parsed.Some? && p.volume.Some?
    && var c := w.parse(p.parsed.value); c.Some? && c.value.tpm && c.value.volume == p.volume.value
  }

  /** May this happen now, in this world, and is what it reports what the world says? */
  predicate Allowed(w: World, p: Past, a: Act) {
    match a
    case Trust(bytes) => Genuine(w, bytes)
    case Parse(bytes) => p.trusted == Some(bytes) && p.parsed == None
    case ReadPcr12(zero) => w.tpm && p.taints == [] && zero == w.pcr12Zero
    case Extend(what, ok) =>
      && w.tpm && ok == w.takes(what)
      && (what.Ini? ==> p.taints == [] && p.zero && p.parsed == Some(what.bytes))
      && (what == Boot ==> p.taints == [] || ExactlyLoaded(p))
    case Open(volume, encrypted) => p.volume == None && encrypted == (w.kind(volume) == BitLockerVolume)
    case TryVmk(vmk, rung, ok) => p.volume.Some? && ok == w.opens(p.volume.value, vmk) && Usable(w, p, rung)
    case UnsealTpm(answer) => w.tpm && ExactlyLoaded(p) && !p.refused && EnablesTpm(w, p) && TpmSeal in w.seals(p.volume.value)
    case UnsealBypass => w.tpm && EnablesTpm(w, p) && PinBypassSeal in w.seals(p.volume.value)
    case ListFiles => w.tpm ==> p.tainted
    case Locate => w.tpm ==> p.tainted
    case Publish(vmk, rung) =>
      && (w.tpm ==> p.tainted) && p.volume.Some?
      && if p.encrypted then KeyFor(p, vmk, rung) else rung == Unencrypted && TpmSeal !in w.seals(p.volume.value)
    case Start => (w.tpm ==> p.tainted) && p.published.Some?
    case Reset => true
  }

  /** What a rung needs: its unseal, or its seal file on the volume. */
  predicate Usable(w: World, p: Past, rung: Rung)
    requires p.volume.Some?
  {
    match rung
    case Tpm => Tpm in p.unsealed
    case PinBypass => PinBypass in p.unsealed
    case SetupTpm => SetupTpmSeal in w.seals(p.volume.value)
    case Passphrase => PassphraseSeal in w.seals(p.volume.value)
    case Unencrypted => false
    case _ => true
  }

  /** A key the volume accepted, by this very rung. */
  predicate KeyFor(p: Past, vmk: Option<Key>, rung: Rung) {
    vmk.Some? && (vmk.value, rung) in p.accepted
  }

  /** Every act of the trace was allowed when it happened; ps is what the past amounted to before each. */
  ghost predicate Safe(w: World, t: seq<Act>, ps: seq<Past>) {
    |ps| == |t| + 1 && ps[0] == NoPast && forall k :: 0 <= k < |t| ==> Follows(w, t, ps, k)
  }

  ghost predicate Follows(w: World, t: seq<Act>, ps: seq<Past>, k: int)
    requires |ps| == |t| + 1 && 0 <= k < |t|
  {
    Allowed(w, ps[k], t[k]) && ps[k + 1] == After(ps[k], t[k])
  }

  lemma {:induction false} Append(w: World, t: seq<Act>, ps: seq<Past>, a: Act)
    requires Safe(w, t, ps) && Allowed(w, ps[|t|], a)
    ensures Safe(w, t + [a], ps + [After(ps[|t|], a)])
  {
    var t', ps' := t + [a], ps + [After(ps[|t|], a)];
    forall k | 0 <= k < |t'| ensures Follows(w, t', ps', k) {
      if k < |t| {
        assert Follows(w, t, ps, k);
      }
    }
  }

  // ---- what a safe trace means ---------------------------------------------

  /** The volume is that of the one Open. */
  lemma {:induction false} OpenAt(w: World, t: seq<Act>, ps: seq<Past>, k: nat)
    requires Safe(w, t, ps) && k < |t|
    ensures if t[k].Open? then ps[k].volume == None && ps[k + 1].volume == Some(t[k].volume) && ps[k + 1].encrypted == t[k].encrypted
            else ps[k + 1].volume == ps[k].volume && ps[k + 1].encrypted == ps[k].encrypted
  {
    assert Follows(w, t, ps, k);
  }

  /** The keys accepted, like the unseals submitted, only grow, by what the act reports. */
  lemma {:induction false} KeysAt(w: World, t: seq<Act>, ps: seq<Past>, k: nat)
    requires Safe(w, t, ps) && k < |t|
    ensures ps[k + 1].accepted == ps[k].accepted + if t[k].TryVmk? && t[k].ok then {(t[k].vmk, t[k].rung)} else {}
  {
    assert Follows(w, t, ps, k);
  }

  lemma {:induction false} UnsealsAt(w: World, t: seq<Act>, ps: seq<Past>, k: nat)
    requires Safe(w, t, ps) && k < |t|
    ensures ps[k + 1].unsealed == ps[k].unsealed + if t[k].UnsealTpm? then {Tpm} else if t[k].UnsealBypass? then {PinBypass} else {}
  {
    assert Follows(w, t, ps, k);
  }

  /** So do the extends. */
  lemma {:induction false} TaintsAt(w: World, t: seq<Act>, ps: seq<Past>, k: nat)
    requires Safe(w, t, ps) && k < |t|
    ensures ps[k + 1].taints == ps[k].taints + if t[k].Extend? then [t[k].what] else []
  {
    assert Follows(w, t, ps, k);
  }

  lemma {:induction false} ExtendAt(w: World, t: seq<Act>, ps: seq<Past>, k: nat)
    requires Safe(w, t, ps) && k < |t|
    ensures ps[k + 1].loaded <==> ps[k].loaded || (t[k].Extend? && t[k].ok && t[k].what.Ini?)
    ensures ps[k + 1].tainted <==> ps[k].tainted || (t[k].Extend? && t[k].ok && t[k].what == Boot)
    ensures t[k].Extend? ==> t[k].ok == w.takes(t[k].what) && (t[k].what.Ini? ==> ps[k].parsed == Some(t[k].what.bytes))
  {
    assert Follows(w, t, ps, k);
  }

  /** What was trusted and what was parsed is the genuine configuration. */
  ghost predicate GenuinePast(w: World, p: Past) {
    (p.trusted.Some? ==> Genuine(w, p.trusted.value)) && (p.parsed.Some? ==> Genuine(w, p.parsed.value))
  }

  /** The extends so far are a prefix of [configuration, boot-taint] or of [boot-taint], none without a TPM. */
  ghost predicate ShapedPast(w: World, p: Past) {
    && (p.taints <= [Boot] || (w.ini.Contents? && p.taints <= [Ini(w.ini.bytes), Boot]))
    && (!w.tpm ==> p.taints == []) && (p.zero || p.loaded ==> w.pcr12Zero)
  }

  /** The keys accepted are keys of the volume, whose kind is known. */
  ghost predicate KeyedPast(w: World, p: Past) {
    && (p.accepted != {} ==> p.volume.Some?) && (forall k :: k in p.accepted ==> w.opens(p.volume.value, k.0) && Usable(w, p, k.1))
    && (p.volume.Some? ==> p.encrypted == (w.kind(p.volume.value) == BitLockerVolume))
  }

  ghost predicate Sound(w: World, p: Past) {
    GenuinePast(w, p) && ShapedPast(w, p) && KeyedPast(w, p)
  }

  lemma {:induction false} GenuineStep(w: World, p: Past, a: Act)
    requires GenuinePast(w, p) && Allowed(w, p, a)
    ensures GenuinePast(w, After(p, a))
  {
  }

  lemma {:induction false} ShapedStep(w: World, p: Past, a: Act)
    requires GenuinePast(w, p) && ShapedPast(w, p) && Allowed(w, p, a)
    ensures ShapedPast(w, After(p, a))
  {
    if a.Extend? {
      ShapedExtend(w, p, a.what, a.ok);
    } else if !a.ReadPcr12? {
      SameShape(p, a);
    }
  }

  lemma {:induction false} SameShape(p: Past, a: Act)
    requires !a.Extend? && !a.ReadPcr12?
    ensures After(p, a).taints == p.taints && After(p, a).zero == p.zero && After(p, a).loaded == p.loaded
  {
  }

  lemma {:induction false} ShapedExtend(w: World, p: Past, what: Taint, ok: bool)
    requires GenuinePast(w, p) && ShapedPast(w, p) && Allowed(w, p, Extend(what, ok))
    ensures ShapedPast(w, After(p, Extend(what, ok)))
  {
  }

  lemma {:induction false} KeyedStep(w: World, p: Past, a: Act)
    requires KeyedPast(w, p) && Allowed(w, p, a)
    ensures KeyedPast(w, After(p, a))
  {
    if !a.Open? && !a.TryVmk? {
      assert After(p, a).accepted == p.accepted && After(p, a).volume == p.volume && After(p, a).encrypted == p.encrypted;
      assert p.unsealed <= After(p, a).unsealed;
    }
  }

  lemma {:induction false} SoundPast(w: World, t: seq<Act>, ps: seq<Past>, k: nat)
    requires Safe(w, t, ps) && k <= |t|
    ensures Sound(w, ps[k])
  {
    if k > 0 {
      SoundPast(w, t, ps, k - 1);
      assert Follows(w, t, ps, k - 1);
      GenuineStep(w, ps[k - 1], t[k - 1]);
      ShapedStep(w, ps[k - 1], t[k - 1]);
      KeyedStep(w, ps[k - 1], t[k - 1]);
    }
  }

  /** A configuration is parsed at most once, and the trace says which. */
  lemma {:induction false} ParsedExactly(w: World, t: seq<Act>, ps: seq<Past>, k: nat, b: seq<byte>)
    requires Safe(w, t, ps) && k <= |t|
    ensures Parse(b) in t[..k] <==> ps[k].parsed == Some(b)
  {
    if k > 0 {
      ParsedExactly(w, t, ps, k - 1, b);
      assert Follows(w, t, ps, k - 1);
      assert t[..k] == t[..k - 1] + [t[k - 1]];
    }
  }

  /** Only the configuration as it is on disk is parsed, and under Secure Boot only if the stored hash is
      there and is its hash. */
  lemma {:induction false} ParsedGenuine(w: World, t: seq<Act>, ps: seq<Past>, i: nat)
    requires Safe(w, t, ps) && i < |t| && t[i].Parse?
    ensures w.ini == Contents(t[i].bytes) && (w.secureBoot ==> w.stored == Some(w.digest(t[i].bytes)))
  {
    SoundPast(w, t, ps, i);
    assert Follows(w, t, ps, i);
  }

  /** The extends of a trace, in order. */
  function Extends(t: seq<Act>): seq<Taint> {
    if t == [] then [] else Extends(t[..|t| - 1]) + if t[|t| - 1].Extend? then [t[|t| - 1].what] else []
  }

  lemma {:induction false} TaintsAre(w: World, t: seq<Act>, ps: seq<Past>, k: nat)
    requires Safe(w, t, ps) && k <= |t|
    ensures ps[k].taints == Extends(t[..k])
  {
    if k > 0 {
      TaintsAre(w, t, ps, k - 1);
      TaintsAt(w, t, ps, k - 1);
      assert t[..k][..k - 1] == t[..k - 1];
    }
  }

  /** The extend sequence is always a prefix of [configuration, boot-taint] or of [boot-taint]; without a TPM
      there is none. */
  lemma {:induction false} ExtendsShape(w: World, t: seq<Act>, ps: seq<Past>, k: nat)
    requires Safe(w, t, ps) && k <= |t|
    ensures Extends(t[..k]) <= [Boot] || (w.ini.Contents? && Extends(t[..k]) <= [Ini(w.ini.bytes), Boot])
    ensures !w.tpm ==> Extends(t[..k]) == []
  {
    SoundPast(w, t, ps, k);
    TaintsAre(w, t, ps, k);
  }

  lemma {:induction false} TaintedEarlier(w: World, t: seq<Act>, ps: seq<Past>, k: nat) returns (j: nat)
    requires Safe(w, t, ps) && k <= |t| && ps[k].tainted
    ensures j < k && t[j] == Extend(Boot, true) && w.takes(Boot)
  {
    ExtendAt(w, t, ps, k - 1);
    if ps[k - 1].tainted {
      j := TaintedEarlier(w, t, ps, k - 1);
    } else {
      j := k - 1;
    }
  }

  /** With a TPM, nothing on NTFS is listed or located and no image is started before the boot taint. */
  lemma {:induction false} NothingBeforeTaint(w: World, t: seq<Act>, ps: seq<Past>, i: nat) returns (j: nat)
    requires w.tpm && Safe(w, t, ps) && i < |t| && (t[i].ListFiles? || t[i].Locate? || t[i].Publish? || t[i].Start?)
    ensures j < i && t[j] == Extend(Boot, true) && w.takes(Boot)
  {
    assert Follows(w, t, ps, i);
    j := TaintedEarlier(w, t, ps, i);
  }

  lemma {:induction false} LoadedEarlier(w: World, t: seq<Act>, ps: seq<Past>, k: nat) returns (j: nat)
    requires Safe(w, t, ps) && k <= |t| && ps[k].loaded
    ensures j < k && w.ini.Contents? && t[j] == Extend(Ini(w.ini.bytes), true)
  {
    ExtendAt(w, t, ps, k - 1);
    if ps[k - 1].loaded {
      j := LoadedEarlier(w, t, ps, k - 1);
    } else {
      SoundPast(w, t, ps, k - 1);
      j := k - 1;
    }
  }

  /** The `tpm` rung's unseal is submitted only when PCR 12, zero before, has been extended with the
      configuration and with nothing else, the configuration enables it, and the volume it names, which is
      open, has the seal. */
  lemma {:induction false} UnsealExactlyLoaded(w: World, t: seq<Act>, ps: seq<Past>, i: nat) returns (j: nat)
    requires Safe(w, t, ps) && i < |t| && t[i].UnsealTpm?
    ensures w.tpm && w.pcr12Zero && w.ini.Contents? && Extends(t[..i]) == [Ini(w.ini.bytes)]
    ensures j < i && t[j] == Extend(Ini(w.ini.bytes), true)
    ensures w.parse(w.ini.bytes).Some? && w.parse(w.ini.bytes).value.tpm
    ensures var v := w.parse(w.ini.bytes).value.volume; TpmSeal in w.seals(v) && ps[i].volume == Some(v)
  {
    assert Follows(w, t, ps, i);
    SoundPast(w, t, ps, i);
    TaintsAre(w, t, ps, i);
    j := LoadedEarlier(w, t, ps, i);
  }

  /** Once the TPM refused for any reason but the password, it is not asked again. */
  lemma {:induction false} RefusedOnce(w: World, t: seq<Act>, ps: seq<Past>, i: nat, j: nat)
    requires Safe(w, t, ps) && i < j < |t| && t[i] == UnsealTpm(Refused)
    ensures !t[j].UnsealTpm?
  {
    RefusedSince(w, t, ps, i, j);
    assert Follows(w, t, ps, j);
  }

  lemma {:induction false} RefusedSince(w: World, t: seq<Act>, ps: seq<Past>, i: nat, k: nat)
    requires Safe(w, t, ps) && i < k <= |t| && t[i] == UnsealTpm(Refused)
    ensures ps[k].refused
  {
    assert Follows(w, t, ps, k - 1);
    if i < k - 1 {
      RefusedSince(w, t, ps, i, k - 1);
    }
  }

  lemma {:induction false} AcceptedEarlier(w: World, t: seq<Act>, ps: seq<Past>, k: nat, key: (Key, Rung)) returns (j: nat)
    requires Safe(w, t, ps) && k <= |t| && key in ps[k].accepted
    ensures j < k && t[j] == TryVmk(key.0, key.1, true)
  {
    KeysAt(w, t, ps, k - 1);
    if key in ps[k - 1].accepted {
      j := AcceptedEarlier(w, t, ps, k - 1, key);
    } else {
      j := k - 1;
    }
  }

  lemma {:induction false} OpenedEarlier(w: World, t: seq<Act>, ps: seq<Past>, k: nat) returns (j: nat)
    requires Safe(w, t, ps) && k <= |t| && ps[k].volume.Some?
    ensures j < k && t[j] == Open(ps[k].volume.value, ps[k].encrypted)
  {
    OpenAt(w, t, ps, k - 1);
    if ps[k - 1].volume.Some? {
      j := OpenedEarlier(w, t, ps, k - 1);
    } else {
      j := k - 1;
    }
  }

  lemma {:induction false} PublishedEarlier(w: World, t: seq<Act>, ps: seq<Past>, k: nat) returns (j: nat)
    requires Safe(w, t, ps) && k <= |t| && ps[k].published.Some?
    ensures j < k && t[j].Publish? && forall i :: j < i < k ==> !t[i].Publish?
  {
    assert Follows(w, t, ps, k - 1);
    if t[k - 1].Publish? {
      j := k - 1;
    } else {
      j := PublishedEarlier(w, t, ps, k - 1);
    }
  }

  /** What a handoff carries: of a BitLocker volume a key that volume opens under, tried on it before; of any
      other volume no rung, and never over one with a TPM seal. */
  lemma {:induction false} PublishedOpens(w: World, t: seq<Act>, ps: seq<Past>, j: nat) returns (v: Guid)
    requires Safe(w, t, ps) && j < |t| && t[j].Publish?
    ensures Open(v, w.kind(v) == BitLockerVolume) in t[..j]
    ensures w.kind(v) == BitLockerVolume ==>
              && t[j].rung != Unencrypted && t[j].handed.Some? && w.opens(v, t[j].handed.value)
              && TryVmk(t[j].handed.value, t[j].rung, true) in t[..j]
    ensures w.kind(v) != BitLockerVolume ==> t[j].rung == Unencrypted && TpmSeal !in w.seals(v)
  {
    assert Follows(w, t, ps, j);
    SoundPast(w, t, ps, j);
    var i := OpenedEarlier(w, t, ps, j);
    assert t[..j][i] == t[i];
    v := ps[j].volume.value;
    if w.kind(v) == BitLockerVolume {
      i := AcceptedEarlier(w, t, ps, j, (t[j].handed.value, t[j].rung));
      assert t[..j][i] == t[i];
    }
  }

  /** The rung a handoff names was taken: the TPM's unseal was submitted before, or the volume has its seal. */
  lemma {:induction false} RungTaken(w: World, t: seq<Act>, ps: seq<Past>, j: nat) returns (i: nat)
    requires Safe(w, t, ps) && j < |t| && t[j].Publish?
    ensures t[j].rung == Tpm ==> i < j && t[i].UnsealTpm?
    ensures t[j].rung == PinBypass ==> i < j && t[i].UnsealBypass?
    ensures t[j].rung == SetupTpm || t[j].rung == Passphrase ==>
              ps[j].volume.Some? && (if t[j].rung == SetupTpm then SetupTpmSeal else PassphraseSeal) in w.seals(ps[j].volume.value)
  {
    assert Follows(w, t, ps, j);
    SoundPast(w, t, ps, j);
    i := 0;
    if t[j].rung == Tpm || t[j].rung == PinBypass {
      i := UnsealedEarlier(w, t, ps, j, t[j].rung);
    }
  }

  lemma {:induction false} UnsealedEarlier(w: World, t: seq<Act>, ps: seq<Past>, k: nat, rung: Rung) returns (i: nat)
    requires Safe(w, t, ps) && k <= |t| && rung in ps[k].unsealed
    ensures i < k && ((t[i].UnsealTpm? && rung == Tpm) || (t[i].UnsealBypass? && rung == PinBypass))
  {
    UnsealsAt(w, t, ps, k - 1);
    if rung in ps[k - 1].unsealed {
      i := UnsealedEarlier(w, t, ps, k - 1, rung);
    } else {
      i := k - 1;
    }
  }

  /** An image is started only after a handoff, and on a BitLocker volume the last one carries a key that
      opens the volume. */
  lemma {:induction false} StartedWithKey(w: World, t: seq<Act>, ps: seq<Past>, i: nat) returns (j: nat, v: Guid)
    requires Safe(w, t, ps) && i < |t| && t[i].Start?
    ensures j < i && t[j].Publish? && forall k :: j < k < i ==> !t[k].Publish?
    ensures Open(v, w.kind(v) == BitLockerVolume) in t[..j]
    ensures w.kind(v) == BitLockerVolume ==> t[j].handed.Some? && w.opens(v, t[j].handed.value)
  {
    assert Follows(w, t, ps, i);
    j := PublishedEarlier(w, t, ps, i);
    v := PublishedOpens(w, t, ps, j);
  }

  /** PCR 12 is extended with the configuration only if it had just been read as zero, and only with the
      bytes that were parsed before. */
  lemma {:induction false} LoadedFromZero(w: World, t: seq<Act>, ps: seq<Past>, i: nat)
    requires Safe(w, t, ps) && i < |t| && t[i].Extend? && t[i].what.Ini?
    ensures w.pcr12Zero && ReadPcr12(true) in t[..i] && Extends(t[..i]) == []
    ensures Parse(t[i].what.bytes) in t[..i] && w.ini == Contents(t[i].what.bytes)
  {
    assert Follows(w, t, ps, i);
    SoundPast(w, t, ps, i);
    TaintsAre(w, t, ps, i);
    var j := ZeroEarlier(w, t, ps, i);
    assert t[..i][j] == t[j];
    ParsedExactly(w, t, ps, i, t[i].what.bytes);
  }

  lemma {:induction false} ZeroEarlier(w: World, t: seq<Act>, ps: seq<Past>, k: nat) returns (j: nat)
    requires Safe(w, t, ps) && k <= |t| && ps[k].zero
    ensures j < k && t[j] == ReadPcr12(true)
  {
    assert Follows(w, t, ps, k - 1);
    if t[k - 1] == ReadPcr12(true) {
      j := k - 1;
    } else {
      j := ZeroEarlier(w, t, ps, k - 1);
    }
  }
}
