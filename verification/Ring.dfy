/**
  The keykeeper's ring on disk (src/openmv_ota/keykeeper/ring.py:205-409): the chain and the private
  halves of its generations. A disk maps names to whole files, each written in one step; the ghost
  history holds the disk after every write, so it lists every state a crash can leave.
 */
module Ring {
  import opened Wrappers
  import opened Chain
  import opened ChainTheorems

  const DAY := 86400

  datatype Role = SealRole | SignRole

  datatype Name =
    | ChainName | TmpName | KeyName(keyId: int, role: Role) | OtherPem(name: string) | OtherFile(name: string)

  datatype File = ChainFile(chain: seq<Entry>) | KeyFile(key: nat, passphrase: string) | Junk(data: string)

  type Disk = map<Name, File>

  // ---- what is safe to find on a disk ----

  predicate HasKey(c: Crypto, passphrase: string, disk: Disk, gen: Generation, role: Role) {
    var name := KeyName(gen.keyId, role);
    && name in disk && disk[name].KeyFile? && disk[name].passphrase == passphrase
    && c.publicOf(disk[name].key) == if role.SealRole? then gen.seal else gen.sign
  }

  /** Every private key on the disk is the ring's own: encrypted, and it opens. */
  ghost predicate KeysOpen(passphrase: string, disk: Disk) {
    forall name | name in disk ::
      !name.OtherPem? && (name.KeyName? ==> disk[name].KeyFile? && disk[name].passphrase == passphrase)
  }

  /** Both private halves of each of the generations are there, and are the announced ones. */
  ghost predicate Holds(c: Crypto, passphrase: string, disk: Disk, gens: seq<Generation>) {
    && KeysOpen(passphrase, disk)
    && forall gen | gen in gens ::
         HasKey(c, passphrase, disk, gen, SealRole) && HasKey(c, passphrase, disk, gen, SignRole)
  }

  ghost predicate Listed(c: Crypto, disk: Disk, chain: seq<Entry>) {
    ChainName in disk && disk[ChainName] == ChainFile(chain) && WellBuilt(c, chain)
  }

  ghost predicate Safe(c: Crypto, passphrase: string, disk: Disk) {
    && KeysOpen(passphrase, disk)
    && (ChainName in disk ==>
          && disk[ChainName].ChainFile? && Listed(c, disk, disk[ChainName].chain)
          && Holds(c, passphrase, disk, Gens(c, disk[ChainName].chain)))
  }

  /** From a safe disk, a later one is safe, and has the chain it had, perhaps longer. */
  ghost predicate Follows(c: Crypto, passphrase: string, before: Disk, after: Disk) {
    Safe(c, passphrase, before) ==>
      && Safe(c, passphrase, after)
      && (ChainName in before ==> ChainName in after && before[ChainName].chain <= after[ChainName].chain)
  }

  // ---- single writes ----

  lemma KeyWritten(c: Crypto, passphrase: string, disk: Disk, gens: seq<Generation>, keyId: int, role: Role, key: nat)
    requires Holds(c, passphrase, disk, gens) && forall gen | gen in gens :: gen.keyId != keyId
    ensures Holds(c, passphrase, disk[KeyName(keyId, role) := KeyFile(key, passphrase)], gens)
  {
  }

  lemma SafeIsHeld(c: Crypto, passphrase: string, disk: Disk, chain: seq<Entry>)
    requires Listed(c, disk, chain)
    ensures Safe(c, passphrase, disk) <==> Holds(c, passphrase, disk, Gens(c, chain))
  {
    hide WellBuilt, Gens, HasKey;
  }

  lemma SafeWithout(c: Crypto, passphrase: string, disk: Disk)
    requires ChainName !in disk
    ensures Safe(c, passphrase, disk) <==> Holds(c, passphrase, disk, [])
  {
  }

  /** The generations a disk lists: none without a chain. */
  ghost function OnDisk(c: Crypto, disk: Disk): seq<Generation> {
    if ChainName in disk && disk[ChainName].ChainFile? then Gens(c, disk[ChainName].chain) else []
  }

  /** Writing a key of a generation the chain does not list. */
  lemma UnlistedKeyWritten(c: Crypto, passphrase: string, disk: Disk, keyId: int, role: Role, key: nat)
    requires Safe(c, passphrase, disk) && forall gen | gen in OnDisk(c, disk) :: gen.keyId != keyId
    ensures Follows(c, passphrase, disk, disk[KeyName(keyId, role) := KeyFile(key, passphrase)])
  {
    hide HasKey, WellBuilt, Gens;
    var disk' := disk[KeyName(keyId, role) := KeyFile(key, passphrase)];
    KeyWritten(c, passphrase, disk, OnDisk(c, disk), keyId, role, key);
  }

  lemma TmpWritten(c: Crypto, passphrase: string, disk: Disk, file: File)
    ensures Follows(c, passphrase, disk, disk[TmpName := file])
    ensures forall gens :: Holds(c, passphrase, disk, gens) ==> Holds(c, passphrase, disk[TmpName := file], gens)
  {
    hide WellBuilt, Gens;
  }

  lemma ChainWritten(c: Crypto, passphrase: string, disk: Disk, chain: seq<Entry>)
    requires WellBuilt(c, chain) && Holds(c, passphrase, disk, Gens(c, chain))
    requires ChainName in disk && disk[ChainName].ChainFile? ==> disk[ChainName].chain <= chain
    ensures Follows(c, passphrase, disk, (disk - {TmpName})[ChainName := ChainFile(chain)])
    ensures Holds(c, passphrase, (disk - {TmpName})[ChainName := ChainFile(chain)], Gens(c, chain))
  {
    hide WellBuilt, Gens;
  }

  lemma FollowsOn(c: Crypto, passphrase: string, a: Disk, b: Disk, d: Disk)
    requires Follows(c, passphrase, a, b) && Follows(c, passphrase, b, d)
    ensures Follows(c, passphrase, a, d)
  {
    hide Safe;
  }

  /** Every disk written since `past` follows from `before`: a crash at any point in between
      leaves a safe disk, if `before` was. */
  ghost predicate SafeRun(c: Crypto, passphrase: string, past: seq<Disk>, before: Disk, now: seq<Disk>) {
    && past <= now
    && forall i | |past| <= i < |now| :: Follows(c, passphrase, before, now[i])
  }

  lemma RunsJoin(c: Crypto, passphrase: string, past: seq<Disk>, before: Disk, mid: seq<Disk>, middle: Disk,
                 now: seq<Disk>)
    requires SafeRun(c, passphrase, past, before, mid) && SafeRun(c, passphrase, mid, middle, now)
    requires Follows(c, passphrase, before, middle)
    ensures SafeRun(c, passphrase, past, before, now)
  {
    hide Follows;
    forall i | |past| <= i < |now|
      ensures Follows(c, passphrase, before, now[i])
    {
      if i < |mid| {
        assert now[i] == mid[i];
      } else {
        FollowsOn(c, passphrase, before, middle, now[i]);
      }
    }
  }

  // ---- minting ----

  function Minted(disk: Disk, passphrase: string, keyId: int, seal: nat, sign: nat): Disk {
    disk[KeyName(keyId, SealRole) := KeyFile(seal, passphrase)][KeyName(keyId, SignRole) := KeyFile(sign, passphrase)]
  }

  function MintedGen(c: Crypto, keyId: int, seal: nat, sign: nat, notBefore: int): Generation {
    Generation(keyId, c.publicOf(seal), c.publicOf(sign), notBefore)
  }

  lemma MintedHeld(c: Crypto, passphrase: string, disk: Disk, gens: seq<Generation>, keyId: int, seal: nat,
                   sign: nat, notBefore: int)
    requires Holds(c, passphrase, disk, gens) && forall gen | gen in gens :: gen.keyId != keyId
    ensures Holds(c, passphrase, Minted(disk, passphrase, keyId, seal, sign),
                  gens + [MintedGen(c, keyId, seal, sign, notBefore)])
  {
    KeyWritten(c, passphrase, disk, gens, keyId, SealRole, seal);
    var half := disk[KeyName(keyId, SealRole) := KeyFile(seal, passphrase)];
    KeyWritten(c, passphrase, half, gens, keyId, SignRole, sign);
  }

  /** A record and its signature by `signer`. */
  function Announce(c: Crypto, gen: Generation, signer: nat): Entry {
    Entry(c.dump(gen), c.sign(signer, c.dump(gen)))
  }

  lemma AnnounceLinks(c: Crypto, prev: Generation, gen: Generation, signer: nat, seal: nat, sign: nat)
    requires Sound(c) && c.publicOf(signer) == prev.sign && prev.keyId >= 0
    requires gen == MintedGen(c, prev.keyId + 1, seal, sign, gen.notBefore)
    ensures Links(c, prev, Announce(c, gen, signer), gen)
  {
    assert c.load(c.dump(gen)) == Some(gen);
    assert c.isPoint(c.publicOf(seal)) && c.isPoint(c.publicOf(sign));
    assert c.verify(c.publicOf(signer), c.dump(gen), c.sign(signer, c.dump(gen)));
  }

  lemma AnnounceParses(c: Crypto, gen: Generation, signer: nat, seal: nat, sign: nat)
    requires Sound(c) && gen.keyId >= 1 && gen == MintedGen(c, gen.keyId, seal, sign, gen.notBefore)
    ensures Parses(c, Announce(c, gen, signer), gen)
  {
    assert c.load(c.dump(gen)) == Some(gen);
    assert c.isPoint(c.publicOf(seal)) && c.isPoint(c.publicOf(sign));
  }

  // ---- the ring ----

  class Ring {
    const c: Crypto
    const passphrase: string
    var disk: Disk
    ghost var history: seq<Disk>

    ghost predicate Valid()
      reads this
    {
      Sound(c) && history != [] && history[|history| - 1] == disk
    }

    /** Opens whatever is in a directory, such as what a crash left. */
    constructor (c: Crypto, passphrase: string, disk: Disk)
      requires Sound(c)
      ensures Valid() && this.c == c && this.passphrase == passphrase && this.disk == disk
    {
      this.c := c;
      this.passphrase := passphrase;
      this.disk := disk;
      history := [disk];
    }

    method Write(name: Name, file: File)
      requires Valid()
      modifies this`disk, this`history
      ensures Valid() && disk == old(disk)[name := file] && history == old(history) + [disk]
    {
      disk := disk[name := file];
      history := history + [disk];
    }

    method Replace(from: Name, to: Name)
      requires Valid() && from in disk
      modifies this`disk, this`history
      ensures Valid() && disk == (old(disk) - {from})[to := old(disk)[from]] && history == old(history) + [disk]
    {
      disk := (disk - {from})[to := disk[from]];
      history := history + [disk];
    }

    // -- reading --

    method ReadChain() returns (r: Result<seq<Entry>, Error>)
      ensures r.Success? <==> ChainName in disk && disk[ChainName].ChainFile? && disk[ChainName].chain != []
      ensures r.Success? ==> r.value == disk[ChainName].chain
      ensures r.Failure? ==> r.error == if ChainName !in disk then NoChain else Damaged
    {
      if ChainName !in disk {
        return Failure(NoChain);
      }
      if !disk[ChainName].ChainFile? || disk[ChainName].chain == [] {
        return Failure(Damaged);
      }
      return Success(disk[ChainName].chain);
    }

    method Generations() returns (r: Result<seq<Generation>, Error>)
      ensures r.Success? <==> ChainName in disk && disk[ChainName].ChainFile? && WellBuilt(c, disk[ChainName].chain)
      ensures r.Success? ==> r.value == OnDisk(c, disk) && r.value != []
    {
      hide WellBuilt, Gens;
      if ChainName in disk && disk[ChainName].ChainFile? {
        BuiltHasGenesis(c, disk[ChainName].chain);
      }
      var chain :- ReadChain();
      var pin :- GenesisPin(c, chain);
      GenesisVerifies(c, chain);
      r := VerifyChain(c, chain, pin);
    }

    method Private(keyId: int, role: Role) returns (r: Result<nat, Error>)
      ensures r.Success? <==> KeyName(keyId, role) in disk && disk[KeyName(keyId, role)].KeyFile?
                              && disk[KeyName(keyId, role)].passphrase == passphrase
      ensures r.Success? ==> r.value == disk[KeyName(keyId, role)].key
    {
      var name := KeyName(keyId, role);
      if name !in disk {
        return Failure(NoKey);
      }
      if !disk[name].KeyFile? || disk[name].passphrase != passphrase {
        return Failure(WrongPassphrase);
      }
      return Success(disk[name].key);
    }

    // -- writing --

    /** New keys are any keys: the proofs hold whatever the generator returns. */
    method Mint(keyId: int, notBefore: int) returns (gen: Generation, sign: nat, ghost seal: nat)
      requires Valid()
      modifies this`disk, this`history
      ensures Valid() && disk == Minted(old(disk), passphrase, keyId, seal, sign)
      ensures gen == MintedGen(c, keyId, seal, sign, notBefore)
      ensures (forall g | g in OnDisk(c, old(disk)) :: g.keyId != keyId) ==>
        SafeRun(c, passphrase, old(history), old(disk), history)
      ensures old(history) <= history && OnDisk(c, disk) == OnDisk(c, old(disk))
    {
      hide Safe, Gens, Follows;
      var sealKey: nat, signKey: nat := *, *;
      Write(KeyName(keyId, SealRole), KeyFile(sealKey, passphrase));
      ghost var half := disk;
      Write(KeyName(keyId, SignRole), KeyFile(signKey, passphrase));
      if forall g | g in OnDisk(c, old(disk)) :: g.keyId != keyId {
        MintFollows(c, passphrase, old(disk), keyId, sealKey, signKey);
      }
      gen, sign, seal := MintedGen(c, keyId, sealKey, signKey, notBefore), signKey, sealKey;
    }

    method WriteChain(chain: seq<Entry>)
      requires Valid()
      modifies this`disk, this`history
      ensures Valid() && disk == (old(disk) - {TmpName})[ChainName := ChainFile(chain)]
      ensures history == old(history) + [old(disk)[TmpName := ChainFile(chain)], disk]
      ensures Pending(c, passphrase, old(disk), chain) ==>
        SafeRun(c, passphrase, old(history), old(disk), history) && Pending(c, passphrase, disk, chain)
        && Listed(c, disk, chain) && Follows(c, passphrase, old(disk), disk) && Safe(c, passphrase, disk)
    {
      hide Follows, Holds, WellBuilt, Gens, Safe;
      Write(TmpName, ChainFile(chain));
      Replace(TmpName, ChainName);
      assert (old(disk)[TmpName := ChainFile(chain)] - {TmpName}) == old(disk) - {TmpName};
      TmpWritten(c, passphrase, old(disk), ChainFile(chain));
      if Pending(c, passphrase, old(disk), chain) {
        ChainWritten(c, passphrase, old(disk), chain);
        SafeIsHeld(c, passphrase, disk, chain);
      }
    }

    /** Mints the generation after `last` and signs its record: what `extend` and `rotate_now` share. */
    method MintNext(chain: seq<Entry>, last: Generation, notBefore: int)
      returns (r: Result<Generation, Error>, longer: seq<Entry>)
      requires Valid()
      modifies this`disk, this`history
      ensures Valid() && old(history) <= history && OnDisk(c, disk) == OnDisk(c, old(disk))
      ensures ChainName in old(disk) ==> ChainName in disk && disk[ChainName] == old(disk)[ChainName]
      ensures r.Success? ==> r.value.keyId == last.keyId + 1 && r.value.notBefore == notBefore && chain <= longer
      ensures !Safe(c, passphrase, old(disk)) || Ready(c, passphrase, old(disk), chain, last) ==>
        SafeRun(c, passphrase, old(history), old(disk), history) && Follows(c, passphrase, old(disk), disk)
      ensures Ready(c, passphrase, old(disk), chain, last) ==>
        r.Success? && Gens(c, longer) == Gens(c, chain) + [r.value] && Ready(c, passphrase, disk, longer, r.value)
    {
      hide Safe, Follows, Holds, WellBuilt, Gens, Announce, Pending, OnDisk, HasKey;
      longer := chain;
      ghost var ready := Ready(c, passphrase, disk, chain, last);
      if ready {
        ReadyUnlisted(c, passphrase, disk, chain, last);
        KeyOnDisk(c, passphrase, disk, last);
      }
      var gen, sign, seal := Mint(last.keyId + 1, notBefore);
      if ready {
        MintFollows(c, passphrase, old(disk), last.keyId + 1, seal, sign);
      } else if !Safe(c, passphrase, old(disk)) {
        UnsafeRun(c, passphrase, old(history), old(disk), history, disk);
      }
      var signer :- Private(last.keyId, SignRole);
      longer := chain + [Announce(c, gen, signer)];
      if ready {
        NextReady(c, passphrase, old(disk), chain, last, seal, sign, notBefore, signer);
      }
      r := Success(gen);
    }

    /** The loop ends exactly when what it is asked for is reached: see ExtensionEnds. */
    method Extend(now: int, periodDays: int) returns (r: Result<seq<Generation>, Error>)
      requires Valid()
      requires OnDisk(c, disk) != [] ==> Ends(Last(OnDisk(c, disk)).notBefore, now, periodDays * 86400)
      modifies this`disk, this`history
      ensures Valid() && SafeRun(c, passphrase, old(history), old(disk), history)
      ensures Follows(c, passphrase, old(disk), disk) && old(history) <= history
      ensures Safe(c, passphrase, old(disk)) && ChainName in old(disk) ==>
        && r.Success? && Safe(c, passphrase, disk)
        && OnDisk(c, old(disk)) != [] && OnDisk(c, disk) == OnDisk(c, old(disk)) + r.value
        && Scheduled(Last(OnDisk(c, old(disk))), r.value, now, periodDays * 86400)
        && (r.value == [] ==> disk == old(disk))
    {
      hide Follows, Safe, SafeRun, WellBuilt, Gens, Pending, Holds, Ready, OnDisk, Extended, Scheduled;
      ghost var safe, period := Safe(c, passphrase, disk), periodDays * DAY;
      StartsReady(c, passphrase, disk, history);
      var chain :- ReadChain();
      var gens :- Generations();
      var added: seq<Generation> := [];
      ghost var first, base := gens, Last(gens);
      ExtendedNone(base, now, period);
      while gens[|gens| - 1].notBefore <= now
        invariant Valid() && gens == first + added && gens != []
        invariant Extended(base, added, Last(gens), now, period)
        invariant SafeRun(c, passphrase, old(history), old(disk), history)
        invariant Follows(c, passphrase, old(disk), disk) && old(history) <= history
        invariant OnDisk(c, disk) == first && ChainName in disk
        invariant safe ==> Ready(c, passphrase, disk, chain, Last(gens)) && Gens(c, chain) == gens
        invariant added == [] ==> disk == old(disk)
        decreases now - Last(gens).notBefore
      {
        ghost var mid, middle := history, disk;
        var last := gens[|gens| - 1];
        var next, longer := MintNext(chain, last, last.notBefore + periodDays * DAY);
        RunsJoinEnd(c, passphrase, old(history), old(disk), mid, middle, history, disk);
        var gen :- next;
        ExtendedMore(base, added, last, gen, now, period);
        chain := longer;
        gens := gens + [gen];
        added := added + [gen];
      }
      ExtendedEnds(base, added, Last(gens), now, period);
      if added != [] {
        WriteExtended(chain, old(history), old(disk), Last(gens));
      }
      FollowsSafe(c, passphrase, old(disk), disk);
      return Success(added);
    }

    /** The write that ends a run: the chain as extended in memory, in one atomic replacement. */
    method WriteExtended(chain: seq<Entry>, ghost past: seq<Disk>, ghost before: Disk, ghost newest: Generation)
      requires Valid() && SafeRun(c, passphrase, past, before, history) && Follows(c, passphrase, before, disk)
      requires Safe(c, passphrase, before) ==> Ready(c, passphrase, disk, chain, newest)
      modifies this`disk, this`history
      ensures Valid() && SafeRun(c, passphrase, past, before, history) && Follows(c, passphrase, before, disk)
      ensures ChainName in disk && disk[ChainName] == ChainFile(chain)
      ensures OnDisk(c, disk) == Gens(c, chain) && old(history) <= history
      ensures Safe(c, passphrase, before) ==> Safe(c, passphrase, disk)
    {
      hide Follows, Safe, WellBuilt, Gens, Pending, Holds, SafeRun;
      ghost var mid, middle := history, disk;
      WriteChain(chain);
      RunsJoinEnd(c, passphrase, past, before, mid, middle, history, disk);
    }

    method Init(now: int, periodDays: int) returns (r: Result<seq<Generation>, Error>)
      requires Valid()
      modifies this`disk, this`history
      ensures Valid() && SafeRun(c, passphrase, old(history), old(disk), history)
      ensures ChainName in old(disk) ==> r == Failure(Exists) && disk == old(disk) && history == old(history)
      ensures Safe(c, passphrase, old(disk)) && ChainName !in old(disk) ==>
        && r == Success(OnDisk(c, disk)) && Safe(c, passphrase, disk)
        && FirstTwo(OnDisk(c, disk), now, periodDays * 86400) && FirstSignsItself(c, disk)
    {
      hide Follows, Safe, WellBuilt, Gens, Holds, SafeRun, Minted, MintedGen, Announce;
      StartsReady(c, passphrase, disk, history);
      if ChainName in disk {
        return Failure(Exists);
      }
      ghost var safe := Safe(c, passphrase, disk);
      var first, firstSign, firstSeal := Mint(1, now);
      ghost var h1, d1 := history, disk;
      MintFollows(c, passphrase, old(disk), 1, firstSeal, firstSign);
      NoChainMinted(old(disk), passphrase, 1, firstSeal, firstSign);
      var chain := [Announce(c, first, firstSign)];
      var next, nextSign, nextSeal := Mint(2, now + periodDays * DAY);
      MintFollows(c, passphrase, d1, 2, nextSeal, nextSign);
      NoChainMinted(d1, passphrase, 2, nextSeal, nextSign);
      RunsJoinEnd(c, passphrase, old(history), old(disk), h1, d1, history, disk);
      chain := chain + [Announce(c, next, firstSign)];
      if safe {
        FirstTwoReady(c, passphrase, old(disk), firstSeal, firstSign, nextSeal, nextSign, now, periodDays * DAY);
      }
      WriteExtended(chain, old(history), old(disk), next);
      r := Generations();
      if safe {
        SafeChain(c, passphrase, disk);
      }
    }

    method RotateNow(now: int, periodDays: int) returns (r: Result<Generation, Error>)
      requires Valid() && periodDays >= 1
      modifies this`disk, this`history
      ensures Valid() && SafeRun(c, passphrase, old(history), old(disk), history)
      ensures Safe(c, passphrase, old(disk)) && ChainName in old(disk) ==>
        && r.Success? && Safe(c, passphrase, disk)
        && RotatedTo(OnDisk(c, old(disk)), OnDisk(c, disk), r.value, now, periodDays * 86400)
        && Current(OnDisk(c, disk), now) == Success(r.value)
    {
      hide Follows, Safe, WellBuilt, Gens, Pending, Holds, SafeRun, Ready, OnDisk, Current, Scheduled;
      ghost var safe := Safe(c, passphrase, disk);
      StartsReady(c, passphrase, disk, history);
      var chain :- ReadChain();
      var gens :- Generations();
      var next, longer := MintNext(chain, gens[|gens| - 1], now);
      var gen :- next;
      WriteExtended(longer, old(history), old(disk), gen);
      ghost var mid, middle := history, disk;
      FollowsSafe(c, passphrase, old(disk), disk);
      var extended := Extend(now, periodDays);
      RunsJoinEnd(c, passphrase, old(history), old(disk), mid, middle, history, disk);
      var added :- extended;
      if safe {
        Rotated(gens, gen, added, now, periodDays * DAY);
      }
      return Success(gen);
    }

    // -- backup --

    method Backup() returns (r: Result<Disk, Error>)
      ensures r.Success? ==> r.value == Archive(disk) && BackupOk(c, passphrase, r.value)
      ensures r.Success? <==> CanBackUp(c, passphrase, disk)
      ensures Safe(c, passphrase, disk) && ChainName in disk ==> r == Success(Archive(disk))
    {
      hide Safe, BackupOk, WellBuilt, Gens;
      if Safe(c, passphrase, disk) && ChainName in disk {
        SafeArchive(c, passphrase, disk);
      }
      ArchiveHasChain(c, passphrase, disk);
      ArchiveOk(c, passphrase, disk);
      var _ :- ReadChain();
      var files := Archive(disk);
      var _ :- CheckBackup(c, passphrase, files);
      return Success(files);
    }

    method Restore(archive: Disk) returns (r: Result<seq<Generation>, Error>)
      requires Valid()
      modifies this`disk, this`history
      ensures Valid() && SafeRun(c, passphrase, old(history), old(disk), history)
      ensures Occupied(old(disk)) ==> r == Failure(NotEmpty)
      ensures Occupied(old(disk)) || !BackupOk(c, passphrase, archive) ==>
        r.Failure? && disk == old(disk) && history == old(history)
      ensures !Occupied(old(disk)) && BackupOk(c, passphrase, archive) ==>
        && r == Success(OnDisk(c, archive)) && Archive(disk) == archive
        && Safe(c, passphrase, disk) && OnDisk(c, disk) == OnDisk(c, archive)
    {
      hide Safe, BackupOk, WellBuilt, Gens, Follows, Holds;
      if !Fresh(disk) {
        return Failure(NotEmpty);
      }
      var checked := CheckBackup(c, passphrase, archive);
      if checked.Failure? {
        return Failure(checked.error);
      }
      var left := archive.Keys - {ChainName};
      while left != {}
        invariant Valid() && left <= archive.Keys - {ChainName}
        invariant SafeRun(c, passphrase, old(history), old(disk), history)
        invariant Restored(old(disk), archive, disk, archive.Keys - {ChainName} - left)
      {
        var name :| name in left;
        assert archive.Keys - {ChainName} - (left - {name}) == archive.Keys - {ChainName} - left + {name};
        left := left - {name};
        Write(name, archive[name]);
        PartlyRestored(c, passphrase, old(disk), archive, disk, archive.Keys - {ChainName} - left);
      }
      assert archive.Keys - {ChainName} - left == archive.Keys - {ChainName};
      AllRestored(c, passphrase, old(disk), archive, disk);
      Write(TmpName, archive[ChainName]);
      Replace(TmpName, ChainName);
      SafeChain(c, passphrase, disk);
      r := Generations();
    }
  }

  /** What a backup packs: the chain and every PEM file. */
  function Archive(disk: Disk): Disk {
    map name | name in disk && (name.ChainName? || name.KeyName? || name.OtherPem?) :: disk[name]
  }

  /** A directory with nothing in it, a new disk's own directory aside. */
  predicate Fresh(disk: Disk) {
    forall name | name in disk :: name == OtherFile("lost+found")
  }

  /** Something is there already. */
  ghost predicate Occupied(disk: Disk) {
    exists name :: name in disk && name != OtherFile("lost+found")
  }

  ghost predicate BackupOk(c: Crypto, passphrase: string, files: Disk) {
    && (forall name | name in files ::
          name == ChainName || (name.KeyName? && files[name].KeyFile? && files[name].passphrase == passphrase))
    && ChainName in files && files[ChainName].ChainFile? && WellBuilt(c, files[ChainName].chain)
    && Holds(c, passphrase, files, Gens(c, files[ChainName].chain))
  }

  /** Only ring files, all encrypted and opening; the chain verifies from its own first generation;
      and each generation's two keys are the announced ones. */
  method CheckBackup(c: Crypto, passphrase: string, files: Disk) returns (r: Result<seq<Generation>, Error>)
    ensures r.Success? <==> BackupOk(c, passphrase, files)
    ensures r.Success? ==> r.value == OnDisk(c, files)
  {
    hide WellBuilt, Gens, HasKey;
    var left := files.Keys;
    while left != {}
      invariant left <= files.Keys
      invariant forall name | name in files.Keys - left ::
        name == ChainName || (name.KeyName? && files[name].KeyFile? && files[name].passphrase == passphrase)
    {
      var name :| name in left;
      left := left - {name};
      if name == ChainName {
        continue;
      }
      if !name.KeyName? {
        return Failure(BadBackup);
      }
      if !files[name].KeyFile? {
        return Failure(BadBackup);
      }
      if files[name].passphrase != passphrase {
        return Failure(WrongPassphrase);
      }
    }
    if ChainName !in files {
      return Failure(BadBackup);
    }
    if files[ChainName].ChainFile? {
      BuiltHasGenesis(c, files[ChainName].chain);
    }
    if !files[ChainName].ChainFile? || files[ChainName].chain == [] {
      return Failure(Damaged);
    }
    var chain := files[ChainName].chain;
    var pin :- GenesisPin(c, chain);
    GenesisVerifies(c, chain);
    var gens :- VerifyChain(c, chain, pin);
    var i := 0;
    while i < |gens|
      invariant 0 <= i <= |gens|
      invariant forall j | 0 <= j < i ::
        HasKey(c, passphrase, files, gens[j], SealRole) && HasKey(c, passphrase, files, gens[j], SignRole)
    {
      if !HasKey(c, passphrase, files, gens[i], SealRole) || !HasKey(c, passphrase, files, gens[i], SignRole) {
        assert gens[i] in gens;
        return Failure(BadBackup);
      }
      i := i + 1;
    }
    return Success(gens);
  }

  lemma ArchiveHasChain(c: Crypto, passphrase: string, disk: Disk)
    ensures BackupOk(c, passphrase, Archive(disk)) ==>
      ChainName in disk && disk[ChainName].ChainFile? && disk[ChainName].chain != []
  {
    hide Gens, Holds;
  }

  /** The private half of `pub` is there, encrypted under the passphrase. */
  ghost predicate KeyIs(c: Crypto, passphrase: string, disk: Disk, name: Name, pub: string) {
    name in disk && disk[name].KeyFile? && disk[name].passphrase == passphrase && c.publicOf(disk[name].key) == pub
  }

  ghost predicate KeysAre(c: Crypto, passphrase: string, disk: Disk, gens: seq<Generation>) {
    forall gen | gen in gens ::
      && KeyIs(c, passphrase, disk, KeyName(gen.keyId, SealRole), gen.seal)
      && KeyIs(c, passphrase, disk, KeyName(gen.keyId, SignRole), gen.sign)
  }

  lemma KeysHeld(c: Crypto, passphrase: string, disk: Disk, gens: seq<Generation>)
    ensures Holds(c, passphrase, disk, gens) <==> KeysOpen(passphrase, disk) && KeysAre(c, passphrase, disk, gens)
  {
  }

  /** What a disk must hold to be backed up: no stray or plaintext key file, a chain that verifies from
      its own first generation, and both private halves of each generation it announces. */
  ghost predicate CanBackUp(c: Crypto, passphrase: string, disk: Disk) {
    && (forall name | name in disk && (name.KeyName? || name.OtherPem?) ::
          name.KeyName? && disk[name].KeyFile? && disk[name].passphrase == passphrase)
    && ChainName in disk && disk[ChainName].ChainFile? && WellBuilt(c, disk[ChainName].chain)
    && KeysAre(c, passphrase, disk, Gens(c, disk[ChainName].chain))
  }

  /** Every key file on the disk is in the archive or stops the backup; nothing else is in it. */
  lemma ArchiveIs(disk: Disk, name: Name)
    ensures name in Archive(disk) <==> name in disk && name != TmpName && !name.OtherFile?
    ensures name in Archive(disk) ==> Archive(disk)[name] == disk[name]
  {
  }

  lemma ArchiveOk(c: Crypto, passphrase: string, disk: Disk)
    ensures BackupOk(c, passphrase, Archive(disk)) <==> CanBackUp(c, passphrase, disk)
  {
    hide WellBuilt, Gens, Archive, Holds;
    var files := Archive(disk);
    forall name
      ensures name in files <==> name in disk && name != TmpName && !name.OtherFile?
      ensures name in files ==> files[name] == disk[name]
    {
      ArchiveIs(disk, name);
    }
    if ChainName in disk && disk[ChainName].ChainFile? {
      KeysHeld(c, passphrase, files, Gens(c, disk[ChainName].chain));
    }
  }

  /** What the check of a backup asks, in terms of its files. */
  lemma BackupOkMeans(c: Crypto, passphrase: string, files: Disk)
    ensures BackupOk(c, passphrase, files) <==>
      && (forall name | name in files :: name == ChainName || name.KeyName?)
      && CanBackUp(c, passphrase, files)
  {
    hide WellBuilt, Gens, Holds;
    if ChainName in files && files[ChainName].ChainFile? {
      KeysHeld(c, passphrase, files, Gens(c, files[ChainName].chain));
    }
  }

  /** What is safe to find on a disk: no stray key, and with a chain, all a backup needs. */
  lemma SafeMeans(c: Crypto, passphrase: string, disk: Disk)
    ensures Safe(c, passphrase, disk) <==>
      KeysOpen(passphrase, disk) && (ChainName in disk ==> CanBackUp(c, passphrase, disk))
  {
    hide WellBuilt, Gens, Holds;
    if ChainName in disk && disk[ChainName].ChainFile? {
      KeysHeld(c, passphrase, disk, Gens(c, disk[ChainName].chain));
    }
  }

  /** At any safe moment, such as after a crash, the ring on disk makes a good backup. */
  lemma SafeArchive(c: Crypto, passphrase: string, disk: Disk)
    requires Safe(c, passphrase, disk) && ChainName in disk
    ensures BackupOk(c, passphrase, Archive(disk)) && OnDisk(c, Archive(disk)) == OnDisk(c, disk)
  {
    hide WellBuilt, Gens;
  }

  /** A restore under way: the names in `done` have been written. */
  ghost predicate Restored(before: Disk, archive: Disk, disk: Disk, done: set<Name>) {
    && (forall name :: name in disk <==> name in before || (name in done && name in archive))
    && (forall name | name in disk ::
          disk[name] == if name in done && name in archive then archive[name] else before[name])
  }

  lemma PartlyRestored(c: Crypto, passphrase: string, before: Disk, archive: Disk, disk: Disk, done: set<Name>)
    requires Fresh(before) && BackupOk(c, passphrase, archive) && ChainName !in done
    requires Restored(before, archive, disk, done)
    ensures Follows(c, passphrase, before, disk)
  {
    hide WellBuilt, Gens, HasKey;
  }

  lemma AllRestored(c: Crypto, passphrase: string, before: Disk, archive: Disk, disk: Disk)
    requires Fresh(before) && BackupOk(c, passphrase, archive)
    requires Restored(before, archive, disk, archive.Keys - {ChainName})
    ensures ChainName in archive
    ensures var tmp := disk[TmpName := archive[ChainName]];
      var whole := (tmp - {TmpName})[ChainName := tmp[TmpName]];
      && Follows(c, passphrase, before, tmp) && Follows(c, passphrase, before, whole)
      && Safe(c, passphrase, whole) && ChainName in whole
      && Archive(whole) == archive && OnDisk(c, whole) == OnDisk(c, archive)
  {
    hide WellBuilt, Gens;
    PartlyRestored(c, passphrase, before, archive, disk, archive.Keys - {ChainName});
    TmpWritten(c, passphrase, disk, archive[ChainName]);
    var whole := (disk[TmpName := archive[ChainName]] - {TmpName})[ChainName := archive[ChainName]];
    assert Archive(whole) == archive;
    FollowsOn(c, passphrase, before, disk, disk[TmpName := archive[ChainName]]);
  }

  /** The first record on the disk is signed by the key it announces. */
  ghost predicate FirstSignsItself(c: Crypto, disk: Disk) {
    && ChainName in disk && disk[ChainName].ChainFile? && disk[ChainName].chain != []
    && Signs(c, Announced(c, disk[ChainName].chain[0]), disk[ChainName].chain[0])
  }

  /** The current generation and the next, a period later. */
  ghost predicate FirstTwo(gens: seq<Generation>, now: int, period: int) {
    && |gens| == 2 && gens[0].keyId == 1 && gens[1].keyId == 2
    && gens[0].notBefore == now && gens[1].notBefore == now + period
  }

  lemma NoChainMinted(disk: Disk, passphrase: string, keyId: int, seal: nat, sign: nat)
    ensures ChainName in Minted(disk, passphrase, keyId, seal, sign) <==> ChainName in disk
  {
  }

  lemma SafeChain(c: Crypto, passphrase: string, disk: Disk)
    requires Safe(c, passphrase, disk) && ChainName in disk
    ensures disk[ChainName].ChainFile? && WellBuilt(c, disk[ChainName].chain)
  {
  }

  lemma FirstTwoReady(c: Crypto, passphrase: string, disk: Disk, firstSeal: nat, firstSign: nat, nextSeal: nat,
                      nextSign: nat, now: int, period: int)
    requires Sound(c) && Safe(c, passphrase, disk) && ChainName !in disk
    ensures var first := MintedGen(c, 1, firstSeal, firstSign, now);
      var next := MintedGen(c, 2, nextSeal, nextSign, now + period);
      var chain := [Announce(c, first, firstSign)] + [Announce(c, next, firstSign)];
      var disk' := Minted(Minted(disk, passphrase, 1, firstSeal, firstSign), passphrase, 2, nextSeal, nextSign);
      && Ready(c, passphrase, disk', chain, next) && FirstTwo(Gens(c, chain), now, period)
      && Signs(c, Announced(c, chain[0]), chain[0])
  {
    hide Holds, Links, Safe, HasKey;
    var first := MintedGen(c, 1, firstSeal, firstSign, now);
    var disk1 := Minted(disk, passphrase, 1, firstSeal, firstSign);
    var one := [Announce(c, first, firstSign)];
    SafeWithout(c, passphrase, disk);
    MintedHeld(c, passphrase, disk, [], 1, firstSeal, firstSign, now);
    AnnounceParses(c, first, firstSign, firstSeal, firstSign);
    assert Gens(c, one) == [] + [first];
    NextReady(c, passphrase, disk1, one, first, nextSeal, nextSign, now + period, firstSign);
  }

  /** Two generations are added: one in effect at once, and the next a period later. */
  ghost predicate RotatedTo(before: seq<Generation>, after: seq<Generation>, gen: Generation, now: int, period: int) {
    && before != [] && |after| == |before| + 2 && before + [gen] <= after
    && gen.keyId == before[|before| - 1].keyId + 1 && gen.notBefore == now
    && after[|after| - 1].keyId == gen.keyId + 1 && after[|after| - 1].notBefore == now + period
  }

  lemma Rotated(gens: seq<Generation>, gen: Generation, added: seq<Generation>, now: int, period: int)
    requires gens != [] && gen.keyId == Last(gens).keyId + 1 && gen.notBefore == now
    requires period >= 1 && Scheduled(gen, added, now, period)
    ensures var all := gens + [gen] + added;
      Current(all, now) == Success(gen) && RotatedTo(gens, all, gen, now, period)
  {
    hide Current;
    var all := gens + [gen] + added;
    assert |added| == 1 && added[0].notBefore == now + period;
    NextIsAnnounced(gen, added, now, period);
    forall j | |gens| < j < |all|
      ensures all[j].notBefore > now
    {
      assert all[j] == added[j - |gens| - 1];
      MulMonotone(1, j - |gens|, period);
    }
    CurrentIs(all, now, |gens|);
  }

  /** After an extension the newest generation is still to come. */
  lemma NextIsAnnounced(last: Generation, added: seq<Generation>, now: int, period: int)
    requires Ends(last.notBefore, now, period) && Scheduled(last, added, now, period)
    ensures Last([last] + added).notBefore > now
    ensures added == [] <==> last.notBefore > now
  {
    if last.notBefore <= now {
      var d := now - last.notBefore;
      assert added[|added| - 1].notBefore == last.notBefore + |added| * period;
      assert d < (d / period) * period + period == |added| * period;
    }
  }

  /** Some number of generations, a period apart, reach past `now` exactly when the newest already
      does or the period is positive: for any other period the extension would never end. */
  lemma ExtensionEnds(last: int, now: int, period: int)
    ensures Ends(last, now, period) <==> exists k: nat :: Reaches(last, now, period, k)
  {
    if Ends(last, now, period) {
      if last <= now {
        var d := now - last;
        assert d < (d / period) * period + period == Needed(last, now, period) * period;
      }
      assert Reaches(last, now, period, Needed(last, now, period));
    } else {
      forall k: nat
        ensures !Reaches(last, now, period, k)
      {
        MulMonotone(0, k, -period);
      }
    }
  }

  lemma FollowsSafe(c: Crypto, passphrase: string, before: Disk, after: Disk)
    requires Follows(c, passphrase, before, after)
    ensures Safe(c, passphrase, before) ==> Safe(c, passphrase, after)
  {
  }

  lemma UnsafeRun(c: Crypto, passphrase: string, past: seq<Disk>, before: Disk, now: seq<Disk>, disk: Disk)
    requires !Safe(c, passphrase, before) && past <= now
    ensures SafeRun(c, passphrase, past, before, now) && Follows(c, passphrase, before, disk)
  {
  }

  lemma KeyOnDisk(c: Crypto, passphrase: string, disk: Disk, gen: Generation)
    requires HasKey(c, passphrase, disk, gen, SignRole)
    ensures var name := KeyName(gen.keyId, SignRole);
      && name in disk && disk[name].KeyFile? && disk[name].passphrase == passphrase
      && c.publicOf(disk[name].key) == gen.sign
  {
  }

  /** At most one run after another: the later one only matters if it is safe from where it began. */
  lemma RunsJoinEnd(c: Crypto, passphrase: string, past: seq<Disk>, before: Disk, mid: seq<Disk>, middle: Disk,
                    now: seq<Disk>, disk: Disk)
    requires SafeRun(c, passphrase, past, before, mid) && mid <= now && Follows(c, passphrase, before, middle)
    requires Safe(c, passphrase, before) ==>
      SafeRun(c, passphrase, mid, middle, now) && Follows(c, passphrase, middle, disk)
    ensures SafeRun(c, passphrase, past, before, now) && Follows(c, passphrase, before, disk)
  {
    hide Follows, Safe;
    if Safe(c, passphrase, before) {
      RunsJoin(c, passphrase, past, before, mid, middle, now);
      FollowsOn(c, passphrase, before, middle, disk);
    } else {
      UnsafeRun(c, passphrase, past, before, now, disk);
    }
  }

  lemma StartsReady(c: Crypto, passphrase: string, disk: Disk, history: seq<Disk>)
    ensures Follows(c, passphrase, disk, disk) && SafeRun(c, passphrase, history, disk, history)
    ensures Safe(c, passphrase, disk) && ChainName in disk ==>
      && disk[ChainName].ChainFile? && WellBuilt(c, disk[ChainName].chain)
      && OnDisk(c, disk) == Gens(c, disk[ChainName].chain)
      && Ready(c, passphrase, disk, disk[ChainName].chain, Last(Gens(c, disk[ChainName].chain)))
  {
  }

  /** A chain ready to be written: well built, and the disk holds its keys. */
  ghost predicate Pending(c: Crypto, passphrase: string, disk: Disk, chain: seq<Entry>) {
    && WellBuilt(c, chain) && Holds(c, passphrase, disk, Gens(c, chain))
    && (ChainName in disk && disk[ChainName].ChainFile? ==> disk[ChainName].chain <= chain)
  }

  ghost predicate Ready(c: Crypto, passphrase: string, disk: Disk, chain: seq<Entry>, last: Generation) {
    Pending(c, passphrase, disk, chain) && last == Announced(c, chain[|chain| - 1])
  }

  lemma ReadyUnlisted(c: Crypto, passphrase: string, disk: Disk, chain: seq<Entry>, last: Generation)
    requires Ready(c, passphrase, disk, chain, last)
    ensures forall gen | gen in Gens(c, chain) :: gen.keyId <= last.keyId
    ensures forall gen | gen in OnDisk(c, disk) :: gen.keyId <= last.keyId
    ensures HasKey(c, passphrase, disk, last, SignRole) && last.keyId >= 1
  {
    hide Holds, HasKey;
    VerifiesFromEveryPin(c, chain, 0);
    assert last == Gens(c, chain)[|chain| - 1];
    LastHeld(c, passphrase, disk, Gens(c, chain));
    Consecutive(c, chain, |chain| - 1);
    forall gen | gen in OnDisk(c, disk)
      ensures gen in Gens(c, chain)
    {
      var i :| 0 <= i < |OnDisk(c, disk)| && OnDisk(c, disk)[i] == gen;
      assert chain[i] == disk[ChainName].chain[i];
      assert Gens(c, chain)[i] == gen;
    }
  }

  lemma LastHeld(c: Crypto, passphrase: string, disk: Disk, gens: seq<Generation>)
    requires Holds(c, passphrase, disk, gens) && gens != []
    ensures HasKey(c, passphrase, disk, Last(gens), SignRole)
  {
  }

  lemma NextReady(c: Crypto, passphrase: string, disk: Disk, chain: seq<Entry>, last: Generation,
                  seal: nat, sign: nat, notBefore: int, signer: nat)
    requires Sound(c) && Ready(c, passphrase, disk, chain, last) && c.publicOf(signer) == last.sign
    ensures var gen := MintedGen(c, last.keyId + 1, seal, sign, notBefore);
      var longer := chain + [Announce(c, gen, signer)];
      && Gens(c, longer) == Gens(c, chain) + [gen]
      && Ready(c, passphrase, Minted(disk, passphrase, last.keyId + 1, seal, sign), longer, gen)
  {
    hide Holds, Links, HasKey;
    ReadyUnlisted(c, passphrase, disk, chain, last);
    var gen := MintedGen(c, last.keyId + 1, seal, sign, notBefore);
    AnnounceLinks(c, last, gen, signer, seal, sign);
    Appended(c, chain, Announce(c, gen, signer), gen);
    MintedHeld(c, passphrase, disk, Gens(c, chain), last.keyId + 1, seal, sign, notBefore);
  }

  function Last(gens: seq<Generation>): Generation
    requires gens != []
  {
    gens[|gens| - 1]
  }

  /** How many generations, a period apart, reach past `now`. */
  function Needed(last: int, now: int, period: int): nat
    requires Ends(last, now, period)
  {
    if last > now then 0 else (now - last) / period + 1
  }

  predicate Ends(last: int, now: int, period: int) {
    last > now || period >= 1
  }

  ghost predicate Reaches(last: int, now: int, period: int, k: nat) {
    last + k * period > now
  }

  /** `added` follow `last`, a period apart. */
  ghost predicate Spaced(last: Generation, added: seq<Generation>, period: int) {
    forall i | 0 <= i < |added| ::
      added[i].keyId == last.keyId + 1 + i && added[i].notBefore == last.notBefore + (i + 1) * period
  }

  lemma SpacedMore(last: Generation, added: seq<Generation>, gen: Generation, period: int)
    requires Spaced(last, added, period)
    requires var newest := if added == [] then last else Last(added);
      gen.keyId == newest.keyId + 1 && gen.notBefore == newest.notBefore + period
    ensures Spaced(last, added + [gen], period) && gen.notBefore == last.notBefore + (|added| + 1) * period
  {
    assert (|added| + 1) * period == |added| * period + period;
  }

  /** An extension under way, `newest` being the last so far. */
  ghost predicate Extended(base: Generation, added: seq<Generation>, newest: Generation, now: int, period: int) {
    && Spaced(base, added, period) && Ends(newest.notBefore, now, period)
    && newest == (if added == [] then base else Last(added))
    && (added != [] ==> newest.notBefore - period <= now)
  }

  lemma ExtendedNone(base: Generation, now: int, period: int)
    requires Ends(base.notBefore, now, period)
    ensures Extended(base, [], base, now, period)
  {
  }

  lemma ExtendedMore(base: Generation, added: seq<Generation>, newest: Generation, gen: Generation, now: int,
                     period: int)
    requires Extended(base, added, newest, now, period) && newest.notBefore <= now
    requires gen.keyId == newest.keyId + 1 && gen.notBefore == newest.notBefore + period
    ensures Extended(base, added + [gen], gen, now, period) && period >= 1
  {
    hide Spaced;
    SpacedMore(base, added, gen, period);
  }

  lemma ExtendedEnds(base: Generation, added: seq<Generation>, newest: Generation, now: int, period: int)
    requires Extended(base, added, newest, now, period) && newest.notBefore > now
    ensures Ends(base.notBefore, now, period) && Scheduled(base, added, now, period)
  {
    if added != [] {
      var n := |added|;
      assert newest.notBefore == base.notBefore + n * period;
      assert n * period == (n - 1) * period + period;
      NeededIs(base.notBefore, now, period, n);
    }
  }

  lemma MulMonotone(a: int, b: int, m: int)
    requires a <= b && m >= 0
    ensures a * m <= b * m
  {
  }

  lemma DivIs(a: nat, b: nat, q: int)
    requires b > 0 && q * b <= a < q * b + b
    ensures a / b == q
  {
    var d := a / b;
    assert d * b <= a < d * b + b;
    if d < q {
      MulMonotone(d + 1, q, b);
    } else if q < d {
      MulMonotone(q + 1, d, b);
    }
  }

  lemma NeededIs(last: int, now: int, period: int, k: nat)
    requires Ends(last, now, period) && last + k * period > now && (k > 0 ==> last + (k - 1) * period <= now)
    ensures k == Needed(last, now, period)
  {
    if k > 0 {
      MulMonotone(0, k - 1, period);
      assert k * period == (k - 1) * period + period;
      DivIs(now - last, period, k - 1);
    }
  }

  ghost predicate Scheduled(last: Generation, added: seq<Generation>, now: int, period: int)
    requires Ends(last.notBefore, now, period)
  {
    |added| == Needed(last.notBefore, now, period) && Spaced(last, added, period)
  }

  lemma BuiltHasGenesis(c: Crypto, chain: seq<Entry>)
    ensures WellBuilt(c, chain) ==> chain != [] && GenesisPin(c, chain).Success?
  {
  }

  lemma MintFollows(c: Crypto, passphrase: string, disk: Disk, keyId: int, seal: nat, sign: nat)
    requires forall gen | gen in OnDisk(c, disk) :: gen.keyId != keyId
    ensures Follows(c, passphrase, disk, disk[KeyName(keyId, SealRole) := KeyFile(seal, passphrase)])
    ensures Follows(c, passphrase, disk, Minted(disk, passphrase, keyId, seal, sign))
  {
    hide Safe, Gens;
    if Safe(c, passphrase, disk) {
      var half := disk[KeyName(keyId, SealRole) := KeyFile(seal, passphrase)];
      UnlistedKeyWritten(c, passphrase, disk, keyId, SealRole, seal);
      UnlistedKeyWritten(c, passphrase, half, keyId, SignRole, sign);
    }
  }
}
