/** What the ring's runs mean for a backup, and for those who follow its chain. */
module RingTheorems {
  import opened Wrappers
  import opened Chain
  import opened ChainTheorems
  import opened Rings = Ring

  /** The chain on a disk; none if there is none. */
  function ChainOf(disk: Disk): seq<Entry> {
    if ChainName in disk && disk[ChainName].ChainFile? then disk[ChainName].chain else []
  }

  /** At any safe moment, the chain on disk verifies from the pin of each of its generations, giving
      exactly that one to the newest. */
  lemma SafeVerifies(c: Crypto, passphrase: string, disk: Disk, k: nat)
    requires Safe(c, passphrase, disk) && k < |OnDisk(c, disk)|
    ensures Verified(c, OnDisk(c, disk)[k].ThePin(), ChainOf(disk)) == Success(OnDisk(c, disk)[k..])
  {
    hide Verified, Gens, WellBuilt, Holds;
    SafeChain(c, passphrase, disk);
    VerifiesFromEveryPin(c, ChainOf(disk), k);
  }

  lemma {:induction false} PrefixGens(c: Crypto, chain: seq<Entry>, longer: seq<Entry>)
    requires chain <= longer
    ensures Gens(c, chain) <= Gens(c, longer)
  {
  }

  lemma ChainKept(c: Crypto, passphrase: string, before: Disk, after: Disk)
    requires Safe(c, passphrase, before) && ChainName in before && Follows(c, passphrase, before, after)
    ensures Safe(c, passphrase, after) && ChainName in after
    ensures ChainOf(before) <= ChainOf(after) && OnDisk(c, before) <= OnDisk(c, after)
  {
    hide Holds, WellBuilt, Gens;
    PrefixGens(c, ChainOf(before), ChainOf(after));
  }

  /** Whatever write of a run is the last before a crash, a follower pinned at a generation listed
      before the run verifies the chain then on disk: from the pinned one to the newest. */
  lemma RunVerifies(c: Crypto, passphrase: string, past: seq<Disk>, before: Disk, now: seq<Disk>, i: nat, k: nat)
    requires Safe(c, passphrase, before) && ChainName in before && k < |OnDisk(c, before)|
    requires SafeRun(c, passphrase, past, before, now) && |past| <= i < |now|
    ensures OnDisk(c, before) <= OnDisk(c, now[i])
    ensures Verified(c, OnDisk(c, before)[k].ThePin(), ChainOf(now[i])) == Success(OnDisk(c, now[i])[k..])
  {
    hide Safe, Follows, OnDisk, Verified;
    ChainKept(c, passphrase, before, now[i]);
    SafeVerifies(c, passphrase, now[i], k);
  }

  /** A follower pinned at a generation the ring once listed, whatever chain it is served later with
      no signature of the ring's keys but on what the ring has announced by then, accepts nothing the
      ring did not announce. */
  lemma FollowersAreSafe(c: Crypto, passphrase: string, before: Disk, after: Disk, k: nat, served: seq<Entry>,
                         gens: seq<Generation>)
    requires Safe(c, passphrase, before) && ChainName in before && k < |OnDisk(c, before)|
    requires Follows(c, passphrase, before, after) && OnlyAnnounced(c, ChainOf(after), served)
    requires Verified(c, OnDisk(c, before)[k].ThePin(), served) == Success(gens)
    ensures gens != [] && k < |OnDisk(c, after)|
    ensures gens[0].ThePin() == OnDisk(c, after)[k].ThePin() && gens[1..] <= OnDisk(c, after)[k + 1..]
  {
    hide Safe, Follows, Verified, OnlyAnnounced, Gens, WellBuilt;
    ChainKept(c, passphrase, before, after);
    SafeChain(c, passphrase, after);
    FollowersStayOnTheRing(c, ChainOf(after), k, served, gens);
  }

  /** Restoring a backup into an empty directory reproduces the ring: the same chain and key files,
      and the same generations, safe again. */
  method BackupAndRestore(ring: Ring, other: Ring) returns (r: Result<seq<Generation>, Error>)
    requires ring.Valid() && other.Valid() && ring != other
    requires ring.c == other.c && ring.passphrase == other.passphrase
    requires Safe(ring.c, ring.passphrase, ring.disk) && ChainName in ring.disk && !Occupied(other.disk)
    modifies other`disk, other`history
    ensures other.Valid() && r == Success(OnDisk(ring.c, ring.disk))
    ensures Archive(other.disk) == Archive(ring.disk) && OnDisk(other.c, other.disk) == OnDisk(ring.c, ring.disk)
    ensures Safe(other.c, other.passphrase, other.disk)
  {
    hide Safe, BackupOk, CanBackUp, OnDisk, Archive, SafeRun;
    SafeArchive(ring.c, ring.passphrase, ring.disk);
    var archive := ring.Backup();
    r := other.Restore(archive.value);
  }
}
