/** Safety of following the keykeeper chain, and which generation is current. */
module ChainTheorems {
  import opened Wrappers
  import opened Chain

  // ---- agreement ----

  /** What sign keys have signed: public keys and records. */
  type Signed = iset<(string, string)>

  /** Of the signatures presented for the generations read from a chain, those that verify were made
      by the key they verify under. Nothing is asked of any other string. */
  ghost predicate Authentic(c: Crypto, signed: Signed, chain: seq<Entry>, gens: seq<Generation>) {
    forall j: nat | 0 < j < |gens| <= |chain| && Signs(c, gens[j - 1], EntryAt(chain, gens, j)) ::
      (gens[j - 1].sign, EntryAt(chain, gens, j).record) in signed
  }

  predicate Signs(c: Crypto, gen: Generation, e: Entry) {
    c.verify(gen.sign, e.record, e.signature)
  }

  predicate SameId(c: Crypto, m: string, m': string) {
    && Parse(c, m).Success? && Parse(c, m').Success?
    && Parse(c, m).value.keyId == Parse(c, m').value.keyId
  }

  /** No sign key has signed two records announcing the same generation id. */
  ghost predicate SignsOnce(c: Crypto, signed: Signed) {
    forall pub, m, m' :: (pub, m) in signed && (pub, m') in signed && SameId(c, m, m') ==> m == m'
  }

  lemma SameNext(c: Crypto, signed: Signed, prev: Generation, prev': Generation, e: Entry, e': Entry,
                 gen: Generation, gen': Generation)
    requires SignsOnce(c, signed) && (prev.sign, e.record) in signed && (prev'.sign, e'.record) in signed
    requires prev.keyId == prev'.keyId && prev.sign == prev'.sign
    requires Links(c, prev, e, gen) && Links(c, prev', e', gen')
    ensures e.record == e'.record && gen == gen'
  {
  }

  lemma LinkIsSigned(c: Crypto, signed: Signed, pin: Pin, chain: seq<Entry>, gens: seq<Generation>, j: nat)
    requires Accepts(c, pin, chain, gens) && Authentic(c, signed, chain, gens) && 0 < j < |gens|
    ensures Links(c, gens[j - 1], EntryAt(chain, gens, j), gens[j])
    ensures (gens[j - 1].sign, EntryAt(chain, gens, j).record) in signed
  {
    assert Signs(c, gens[j - 1], EntryAt(chain, gens, j));
  }

  lemma {:induction false} SameAt(c: Crypto, signed: Signed, pin: Pin, chain: seq<Entry>, chain': seq<Entry>,
                                  gens: seq<Generation>, gens': seq<Generation>, j: nat)
    requires SignsOnce(c, signed) && Authentic(c, signed, chain, gens) && Authentic(c, signed, chain', gens')
    requires Accepts(c, pin, chain, gens) && Accepts(c, pin, chain', gens')
    requires j < |gens| && j < |gens'|
    ensures gens[j].keyId == gens'[j].keyId && gens[j].sign == gens'[j].sign
    ensures 0 < j ==> gens[j] == gens'[j]
    ensures 0 < j ==> EntryAt(chain, gens, j).record == EntryAt(chain', gens', j).record
  {
    hide Authentic, SignsOnce;
    if j > 0 {
      SameAt(c, signed, pin, chain, chain', gens, gens', j - 1);
      LinkIsSigned(c, signed, pin, chain, gens, j);
      LinkIsSigned(c, signed, pin, chain', gens', j);
      SameNext(c, signed, gens[j - 1], gens'[j - 1], EntryAt(chain, gens, j), EntryAt(chain', gens', j),
               gens[j], gens'[j]);
    }
  }

  /** Any two chains accepted from one pin agree on the pinned id and sign key and on every whole
      record after it: past the pinned generation, the longer list extends the shorter. */
  lemma Agreement(c: Crypto, signed: Signed, pin: Pin, chain: seq<Entry>, chain': seq<Entry>,
                  gens: seq<Generation>, gens': seq<Generation>)
    requires SignsOnce(c, signed) && Authentic(c, signed, chain, gens) && Authentic(c, signed, chain', gens')
    requires Verified(c, pin, chain) == Success(gens) && Verified(c, pin, chain') == Success(gens')
    ensures gens != [] && gens' != [] && gens[0].ThePin() == gens'[0].ThePin() == pin
    ensures |gens| <= |gens'| ==> gens[1..] <= gens'[1..]
    ensures |gens'| <= |gens| ==> gens'[1..] <= gens[1..]
  {
    hide Verified, Authentic, SignsOnce;
    VerifiedMeaning(c, pin, chain, gens);
    VerifiedMeaning(c, pin, chain', gens');
    forall j: nat | 0 < j < |gens| && j < |gens'|
      ensures gens[j] == gens'[j]
    {
      SameAt(c, signed, pin, chain, chain', gens, gens', j);
    }
  }

  /** The limit of that agreement. The pinned entry's own record and signature are not checked:
      any other record with the pinned id and sign key is accepted in its place. */
  lemma PinnedRecordUnchecked(c: Crypto, pin: Pin, chain: seq<Entry>, gens: seq<Generation>, e: Entry, gen: Generation)
    requires Accepts(c, pin, chain, gens) && Parses(c, e, gen) && gen.ThePin() == pin
    ensures Verified(c, pin, chain[|chain| - |gens| := e]) == Success(gens[0 := gen])
  {
    hide Verified, Parse;
    var chain', gens' := chain[|chain| - |gens| := e], gens[0 := gen];
    forall j: nat | 0 < j < |gens|
      ensures Links(c, gens'[j - 1], EntryAt(chain', gens', j), gens'[j])
    {
      assert EntryAt(chain', gens', j) == EntryAt(chain, gens, j);
    }
    assert EntryAt(chain', gens', 0) == e;
    VerifiedMeaning(c, pin, chain', gens');
  }

  // ---- well-built chains verify from every pin ----

  /** The generation an entry announces. */
  ghost function Announced(c: Crypto, e: Entry): Generation {
    if Parse(c, e.record).Success? then Parse(c, e.record).value else Generation(0, "", "", 0)
  }

  ghost function Gens(c: Crypto, chain: seq<Entry>): (gens: seq<Generation>)
    ensures |gens| == |chain|
  {
    seq(|chain|, i requires 0 <= i < |chain| => Announced(c, chain[i]))
  }

  /** Generations with consecutive ids, each signed by the one before. */
  ghost predicate WellBuilt(c: Crypto, chain: seq<Entry>) {
    && chain != [] && Parses(c, chain[0], Announced(c, chain[0]))
    && forall i {:trigger chain[i]} | 0 < i < |chain| ::
         Links(c, Announced(c, chain[i - 1]), chain[i], Announced(c, chain[i]))
  }

  lemma {:induction false} Consecutive(c: Crypto, chain: seq<Entry>, i: nat)
    requires WellBuilt(c, chain) && i < |chain|
    ensures Gens(c, chain)[i].keyId == Gens(c, chain)[0].keyId + i && Parses(c, chain[i], Gens(c, chain)[i])
  {
    if i > 0 {
      Consecutive(c, chain, i - 1);
    }
  }

  lemma IsPassedOver(c: Crypto, pin: Pin, e: Entry, gen: Generation)
    requires Parses(c, e, gen) && gen.keyId != pin.keyId
    ensures PassedOver(c, pin, e)
  {
  }

  lemma LinkedAt(c: Crypto, chain: seq<Entry>, i: nat)
    requires WellBuilt(c, chain) && 0 < i < |chain|
    ensures Links(c, Gens(c, chain)[i - 1], chain[i], Gens(c, chain)[i])
  {
  }

  /** From the pin of any of its generations, the walk returns exactly that one to the newest. */
  lemma VerifiesFromEveryPin(c: Crypto, chain: seq<Entry>, k: nat)
    requires WellBuilt(c, chain) && k < |chain|
    ensures Verified(c, Gens(c, chain)[k].ThePin(), chain) == Success(Gens(c, chain)[k..])
    ensures forall j | 0 <= j < |chain| :: Gens(c, chain)[j].keyId == Gens(c, chain)[0].keyId + j
  {
    hide Verified, Parse, Announced, Gens, WellBuilt, Links, Parses;
    var gens, pin := Gens(c, chain), Gens(c, chain)[k].ThePin();
    var tail := gens[k..];
    forall i: nat | i < |chain|
      ensures gens[i].keyId == gens[0].keyId + i && Parses(c, chain[i], gens[i])
    {
      Consecutive(c, chain, i);
    }
    forall i | 0 <= i < k
      ensures PassedOver(c, pin, chain[i])
    {
      IsPassedOver(c, pin, chain[i], gens[i]);
    }
    forall j: nat | 0 < j < |tail|
      ensures Links(c, tail[j - 1], EntryAt(chain, tail, j), tail[j])
    {
      LinkedAt(c, chain, k + j);
      assert EntryAt(chain, tail, j) == chain[k + j];
    }
    assert EntryAt(chain, tail, 0) == chain[k];
    VerifiedMeaning(c, pin, chain, tail);
  }

  // ---- following a ring ----

  /** The `i`th announcement of a chain: the first record by its own key, each later one by the key
      of the generation before. */
  ghost function Announcement(c: Crypto, ring: seq<Entry>, i: nat): (string, string)
    requires i < |ring|
  {
    (Gens(c, ring)[if i == 0 then 0 else i - 1].sign, ring[i].record)
  }

  ghost function Announcements(c: Crypto, ring: seq<Entry>): Signed {
    iset i: nat | i < |ring| :: Announcement(c, ring, i)
  }

  /** A ring whose keys have signed its announcements, and no more, has signed once for each id. */
  lemma RingSignsOnce(c: Crypto, ring: seq<Entry>)
    requires WellBuilt(c, ring)
    ensures SignsOnce(c, Announcements(c, ring))
  {
    hide WellBuilt, Parse, Gens, Readable;
    forall pub, m, m' | (pub, m) in Announcements(c, ring) && (pub, m') in Announcements(c, ring) && SameId(c, m, m')
      ensures m == m'
    {
      var i: nat :| i < |ring| && Announcement(c, ring, i) == (pub, m);
      var j: nat :| j < |ring| && Announcement(c, ring, j) == (pub, m');
      Consecutive(c, ring, i);
      Consecutive(c, ring, j);
      ParseMeans(c, ring[i]);
      ParseMeans(c, ring[j]);
    }
  }

  /** Of the signatures a chain presents, those that verify under one of the ring's sign keys are on
      the ring's announcements. */
  ghost predicate OnlyAnnounced(c: Crypto, ring: seq<Entry>, chain: seq<Entry>) {
    forall e, prev | e in chain && prev in Gens(c, ring) && Signs(c, prev, e) ::
      (prev.sign, e.record) in Announcements(c, ring)
  }

  lemma {:induction false} StaysAt(c: Crypto, ring: seq<Entry>, k: nat, chain: seq<Entry>, gens: seq<Generation>,
                                   j: nat)
    requires WellBuilt(c, ring) && k < |ring| && OnlyAnnounced(c, ring, chain)
    requires Accepts(c, Gens(c, ring)[k].ThePin(), chain, gens) && j < |gens|
    ensures k + j < |ring|
    ensures gens[j].ThePin() == Gens(c, ring)[k + j].ThePin() && (0 < j ==> gens[j] == Gens(c, ring)[k + j])
  {
    hide WellBuilt, Parse, Gens, OnlyAnnounced;
    if j > 0 {
      StaysAt(c, ring, k, chain, gens, j - 1);
      var prev, e := Gens(c, ring)[k + j - 1], EntryAt(chain, gens, j);
      assert Links(c, gens[j - 1], e, gens[j]);
      assert Signs(c, prev, e);
      IsAnnounced(c, ring, chain, prev, e);
      var i: nat :| i < |ring| && Announcement(c, ring, i) == (prev.sign, e.record);
      Consecutive(c, ring, i);
      Consecutive(c, ring, k + j - 1);
    }
  }

  lemma IsAnnounced(c: Crypto, ring: seq<Entry>, chain: seq<Entry>, prev: Generation, e: Entry)
    requires OnlyAnnounced(c, ring, chain) && e in chain && prev in Gens(c, ring) && Signs(c, prev, e)
    ensures exists i: nat :: i < |ring| && Announcement(c, ring, i) == (prev.sign, e.record)
  {
    assert (prev.sign, e.record) in Announcements(c, ring);
  }

  /** Whatever chain a server presents, with no signature of the ring's keys but on the ring's own
      announcements, a follower pinned at one of its generations accepts nothing the ring did not
      announce: after the pinned one, a part of the ring's generations, in order, without a gap. */
  lemma FollowersStayOnTheRing(c: Crypto, ring: seq<Entry>, k: nat, chain: seq<Entry>, gens: seq<Generation>)
    requires WellBuilt(c, ring) && k < |ring| && OnlyAnnounced(c, ring, chain)
    requires Verified(c, Gens(c, ring)[k].ThePin(), chain) == Success(gens)
    ensures gens != [] && gens[0].ThePin() == Gens(c, ring)[k].ThePin()
    ensures gens[1..] <= Gens(c, ring)[k + 1..]
  {
    hide WellBuilt, Verified, Gens, OnlyAnnounced;
    VerifiedMeaning(c, Gens(c, ring)[k].ThePin(), chain, gens);
    StaysAt(c, ring, k, chain, gens, |gens| - 1);
    forall j: nat | 0 < j < |gens|
      ensures k + j < |ring| && gens[j] == Gens(c, ring)[k + j]
    {
      StaysAt(c, ring, k, chain, gens, j);
    }
  }

  /** The ring's own chain is such a chain, where a signature verifies under one key only. */
  lemma OwnChainIsAnnounced(c: Crypto, ring: seq<Entry>, n: nat)
    requires WellBuilt(c, ring) && Signs(c, Gens(c, ring)[0], ring[0]) && n <= |ring|
    requires forall pub, pub', m, sig :: c.verify(pub, m, sig) && c.verify(pub', m, sig) ==> pub == pub'
    ensures OnlyAnnounced(c, ring, ring[..n])
  {
    hide WellBuilt, Parse, Gens;
    forall e, prev | e in ring[..n] && prev in Gens(c, ring) && Signs(c, prev, e)
      ensures (prev.sign, e.record) in Announcements(c, ring)
    {
      var i: nat :| i < n && ring[..n][i] == e;
      if i > 0 {
        LinkedAt(c, ring, i);
      }
      assert Announcement(c, ring, i) == (prev.sign, e.record);
    }
  }

  /** A chain verifies from its own first generation exactly when it is well built. */
  lemma GenesisVerifies(c: Crypto, chain: seq<Entry>)
    requires GenesisPin(c, chain).Success?
    ensures var r := Verified(c, GenesisPin(c, chain).value, chain);
      (r.Success? <==> WellBuilt(c, chain)) && (r.Success? ==> r.value == Gens(c, chain))
  {
    hide Verified, Links;
    var pin := GenesisPin(c, chain).value;
    if WellBuilt(c, chain) {
      VerifiesFromEveryPin(c, chain, 0);
      assert Gens(c, chain)[0..] == Gens(c, chain);
    }
    if Verified(c, pin, chain).Success? {
      var gens := Verified(c, pin, chain).value;
      VerifiedMeaning(c, pin, chain, gens);
      assert !PassedOver(c, pin, chain[0]);
      AllLinked(c, pin, chain, gens);
    }
  }

  lemma AllLinked(c: Crypto, pin: Pin, chain: seq<Entry>, gens: seq<Generation>)
    requires Accepts(c, pin, chain, gens) && |gens| == |chain|
    ensures WellBuilt(c, chain)
  {
    forall i | 0 < i < |chain|
      ensures Links(c, Announced(c, chain[i - 1]), chain[i], Announced(c, chain[i]))
    {
      assert EntryAt(chain, gens, i) == chain[i] && EntryAt(chain, gens, i - 1) == chain[i - 1];
    }
    assert EntryAt(chain, gens, 0) == chain[0];
  }

  /** Appending a record the newest generation signs keeps a chain well built. */
  lemma Appended(c: Crypto, chain: seq<Entry>, e: Entry, gen: Generation)
    requires WellBuilt(c, chain) && Links(c, Gens(c, chain)[|chain| - 1], e, gen)
    ensures WellBuilt(c, chain + [e]) && Gens(c, chain + [e]) == Gens(c, chain) + [gen]
  {
    var chain' := chain + [e];
    assert Announced(c, e) == gen;
    forall i | 0 < i < |chain'|
      ensures Links(c, Announced(c, chain'[i - 1]), chain'[i], Announced(c, chain'[i]))
    {
      assert i < |chain| ==> chain'[i] == chain[i];
    }
  }

  // ---- the current generation ----

  function Live(gens: seq<Generation>, now: int): (live: seq<Generation>) {
    if gens == [] then []
    else Live(gens[..|gens| - 1], now) + if gens[|gens| - 1].notBefore <= now then [gens[|gens| - 1]] else []
  }

  /** The newest generation whose time has come. */
  function Current(gens: seq<Generation>, now: int): Result<Generation, Error> {
    var live := Live(gens, now);
    if live == [] then Failure(NotYet) else Success(live[|live| - 1])
  }

  /** Index `i` is in effect at `now`, and no later one is. */
  ghost predicate NewestLive(gens: seq<Generation>, now: int, i: nat) {
    i < |gens| && gens[i].notBefore <= now && forall j | i < j < |gens| :: gens[j].notBefore > now
  }

  lemma CurrentStep(gens: seq<Generation>, now: int)
    requires gens != []
    ensures var last := gens[|gens| - 1];
      Current(gens, now) == if last.notBefore <= now then Success(last) else Current(gens[..|gens| - 1], now)
  {
  }

  lemma {:induction false} CurrentMeaning(gens: seq<Generation>, now: int) returns (i: nat)
    ensures Current(gens, now).Success? <==> exists j :: 0 <= j < |gens| && gens[j].notBefore <= now
    ensures Current(gens, now).Success? ==> NewestLive(gens, now, i) && Current(gens, now) == Success(gens[i])
    decreases |gens|
  {
    assert gens == [] ==> Current(gens, now).Failure?;
    hide Current, Live;
    i := 0;
    if gens != [] {
      CurrentStep(gens, now);
      if gens[|gens| - 1].notBefore <= now {
        i := |gens| - 1;
      } else {
        i := CurrentMeaning(gens[..|gens| - 1], now);
      }
    }
  }

  lemma CurrentIs(gens: seq<Generation>, now: int, i: nat)
    requires NewestLive(gens, now, i)
    ensures Current(gens, now) == Success(gens[i])
  {
    var k := CurrentMeaning(gens, now);
    assert k == i;
  }

  /** The id publishers seal to never goes down, as time passes or the chain grows. */
  lemma CurrentNeverGoesDown(gens: seq<Generation>, gens': seq<Generation>, now: int, now': int)
    requires gens <= gens' && now <= now'
    requires forall i, j | 0 <= i < j < |gens'| :: gens'[i].keyId < gens'[j].keyId
    requires Current(gens, now).Success?
    ensures Current(gens', now').Success?
    ensures Current(gens, now).value.keyId <= Current(gens', now').value.keyId
  {
    hide Current;
    var i := CurrentMeaning(gens, now);
    assert gens'[i] == gens[i];
    var k := CurrentMeaning(gens', now');
    assert i <= k;
  }
}
