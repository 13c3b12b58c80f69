/**
  The keykeeper chain: records signed each by the one before, walked forward from a pin
  (src/openmv_ota/keykeeper/ring.py:66-202). Times are seconds; record texts, points and
  signatures are strings.
 */
module Chain {
  import opened Wrappers

  datatype Generation = Generation(keyId: int, seal: string, sign: string, notBefore: int) {
    function ThePin(): Pin {
      Pin(keyId, sign)
    }
  }

  datatype Pin = Pin(keyId: int, sign: string)

  datatype Entry = Entry(record: string, signature: string)

  datatype Error =
    | Malformed | NotAPoint | WrongPinned | Skips | BadSignature | NotInChain | NotYet
    | NoChain | Damaged | Exists | NoKey | WrongPassphrase | NotEmpty | BadBackup

  /** The primitives: ECDSA over P-256, and the JSON text of a record. */
  datatype Crypto = Crypto(
    publicOf: nat -> string,
    sign: (nat, string) -> string,
    verify: (string, string, string) -> bool,
    isPoint: string -> bool,
    dump: Generation -> string,
    load: string -> Option<Generation>)

  /** What the primitives promise: own signatures verify, own records load back. */
  ghost predicate Sound(c: Crypto) {
    && (forall key, msg :: c.verify(c.publicOf(key), msg, c.sign(key, msg)))
    && (forall key :: c.isPoint(c.publicOf(key)))
    && (forall gen :: c.load(c.dump(gen)) == Some(gen))
  }

  function Parse(c: Crypto, record: string): (r: Result<Generation, Error>)
    ensures r.Success? ==> r.value.keyId >= 1
  {
    match c.load(record)
    case None => Failure(Malformed)
    case Some(gen) =>
      if gen.keyId < 1 then Failure(Malformed)
      else if !c.isPoint(gen.seal) || !c.isPoint(gen.sign) then Failure(NotAPoint)
      else Success(gen)
  }

  function GenesisPin(c: Crypto, chain: seq<Entry>): Result<Pin, Error> {
    if chain == [] then Failure(Malformed) else
    var gen :- Parse(c, chain[0].record);
    Success(gen.ThePin())
  }

  // ---- the walk ----

  /** One step: the generations so far, and the next entry. */
  function Step(c: Crypto, pin: Pin, gens: seq<Generation>, e: Entry): (r: Result<seq<Generation>, Error>)
    ensures r.Success? ==> if gens == [] then |r.value| <= 1 else |r.value| == |gens| + 1 && gens <= r.value
  {
    var gen :- Parse(c, e.record);
    if gens == [] then
      if gen.keyId != pin.keyId then Success([])
      else if gen.sign != pin.sign then Failure(WrongPinned)
      else Success([gen])
    else
      var prev := gens[|gens| - 1];
      if gen.keyId != prev.keyId + 1 then Failure(Skips)
      else if !c.verify(prev.sign, e.record, e.signature) then Failure(BadSignature)
      else Success(gens + [gen])
  }

  function Walk(c: Crypto, pin: Pin, chain: seq<Entry>): (r: Result<seq<Generation>, Error>)
    ensures r.Success? ==> |r.value| <= |chain|
  {
    if chain == [] then Success([]) else
    var gens :- Walk(c, pin, chain[..|chain| - 1]);
    Step(c, pin, gens, chain[|chain| - 1])
  }

  function Verified(c: Crypto, pin: Pin, chain: seq<Entry>): Result<seq<Generation>, Error> {
    var gens :- Walk(c, pin, chain);
    if gens == [] then Failure(NotInChain) else Success(gens)
  }

  lemma {:induction false} WalkFails(c: Crypto, pin: Pin, chain: seq<Entry>, i: nat)
    requires i <= |chain| && Walk(c, pin, chain[..i]).Failure?
    ensures Walk(c, pin, chain) == Walk(c, pin, chain[..i])
    decreases |chain|
  {
    if i < |chain| {
      assert chain[..|chain| - 1][..i] == chain[..i];
      WalkFails(c, pin, chain[..|chain| - 1], i);
    } else {
      assert chain[..i] == chain;
    }
  }

  method VerifyChain(c: Crypto, chain: seq<Entry>, pin: Pin) returns (r: Result<seq<Generation>, Error>)
    ensures r == Verified(c, pin, chain)
  {
    var gens: seq<Generation> := [];
    var i := 0;
    while i < |chain|
      invariant 0 <= i <= |chain| && Walk(c, pin, chain[..i]) == Success(gens)
    {
      var e := chain[i];
      assert chain[..i + 1][..i] == chain[..i];
      ghost var failed := Walk(c, pin, chain[..i + 1]);
      if failed.Failure? {
        WalkFails(c, pin, chain, i + 1);
      }
      i := i + 1;
      var gen :- Parse(c, e.record);
      if gens == [] {
        if gen.keyId != pin.keyId {
          continue;
        }
        if gen.sign != pin.sign {
          return Failure(WrongPinned);
        }
        gens := [gen];
        continue;
      }
      var prev := gens[|gens| - 1];
      if gen.keyId != prev.keyId + 1 {
        return Failure(Skips);
      }
      if !c.verify(prev.sign, e.record, e.signature) {
        return Failure(BadSignature);
      }
      gens := gens + [gen];
    }
    assert chain[..i] == chain;
    if gens == [] {
      return Failure(NotInChain);
    }
    return Success(gens);
  }

  // ---- what it means to be accepted ----

  /** A generation a record may announce: a positive id, and two keys that are points of the curve. */
  ghost predicate Readable(c: Crypto, gen: Generation) {
    gen.keyId >= 1 && c.isPoint(gen.seal) && c.isPoint(gen.sign)
  }

  ghost predicate Parses(c: Crypto, e: Entry, gen: Generation) {
    c.load(e.record) == Some(gen) && Readable(c, gen)
  }

  lemma ParseMeans(c: Crypto, e: Entry)
    ensures Parse(c, e.record).Success? <==> c.load(e.record).Some? && Readable(c, c.load(e.record).value)
    ensures Parse(c, e.record).Success? ==> Parse(c, e.record).value == c.load(e.record).value
  {
  }

  /** `e` announces `gen`, the one after `prev`, and `prev`'s sign key signed it. */
  ghost predicate Links(c: Crypto, prev: Generation, e: Entry, gen: Generation) {
    Parses(c, e, gen) && gen.keyId == prev.keyId + 1 && c.verify(prev.sign, e.record, e.signature)
  }

  ghost predicate PassedOver(c: Crypto, pin: Pin, e: Entry) {
    && c.load(e.record).Some? && Readable(c, c.load(e.record).value)
    && c.load(e.record).value.keyId != pin.keyId
  }

  /** The entry of the `j`th of the generations a chain ends in. */
  function EntryAt(chain: seq<Entry>, gens: seq<Generation>, j: nat): Entry
    requires j < |gens| <= |chain|
  {
    chain[|chain| - |gens| + j]
  }

  /** The chain ends in `gens`: the first is the pinned one, each later one is linked to the one
      before, and no entry ahead of them is the pinned one. */
  ghost predicate Accepts(c: Crypto, pin: Pin, chain: seq<Entry>, gens: seq<Generation>) {
    && 0 < |gens| <= |chain|
    && (forall i | 0 <= i < |chain| - |gens| :: PassedOver(c, pin, chain[i]))
    && gens[0].ThePin() == pin && Parses(c, EntryAt(chain, gens, 0), gens[0])
    && forall j: nat {:trigger EntryAt(chain, gens, j)} | 0 < j < |gens| ::
         Links(c, gens[j - 1], EntryAt(chain, gens, j), gens[j])
  }

  lemma AcceptsMore(c: Crypto, pin: Pin, chain: seq<Entry>, gens: seq<Generation>, e: Entry, gen: Generation)
    requires 0 < |gens| <= |chain|
    ensures Accepts(c, pin, chain + [e], gens + [gen])
       <==> Accepts(c, pin, chain, gens) && Links(c, gens[|gens| - 1], e, gen)
  {
    hide Links, Parses, PassedOver;
    var chain', gens' := chain + [e], gens + [gen];
    assert EntryAt(chain', gens', |gens|) == e;
    assert forall j: nat | j < |gens| :: EntryAt(chain', gens', j) == EntryAt(chain, gens, j);
    assert forall i | 0 <= i < |chain| - |gens| :: chain'[i] == chain[i];
  }

  lemma {:induction false} WalkMeaning(c: Crypto, pin: Pin, chain: seq<Entry>, gens: seq<Generation>)
    ensures Walk(c, pin, chain) == Success(gens) <==>
      if gens == [] then forall e | e in chain :: PassedOver(c, pin, e) else Accepts(c, pin, chain, gens)
    decreases |chain|
  {
    hide Accepts, Parse, Readable;
    if chain == [] {
      assert !Accepts(c, pin, chain, gens) by { AcceptsBounds(c, pin, chain, gens); }
    } else {
      var before, e := chain[..|chain| - 1], chain[|chain| - 1];
      assert chain == before + [e];
      ParseMeans(c, e);
      WalkMeaning(c, pin, before, []);
      if |gens| > 1 {
        WalkMeaning(c, pin, before, gens[..|gens| - 1]);
        assert gens == gens[..|gens| - 1] + [gens[|gens| - 1]];
        AcceptsBounds(c, pin, chain, gens);
        assert forall g0: seq<Generation> :: g0 <= gens && |g0| + 1 == |gens| ==> g0 == gens[..|gens| - 1];
        if |gens| <= |chain| {
          AcceptsMore(c, pin, before, gens[..|gens| - 1], e, gens[|gens| - 1]);
        }
      } else if gens == [] {
        assert forall x :: x in chain <==> x in before || x == e;
        assert Walk(c, pin, chain) == Success([]) ==> Walk(c, pin, before) == Success([]);
        assert Walk(c, pin, chain) == Success([]) ==> PassedOver(c, pin, e);
        assert Walk(c, pin, before) == Success([]) && PassedOver(c, pin, e) ==> Walk(c, pin, chain) == Success([]);
      } else {
        assert gens == [gens[0]];
        AcceptsOne(c, pin, before, e, gens[0]);
      }
    }
  }

  lemma AcceptsBounds(c: Crypto, pin: Pin, chain: seq<Entry>, gens: seq<Generation>)
    ensures Accepts(c, pin, chain, gens) ==> 0 < |gens| <= |chain|
  {
  }

  lemma AcceptsOne(c: Crypto, pin: Pin, chain: seq<Entry>, e: Entry, gen: Generation)
    ensures Accepts(c, pin, chain + [e], [gen]) <==>
      (forall e | e in chain :: PassedOver(c, pin, e)) && gen.ThePin() == pin && Parses(c, e, gen)
  {
    hide PassedOver, Parses;
    assert EntryAt(chain + [e], [gen], 0) == e;
    if Accepts(c, pin, chain + [e], [gen]) {
      forall i | 0 <= i < |chain|
        ensures PassedOver(c, pin, chain[i])
      {
        assert (chain + [e])[i] == chain[i];
      }
    }
  }

  /** The walk returns `gens` exactly when the chain ends in them, linked, from the pinned one on. */
  lemma VerifiedMeaning(c: Crypto, pin: Pin, chain: seq<Entry>, gens: seq<Generation>)
    ensures Verified(c, pin, chain) == Success(gens) <==> Accepts(c, pin, chain, gens)
  {
    WalkMeaning(c, pin, chain, gens);
    AcceptsBounds(c, pin, chain, gens);
  }
}
