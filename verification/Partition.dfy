/** Finding the slots of a partition image by their trailers (src/openmv_ota/ota/partition.py). */
module Partition {
  import opened Wrappers
  import opened Bytes
  import Struct
  import T = Trailer
  import TT = TrailerTheorems

  const SCAN_STEP := 4096

  datatype Found = Found(off: nat, trailer: T.Trailer)

  predicate IsTrailerAt(p: T.Codec, image: bytes, off: nat) {
    && off + T.HEADER_SIZE <= |image| && image[off..off + 4] == T.MAGIC
    && T.ParseTrailer(p, image[off..]).Success?
  }

  function FindFrom(p: T.Codec, image: bytes, step: nat, off: nat): seq<Found>
    requires step > 0
    decreases |image| - off
  {
    if off + T.HEADER_SIZE > |image| then []
    else
      (if IsTrailerAt(p, image, off) then [Found(off, T.ParseTrailer(p, image[off..]).value)] else [])
      + FindFrom(p, image, step, off + step)
  }

  method FindTrailers(p: T.Codec, image: bytes, step: nat) returns (out: seq<Found>)
    requires step > 0
    ensures out == FindFrom(p, image, step, 0)
  {
    hide T.ParseTrailer;
    out := [];
    var off, n := 0, |image|;
    while off + T.HEADER_SIZE <= n
      invariant off >= 0 && out + FindFrom(p, image, step, off) == FindFrom(p, image, step, 0)
      decreases n - off
    {
      if image[off..off + 4] == T.MAGIC {
        var r := T.ParseTrailer(p, image[off..]);
        if r.Success? {
          out := out + [Found(off, r.value)];
        }
      }
      off := off + step;
    }
  }

  function SlotLabels(n: nat): (labels: seq<string>)
    ensures |labels| == n
  {
    if n == 2 then ["A", "B"] else seq(n, _ => "image")
  }

  /** A Python slice: a negative bound counts from the end, and bounds are cut to the data. */
  function PySlice(data: bytes, from: nat, to: int): bytes {
    var end := if to < 0 then to + |data| else to;
    var hi := if end < 0 then 0 else if end > |data| then |data| else end;
    if from <= hi then data[from..hi] else []
  }

  /** Byte by byte: from `from` up to the bound, as far as the data go. */
  lemma PySliceIs(data: bytes, from: nat, to: int)
    ensures var r, hi := PySlice(data, from, to), if to < 0 then to + |data| else to;
      && |r| == (if hi <= from || |data| <= from then 0 else if hi < |data| then hi - from else |data| - from)
      && forall k | 0 <= k < |r| :: r[k] == data[from + k]
  {
  }

  datatype SlotView = SlotView(name: string, body: bytes, trailerBytes: bytes)

  /** What the slots of `found` are, `start` being where the next one begins. */
  function Views(image: bytes, found: seq<Found>, labels: seq<string>, block: int, start: nat): seq<SlotView>
    requires |found| == |labels| && block >= 0 && forall i | 0 <= i < |found| :: found[i].off <= |image|
  {
    if found == [] then []
    else [SlotView(labels[0], PySlice(image, start, found[0].off - block), image[found[0].off..])]
         + Views(image, found[1..], labels[1..], block, found[0].off + block)
  }

  lemma {:induction false} FoundInside(p: T.Codec, image: bytes, step: nat, off: nat, i: nat)
    requires step > 0 && i < |FindFrom(p, image, step, off)|
    ensures FindFrom(p, image, step, off)[i].off <= |image|
    decreases |image| - off
  {
    hide IsTrailerAt, T.ParseTrailer;
    if off + T.HEADER_SIZE <= |image| {
      var k := if IsTrailerAt(p, image, off) then 1 else 0;
      if i >= k {
        FoundInside(p, image, step, off + step, i - k);
      }
    }
  }

  function AllFound(p: T.Codec, image: bytes, step: nat): (found: seq<Found>)
    requires step > 0
    ensures forall i | 0 <= i < |found| :: found[i].off <= |image|
  {
    var found := FindFrom(p, image, step, 0);
    assert forall i: nat | i < |found| :: found[i].off <= |image| by {
      forall i: nat | i < |found|
        ensures found[i].off <= |image|
      {
        FoundInside(p, image, step, 0, i);
      }
    }
    found
  }

  function SlotsOf(p: T.Codec, image: bytes, step: nat): seq<SlotView>
    requires step > 0
  {
    var found := AllFound(p, image, step);
    if found == [] then []
    else Views(image, found, SlotLabels(|found|), |image| - found[|found| - 1].off, 0)
  }

  method Slots(p: T.Codec, image: bytes, step: nat) returns (out: seq<SlotView>)
    requires step > 0
    ensures out == SlotsOf(p, image, step)
  {
    hide FindFrom, PySlice, Views;
    var found := FindTrailers(p, image, step);
    assert found == AllFound(p, image, step);
    if found == [] {
      return [];
    }
    var block := |image| - found[|found| - 1].off;
    var labels := SlotLabels(|found|);
    var start := 0;
    out := [];
    for i := 0 to |found|
      invariant start >= 0
      invariant Views(image, found, labels, block, 0)
             == out + Views(image, found[i..], labels[i..], block, start)
    {
      var off := found[i].off;
      FirstView(image, found[i..], labels[i..], block, start);
      assert found[i..][1..] == found[i + 1..] && labels[i..][1..] == labels[i + 1..];
      Assoc(out, [SlotView(labels[i], PySlice(image, start, off - block), image[off..])],
            Views(image, found[i + 1..], labels[i + 1..], block, off + block));
      out := out + [SlotView(labels[i], PySlice(image, start, off - block), image[off..])];
      start := off + block;
    }
    NoViews(image, found[|found|..], labels[|found|..], block, start);
  }

  lemma FirstView(image: bytes, found: seq<Found>, labels: seq<string>, block: int, start: nat)
    requires |found| == |labels| && block >= 0 && forall i | 0 <= i < |found| :: found[i].off <= |image|
    requires found != []
    ensures Views(image, found, labels, block, start)
         == [SlotView(labels[0], PySlice(image, start, found[0].off - block), image[found[0].off..])]
            + Views(image, found[1..], labels[1..], block, found[0].off + block)
  {
    hide PySlice;
  }

  lemma NoViews(image: bytes, found: seq<Found>, labels: seq<string>, block: int, start: nat)
    requires found == [] && labels == [] && block >= 0
    ensures Views(image, found, labels, block, start) == []
  {
  }

  // ---- images made of slots ----

  /** A slot: its body, its status block, and its trailer padded to a block. */
  datatype Slot = Slot(body: bytes, status: bytes, trailer: T.Trailer, pad: bytes)

  /** An erase block: a multiple of the scan's step. */
  predicate BlockOk(block: nat) {
    block > 0 && block % 4096 == 0
  }

  ghost predicate Whole(p: T.Codec, s: Slot, block: nat) {
    && BlockOk(block) && |s.body| % 4096 == 0 && |s.status| == block
    && T.PackTrailer(p, s.trailer).Success? && s.trailer.headerVersion == 4
    && |T.PackTrailer(p, s.trailer).value| + |s.pad| == block
  }

  ghost predicate AllWhole(p: T.Codec, slots: seq<Slot>, block: nat) {
    forall s | s in slots :: Whole(p, s, block)
  }

  ghost function Block(p: T.Codec, s: Slot, block: nat): bytes
    requires Whole(p, s, block)
  {
    T.PackTrailer(p, s.trailer).value + s.pad
  }

  ghost function ImageOf(p: T.Codec, slots: seq<Slot>, block: nat): bytes
    requires AllWhole(p, slots, block)
  {
    if slots == [] then []
    else slots[0].body + slots[0].status + Block(p, slots[0], block) + ImageOf(p, slots[1..], block)
  }

  /** Where a slot's trailer is, and where the next slot begins. */
  function TrailerOf(start: nat, s: Slot, block: nat): nat {
    start + |s.body| + block
  }

  ghost function Expected(slots: seq<Slot>, start: nat, block: nat): (found: seq<Found>)
    ensures |found| == |slots|
  {
    if slots == [] then []
    else [Found(TrailerOf(start, slots[0], block), slots[0].trailer)]
         + Expected(slots[1..], TrailerOf(start, slots[0], block) + block, block)
  }

  /** `off` is where one of the slots' trailers is. */
  ghost predicate IsExpected(slots: seq<Slot>, start: nat, off: nat, block: nat) {
    slots != [] &&
    (off == TrailerOf(start, slots[0], block)
     || IsExpected(slots[1..], TrailerOf(start, slots[0], block) + block, off, block))
  }

  lemma {:induction false} ExpectedPast(slots: seq<Slot>, start: nat, off: nat, block: nat)
    requires slots != [] && IsExpected(slots, start, off, block)
    ensures off >= TrailerOf(start, slots[0], block)
  {
    if off != TrailerOf(start, slots[0], block) {
      ExpectedPast(slots[1..], TrailerOf(start, slots[0], block) + block, off, block);
    }
  }

  /** Nothing else at a scanned offset from `start` on reads as a trailer. */
  ghost predicate NoOther(p: T.Codec, image: bytes, slots: seq<Slot>, start: nat, block: nat) {
    forall off: nat | start <= off && off % 4096 == 0 && IsTrailerAt(p, image, off) ::
      IsExpected(slots, start, off, block)
  }

  lemma {:induction false} SkipTo(p: T.Codec, image: bytes, off: nat, target: nat)
    requires off % SCAN_STEP == target % SCAN_STEP == 0 && off <= target <= |image|
    requires forall o: nat | off <= o < target && o % SCAN_STEP == 0 :: !IsTrailerAt(p, image, o)
    ensures FindFrom(p, image, SCAN_STEP, off) == FindFrom(p, image, SCAN_STEP, target)
    decreases target - off
  {
    hide IsTrailerAt, T.ParseTrailer;
    if off < target {
      SkipTo(p, image, off + SCAN_STEP, target);
    }
  }

  lemma MagicFirst(p: T.Codec, data: bytes)
    requires T.ParseTrailer(p, data).Success?
    ensures |data| >= T.HEADER_SIZE && data[..4] == T.MAGIC
  {
    T.Sizes();
    hide Struct.CalcSize, Struct.Unpack;
    Struct.UnpackAt(T.HEADER, data, 0, 0);
    NoFields(T.HEADER[..0]);
    assert T.HEADER[0] == Struct.S(4) && data[0..4] == data[..4];
  }

  lemma NoFields(fmt: seq<Struct.Fmt>)
    requires fmt == []
    ensures Struct.CalcSize(fmt) == 0
  {
  }

  /** What is before the next slot. */
  lemma NextSlot(p: T.Codec, image: bytes, pre: bytes, slots: seq<Slot>, block: nat) returns (pre': bytes)
    requires AllWhole(p, slots, block) && slots != [] && image == pre + ImageOf(p, slots, block)
    ensures AllWhole(p, slots[1..], block) && image == pre' + ImageOf(p, slots[1..], block)
    ensures |pre'| == TrailerOf(|pre|, slots[0], block) + block
    ensures Whole(p, slots[0], block)
      && image == pre + (slots[0].body + slots[0].status + Block(p, slots[0], block) + ImageOf(p, slots[1..], block))
  {
    hide T.PackTrailer;
    pre' := pre + slots[0].body + slots[0].status + Block(p, slots[0], block);
  }

  /** The first slot's trailer is found where it is. */
  lemma FirstFound(p: T.Codec, image: bytes, pre: bytes, s: Slot, rest: bytes, block: nat)
    requires T.Sound(p) && Whole(p, s, block) && image == pre + (s.body + s.status + Block(p, s, block) + rest)
    ensures var off := TrailerOf(|pre|, s, block);
      && off + block + |rest| == |image| && IsTrailerAt(p, image, off)
      && T.ParseTrailer(p, image[off..]) == Success(s.trailer)
      && image[|pre|..off - block] == s.body
  {
    hide T.PackTrailer, T.ParseTrailer;
    var off := TrailerOf(|pre|, s, block);
    assert image[off..] == T.PackTrailer(p, s.trailer).value + (s.pad + rest);
    TT.TrailerRoundTrip(p, s.trailer, s.pad + rest);
    MagicFirst(p, image[off..]);
    assert image[off..off + 4] == image[off..][..4];
  }

  /** In an image of slots, no scanned offset from the first slot's start to its end reads as a trailer
      but its own. */
  lemma OnlyOwn(p: T.Codec, image: bytes, slots: seq<Slot>, start: nat, block: nat, o: nat)
    requires slots != [] && NoOther(p, image, slots, start, block)
    requires start <= o < TrailerOf(start, slots[0], block) + block && o % SCAN_STEP == 0
    ensures IsTrailerAt(p, image, o) ==> o == TrailerOf(start, slots[0], block)
  {
    hide IsTrailerAt;
    if IsTrailerAt(p, image, o) && o != TrailerOf(start, slots[0], block) {
      ExpectedPast(slots, start, o, block);
      assert IsExpected(slots[1..], TrailerOf(start, slots[0], block) + block, o, block);
      ExpectedPast(slots[1..], TrailerOf(start, slots[0], block) + block, o, block);
    }
  }

  lemma Aligned(start: nat, s: Slot, block: nat)
    requires BlockOk(block) && |s.body| % SCAN_STEP == 0 && start % SCAN_STEP == 0
    ensures TrailerOf(start, s, block) % SCAN_STEP == 0 && (TrailerOf(start, s, block) + block) % SCAN_STEP == 0
    ensures block >= SCAN_STEP
  {
  }

  lemma NoOtherLater(p: T.Codec, image: bytes, slots: seq<Slot>, start: nat, block: nat)
    requires slots != [] && block > 0 && NoOther(p, image, slots, start, block)
    ensures NoOther(p, image, slots[1..], TrailerOf(start, slots[0], block) + block, block)
  {
    hide IsTrailerAt;
    var next: nat := TrailerOf(start, slots[0], block) + block;
    forall off: nat | next <= off && off % SCAN_STEP == 0 && IsTrailerAt(p, image, off)
      ensures IsExpected(slots[1..], next, off, block)
    {
      assert start <= off && IsExpected(slots, start, off, block);
    }
  }

  lemma ScanOne(p: T.Codec, image: bytes, off: nat, t: T.Trailer)
    requires IsTrailerAt(p, image, off) && T.ParseTrailer(p, image[off..]) == Success(t)
    ensures FindFrom(p, image, SCAN_STEP, off) == [Found(off, t)] + FindFrom(p, image, SCAN_STEP, off + SCAN_STEP)
  {
    hide T.ParseTrailer;
  }

  /** The scan finds exactly the slots' trailers, in order. */
  lemma {:induction false} ScanFinds(p: T.Codec, image: bytes, pre: bytes, slots: seq<Slot>, block: nat)
    requires T.Sound(p) && AllWhole(p, slots, block) && image == pre + ImageOf(p, slots, block)
    requires |pre| % SCAN_STEP == 0 && NoOther(p, image, slots, |pre|, block)
    ensures FindFrom(p, image, SCAN_STEP, |pre|) == Expected(slots, |pre|, block)
    decreases |slots|
  {
    hide IsTrailerAt, T.ParseTrailer, T.PackTrailer, NoOther, IsExpected;
    if slots != [] {
      hide ImageOf, Block, FindFrom, TrailerOf;
      var s, rest := slots[0], ImageOf(p, slots[1..], block);
      var off := TrailerOf(|pre|, s, block);
      var pre' := NextSlot(p, image, pre, slots, block);
      FirstFound(p, image, pre, s, rest, block);
      Aligned(|pre|, s, block);
      TrailerPast(|pre|, s, block);
      forall o: nat | |pre| <= o < off + block && o % SCAN_STEP == 0
        ensures IsTrailerAt(p, image, o) ==> o == off
      {
        OnlyOwn(p, image, slots, |pre|, block, o);
      }
      SkipTo(p, image, |pre|, off);
      ScanOne(p, image, off, s.trailer);
      SkipTo(p, image, off + SCAN_STEP, off + block);
      NoOtherLater(p, image, slots, |pre|, block);
      ScanFinds(p, image, pre', slots[1..], block);
    }
  }

  lemma TrailerPast(start: nat, s: Slot, block: nat)
    ensures start + block <= TrailerOf(start, s, block)
  {
  }

  lemma {:induction false} ImageEnds(p: T.Codec, image: bytes, pre: bytes, slots: seq<Slot>, block: nat)
    requires AllWhole(p, slots, block) && image == pre + ImageOf(p, slots, block) && slots != []
    ensures Expected(slots, |pre|, block)[|slots| - 1].off == |image| - block
    decreases |slots|
  {
    hide *;
    var pre' := NextSlot(p, image, pre, slots, block);
    ExpectedStep(slots, |pre|, block);
    if |slots| > 1 {
      ImageEnds(p, image, pre', slots[1..], block);
    } else {
      NoImage(p, slots[1..], block);
    }
  }

  lemma ExpectedStep(slots: seq<Slot>, start: nat, block: nat)
    requires slots != []
    ensures var next := TrailerOf(start, slots[0], block) + block;
      && Expected(slots, start, block)[0].off == next - block
      && (|slots| > 1 ==>
            Expected(slots, start, block)[|slots| - 1] == Expected(slots[1..], next, block)[|slots| - 2])
  {
  }

  lemma NoImage(p: T.Codec, slots: seq<Slot>, block: nat)
    requires slots == [] && AllWhole(p, slots, block)
    ensures ImageOf(p, slots, block) == []
  {
  }

  /** A slot's label, in an image of `n`. */
  ghost function LabelIs(n: nat, i: nat): string {
    if n != 2 then "image" else if i == 0 then "A" else "B"
  }

  lemma LabelsAre(n: nat, i: nat)
    requires i < n
    ensures SlotLabels(n)[i] == LabelIs(n, i)
  {
  }

  /** The `i`th view is of the `i`th slot: its label, its body without the control blocks, and the image
      from its trailer on. */
  ghost predicate ViewsOf(views: seq<SlotView>, image: bytes, slots: seq<Slot>, labels: seq<string>, start: nat,
                          block: nat)
    requires |labels| == |slots|
  {
    && |views| == |slots|
    && (slots != [] ==>
          var off := start + |slots[0].body| + block;
          && off <= |image| && views[0] == SlotView(labels[0], slots[0].body, image[off..])
          && ViewsOf(views[1..], image, slots[1..], labels[1..], off + block, block))
  }

  lemma {:induction false} ViewsAre(p: T.Codec, image: bytes, pre: bytes, slots: seq<Slot>, labels: seq<string>,
                                    block: nat)
    requires T.Sound(p) && AllWhole(p, slots, block) && image == pre + ImageOf(p, slots, block) && |slots| == |labels|
    requires forall i | 0 <= i < |slots| :: Expected(slots, |pre|, block)[i].off <= |image|
    ensures ViewsOf(Views(image, Expected(slots, |pre|, block), labels, block, |pre|), image, slots, labels, |pre|,
                    block)
    decreases |slots|
  {
    hide IsTrailerAt, T.ParseTrailer, T.PackTrailer, ImageOf, Block, Whole, Views, FindFrom;
    if slots == [] {
      NoViews(image, Expected(slots, |pre|, block), labels, block, |pre|);
    } else {
      var s, found := slots[0], Expected(slots, |pre|, block);
      var off := TrailerOf(|pre|, s, block);
      var pre' := NextSlot(p, image, pre, slots, block);
      FirstFound(p, image, pre, s, ImageOf(p, slots[1..], block), block);
      assert found[1..] == Expected(slots[1..], |pre'|, block) && |pre'| == off + block;
      FirstView(image, found, labels, block, |pre|);
      ViewsAre(p, image, pre', slots[1..], labels[1..], block);
      var views := Views(image, found, labels, block, |pre|);
      assert PySlice(image, |pre|, off - block) == s.body;
      assert views[1..] == Views(image, found[1..], labels[1..], block, off + block);
    }
  }

  /** An image of whole slots, with nothing else at a scanned offset that reads as a trailer: the
      scan finds exactly their trailers, and the slots returned are theirs, in order. */
  lemma SlotsFound(p: T.Codec, slots: seq<Slot>, block: nat)
    requires T.Sound(p) && AllWhole(p, slots, block) && NoOther(p, ImageOf(p, slots, block), slots, 0, block)
    ensures FindFrom(p, ImageOf(p, slots, block), 4096, 0) == Expected(slots, 0, block)
    ensures ViewsOf(SlotsOf(p, ImageOf(p, slots, block), 4096), ImageOf(p, slots, block), slots,
                    seq(|slots|, i requires 0 <= i < |slots| => LabelIs(|slots|, i)), 0, block)
  {
    hide IsTrailerAt, T.ParseTrailer, T.PackTrailer, ImageOf, FindFrom, Views, PySlice, SlotLabels;
    var image := ImageOf(p, slots, block);
    assert image == [] + image;
    ScanFinds(p, image, [], slots, block);
    var found := AllFound(p, image, SCAN_STEP);
    if slots != [] {
      ImageEnds(p, image, [], slots, block);
      ViewsAre(p, image, [], slots, SlotLabels(|slots|), block);
      forall i: nat | i < |slots|
        ensures SlotLabels(|slots|)[i] == LabelIs(|slots|, i)
      {
        LabelsAre(|slots|, i);
      }
      assert SlotLabels(|slots|) == seq(|slots|, i requires 0 <= i < |slots| => LabelIs(|slots|, i));
    }
  }

  // ---- any image ----

  /** What the scan finds in any image: at each multiple of the step, what parses as a trailer there. */
  lemma {:induction false} FoundIs(p: T.Codec, image: bytes, step: nat, off: nat, n: nat, t: T.Trailer)
    requires step > 0
    ensures off + n * step <= |image| && T.ParseTrailer(p, image[off + n * step..]) == Success(t) ==>
      Found(off + n * step, t) in FindFrom(p, image, step, off)
    decreases n
  {
    hide T.ParseTrailer;
    if off + n * step <= |image| && T.ParseTrailer(p, image[off + n * step..]) == Success(t) {
      MagicFirst(p, image[off + n * step..]);
      if n == 0 {
        assert image[off..off + 4] == image[off..][..4];
      } else {
        assert n * step == step + (n - 1) * step && (n - 1) * step >= 0;
        FoundIs(p, image, step, off + step, n - 1, t);
      }
    }
  }

  lemma {:induction false} OnlyFound(p: T.Codec, image: bytes, step: nat, off: nat, i: nat) returns (n: nat)
    requires step > 0 && i < |FindFrom(p, image, step, off)|
    ensures var found := FindFrom(p, image, step, off);
      && found[i].off == off + n * step <= |image|
      && T.ParseTrailer(p, image[found[i].off..]) == Success(found[i].trailer)
      && (i > 0 ==> found[i - 1].off < found[i].off)
    decreases |image| - off
  {
    hide T.ParseTrailer;
    n := 0;
    var here := if IsTrailerAt(p, image, off) then 1 else 0;
    if i >= here {
      n := OnlyFound(p, image, step, off + step, i - here);
      assert (n + 1) * step == n * step + step;
      n := n + 1;
    }
  }
}
