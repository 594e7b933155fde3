/**
 * The slotted page of heap_storage.cpp: one BLOCK_SZ-byte block holding
 * variable-length records. A directory of 4-byte entries grows forward from
 * byte 0 (entry 0 holds num_records and end_free, entry id holds the size and
 * offset of record id); record bytes grow backward from the end of the block.
 *
 * The page keeps its directory decoded (a sequence of Header values, indexed
 * by record id) beside the block's bytes; the bytes of the directory are
 * produced only when the page is written out as a block image (ImageOf) and
 * decoded when a page is read back (DirectoryOf), in the layout put_header
 * writes.
 */
module SlottedPages {
  import opened Values

  /** DbBlock::BLOCK_SZ */
  const BLOCK_SZ: nat := 4096
  /** Size of the u16 range the directory fields are stored in. */
  const U16: nat := 0x1_0000

  type RecordID = nat
  type BlockID = nat

  /**
   * One directory entry. put_header (heap_storage.cpp:105-112) stores `size`
   * at byte 4*id and `loc` at byte 4*id+2; a deleted record's entry is (0, 0).
   */
  datatype Header = Header(size: nat, loc: nat)

  /** get returns nothing for an entry whose offset is 0 (heap_storage.cpp:36). */
  predicate Live(h: Header) { h.loc != 0 }

  /** The byte ranges of two records do not overlap. */
  predicate Apart(a: Header, b: Header) { a.loc + a.size <= b.loc || b.loc + b.size <= a.loc }

  predicate Disjoint(a: Header, b: Header) { !Live(a) || !Live(b) || Apart(a, b) }

  /** A live record lies after end_free and inside the block; a dead entry is (0, 0). */
  predicate InBlock(h: Header, endFree: nat)
  {
    if Live(h) then endFree < h.loc && h.loc + h.size <= BLOCK_SZ else h == Header(0, 0)
  }

  /**
   * The page invariant, on the decoded directory `hs` (hs[0] is entry 0):
   * entry 0 holds (num_records, end_free); the directory, entries 0 to
   * num_records, ends before byte end_free + 1; every live record lies in
   * (end_free, BLOCK_SZ); and no two live records overlap.
   */
  ghost predicate Layout(hs: seq<Header>, endFree: nat)
  {
    && 1 <= |hs|
    && hs[0] == Header(|hs| - 1, endFree)
    && 4 * |hs| <= endFree + 1
    && endFree < BLOCK_SZ
    && (forall id {:trigger InBlock(hs[id], endFree)} | 1 <= id < |hs| :: InBlock(hs[id], endFree))
    && (forall i, j {:trigger Disjoint(hs[i], hs[j])} | 1 <= i < j < |hs| :: Disjoint(hs[i], hs[j]))
  }

  /** The records a directory and a byte block hold together: id to bytes. */
  ghost function RecordsOf(hs: seq<Header>, bs: seq<byte>): map<RecordID, seq<byte>>
  {
    map id: RecordID | 1 <= id < |hs| && Live(hs[id]) && hs[id].loc + hs[id].size <= |bs|
      :: bs[hs[id].loc .. hs[id].loc + hs[id].size]
  }

  /** memcpy of `data` to offset `loc`. */
  function Write(bs: seq<byte>, loc: nat, data: seq<byte>): (r: seq<byte>)
    requires loc + |data| <= |bs|
    ensures |r| == |bs|
  {
    bs[..loc] + data + bs[loc + |data|..]
  }

  lemma WriteInside(bs: seq<byte>, loc: nat, data: seq<byte>)
    requires loc + |data| <= |bs|
    ensures Write(bs, loc, data)[loc .. loc + |data|] == data
  {
    var r := Write(bs, loc, data);
    assert forall k | 0 <= k < |data| :: r[loc + k] == data[k];
  }

  lemma WriteOutside(bs: seq<byte>, loc: nat, data: seq<byte>, a: nat, b: nat)
    requires loc + |data| <= |bs| && a <= b <= |bs|
    requires b <= loc || loc + |data| <= a
    ensures Write(bs, loc, data)[a..b] == bs[a..b]
  {
    var r := Write(bs, loc, data);
    assert forall k | a <= k < b :: r[k] == bs[k];
  }

  // ---------------------------------------------------------------------
  // Capacity

  /**
   * has_room (heap_storage.cpp:117-120), corrected: the record and one more
   * 4-byte directory entry must fit between the directory (entries 0 to
   * num_records) and end_free, as the comment at lines 114-116 intends.
   */
  predicate RoomFor(numRecords: nat, endFree: nat, size: nat)
  {
    4 * (numRecords + 2) + size <= endFree + 1
  }

  /**
   * has_room as written: `free` is a u16, so a negative difference wraps
   * around, and the entries counted are 0 to num_records, not the new one.
   */
  function HasRoomAsWritten(numRecords: nat, endFree: nat, size: nat): bool
    requires size < U16
  {
    size <= (endFree - 4 * (numRecords + 1)) % U16
  }

  /** Without wrap-around, has_room as written compares size with end_free - 4*(num_records+1). */
  lemma HasRoomAsWrittenNoWrap(numRecords: nat, endFree: nat, size: nat)
    requires size < U16 && 4 * (numRecords + 1) <= endFree < U16
    ensures HasRoomAsWritten(numRecords, endFree, size) <==> size <= endFree - 4 * (numRecords + 1)
  {
  }

  /**
   * Counterexample for has_room as written: a fresh page accepts a 4091-byte
   * record; the add leaves end_free = 4, so the record starts at byte 5 while
   * directory entry 1 occupies bytes 4 to 7; and the page then claims room
   * for 4000 more bytes, because 4 - 8 wraps to 65532. The corrected RoomFor
   * refuses that first record.
   */
  lemma HasRoomAsWrittenOverfills()
    ensures HasRoomAsWritten(0, BLOCK_SZ - 1, 4091)
    ensures !RoomFor(0, BLOCK_SZ - 1, 4091)
    ensures var endFree := BLOCK_SZ - 1 - 4091;
      4 * 2 > endFree + 1 && HasRoomAsWritten(1, endFree, 4000)
  {
  }

  /** Adding a record that RoomFor admits keeps the whole directory, new entry included, before the records. */
  lemma RoomForKeepsDirectoryClear(numRecords: nat, endFree: nat, size: nat)
    requires RoomFor(numRecords, endFree, size)
    ensures size <= endFree
    ensures 4 * (numRecords + 2) <= (endFree - size) + 1
    ensures 4 * (numRecords + 2) <= endFree - size + 1 <= endFree + 1 - size
  {
  }

  /**
   * has_room(extra) as put calls it (heap_storage.cpp:54): the free bytes
   * end_free - 4*(num_records+1) past the directory must cover the growth.
   * put adds no directory entry, so no new entry is counted; this is the
   * written formula without the u16 wrap (see HasRoomAsWrittenNoWrap).
   */
  predicate RoomToGrow(numRecords: nat, endFree: nat, extra: nat)
  {
    4 * (numRecords + 1) + extra <= endFree
  }

  // ---------------------------------------------------------------------
  // The directory codec (put_n/get_n on 2-byte little-endian integers)

  function U16Bytes(v: nat): (r: seq<byte>)
    requires v < U16
    ensures |r| == 2
  {
    [(v % 256) as byte, (v / 256) as byte]
  }

  function U16Of(lo: byte, hi: byte): (v: nat)
    ensures v < U16
  {
    lo as nat + 256 * hi as nat
  }

  ghost predicate Fits(h: Header) { h.size < U16 && h.loc < U16 }

  /** put_header(id, size, loc): size at 4*id, loc at 4*id+2 (heap_storage.cpp:110-111). */
  function HeaderBytes(h: Header): (r: seq<byte>)
    requires Fits(h)
    ensures |r| == 4
  {
    U16Bytes(h.size) + U16Bytes(h.loc)
  }

  /** get_header, reading the fields where put_header writes them. */
  function GetHeader(b: seq<byte>): Header
    requires |b| == 4
  {
    Header(U16Of(b[0], b[1]), U16Of(b[2], b[3]))
  }

  /** get_header as written (heap_storage.cpp:98-101): loc from 4*id, size from 4*id+2. */
  function GetHeaderAsWritten(b: seq<byte>): Header
    requires |b| == 4
  {
    Header(U16Of(b[2], b[3]), U16Of(b[0], b[1]))
  }

  lemma U16RoundTrip(v: nat)
    requires v < U16
    ensures U16Of(U16Bytes(v)[0], U16Bytes(v)[1]) == v
  {
  }

  /** Reading an entry back gives the header that was written. */
  lemma HeaderRoundTrip(h: Header)
    requires Fits(h)
    ensures GetHeader(HeaderBytes(h)) == h
  {
    U16RoundTrip(h.size);
    U16RoundTrip(h.loc);
  }

  /** Counterexample for get_header as written: it swaps the two fields put_header wrote. */
  lemma HeaderFieldOrderSwaps(h: Header)
    requires Fits(h)
    ensures GetHeaderAsWritten(HeaderBytes(h)) == Header(h.loc, h.size)
    ensures h.size != h.loc ==> GetHeaderAsWritten(HeaderBytes(h)) != h
  {
    U16RoundTrip(h.size);
    U16RoundTrip(h.loc);
  }

  ghost predicate AllFit(hs: seq<Header>) { forall i | 0 <= i < |hs| :: Fits(hs[i]) }

  lemma LayoutFits(hs: seq<Header>, endFree: nat)
    requires Layout(hs, endFree)
    ensures AllFit(hs)
  {
    forall i | 0 <= i < |hs| ensures Fits(hs[i]) {
      if i > 0 { assert InBlock(hs[i], endFree); }
    }
  }

  /**
   * The block as it is written out: directory entry i in bytes 4*i to 4*i+3
   * (put_header's layout), the page's own bytes everywhere else.
   */
  function ImageOf(hs: seq<Header>, bs: seq<byte>): (img: seq<byte>)
    requires AllFit(hs) && 4 * |hs| <= |bs|
    ensures |img| == |bs|
  {
    seq(|bs|, k requires 0 <= k < |bs| => if k < 4 * |hs| then HeaderBytes(hs[k / 4])[k % 4] else bs[k])
  }

  /** get_header(size, loc, i) on a block image. */
  function SlotAt(img: seq<byte>, i: nat): Header
    requires 4 * i + 4 <= |img|
  {
    GetHeader(img[4 * i .. 4 * i + 4])
  }

  ghost predicate DirectoryInImage(img: seq<byte>)
  {
    4 <= |img| && 4 * (SlotAt(img, 0).size + 1) <= |img|
  }

  /** The directory of a block image: entry 0 gives num_records, then entries 0 to num_records. */
  function DirectoryOf(img: seq<byte>): (hs: seq<Header>)
    requires DirectoryInImage(img)
    ensures |hs| == SlotAt(img, 0).size + 1
  {
    seq(SlotAt(img, 0).size + 1, i requires 0 <= i <= SlotAt(img, 0).size => SlotAt(img, i))
  }

  /** A block image that holds a well-formed page. */
  ghost predicate ImageLayout(img: seq<byte>)
  {
    && |img| == BLOCK_SZ
    && DirectoryInImage(img)
    && Layout(DirectoryOf(img), SlotAt(img, 0).loc)
  }

  lemma ImageSlot(hs: seq<Header>, bs: seq<byte>, i: nat)
    requires AllFit(hs) && 4 * |hs| <= |bs| && i < |hs|
    ensures ImageOf(hs, bs)[4 * i .. 4 * i + 4] == HeaderBytes(hs[i])
    ensures SlotAt(ImageOf(hs, bs), i) == hs[i]
  {
    var img := ImageOf(hs, bs);
    forall j | 0 <= j < 4 ensures img[4 * i + j] == HeaderBytes(hs[i])[j] {
      assert (4 * i + j) / 4 == i && (4 * i + j) % 4 == j;
    }
    assert img[4 * i .. 4 * i + 4] == HeaderBytes(hs[i]);
    HeaderRoundTrip(hs[i]);
  }

  /**
   * Writing a page out and reading it back gives the same directory and the
   * same records.
   */
  lemma ImageRoundTrip(hs: seq<Header>, endFree: nat, bs: seq<byte>)
    requires Layout(hs, endFree) && |bs| == BLOCK_SZ
    ensures AllFit(hs)
    ensures ImageLayout(ImageOf(hs, bs))
    ensures DirectoryOf(ImageOf(hs, bs)) == hs
    ensures SlotAt(ImageOf(hs, bs), 0) == Header(|hs| - 1, endFree)
    ensures RecordsOf(hs, ImageOf(hs, bs)) == RecordsOf(hs, bs)
  {
    LayoutFits(hs, endFree);
    var img := ImageOf(hs, bs);
    ImageSlot(hs, bs, 0);
    assert DirectoryInImage(img);
    var d := DirectoryOf(img);
    forall i | 0 <= i < |hs| ensures d[i] == hs[i] {
      ImageSlot(hs, bs, i);
    }
    assert d == hs;
    ImageRecords(hs, endFree, bs);
  }

  lemma ImageRecords(hs: seq<Header>, endFree: nat, bs: seq<byte>)
    requires Layout(hs, endFree) && |bs| == BLOCK_SZ && AllFit(hs)
    ensures RecordsOf(hs, ImageOf(hs, bs)) == RecordsOf(hs, bs)
  {
    var img := ImageOf(hs, bs);
    forall id | id in RecordsOf(hs, bs) ensures RecordsOf(hs, img)[id] == RecordsOf(hs, bs)[id] {
      var h := hs[id];
      assert InBlock(h, endFree);
      assert forall k | h.loc <= k < h.loc + h.size :: img[k] == bs[k];
    }
  }

  lemma U16BytesOf(lo: byte, hi: byte)
    ensures U16Bytes(U16Of(lo, hi)) == [lo, hi]
  {
    var v := lo as int + 256 * hi as int;
    assert v % 256 == lo as int && v / 256 == hi as int;
  }

  /** Reading a well-formed block image and writing it out again gives the same bytes. */
  lemma DirectoryRoundTrip(img: seq<byte>)
    requires ImageLayout(img)
    ensures AllFit(DirectoryOf(img))
    ensures ImageOf(DirectoryOf(img), img) == img
  {
    var hs := DirectoryOf(img);
    LayoutFits(hs, SlotAt(img, 0).loc);
    var out := ImageOf(hs, img);
    forall k | 0 <= k < 4 * |hs| ensures out[k] == img[k] {
      var i := k / 4;
      var b := img[4 * i .. 4 * i + 4];
      U16BytesOf(b[0], b[1]);
      U16BytesOf(b[2], b[3]);
      assert HeaderBytes(hs[i]) == b;
    }
    assert out == img;
  }

  // ---------------------------------------------------------------------
  // Listing live ids

  /** The live ids among 1 .. k-1, in increasing order. */
  function LiveIdsBelow(hs: seq<Header>, k: nat): seq<RecordID>
    requires k <= |hs|
  {
    if k <= 1 then [] else LiveIdsBelow(hs, k - 1) + (if Live(hs[k - 1]) then [k - 1] else [])
  }

  /** ids() (heap_storage.cpp:85-95), corrected to cover ids 1 to num_records as its comment says. */
  function LiveIds(hs: seq<Header>): seq<RecordID>
  {
    LiveIdsBelow(hs, |hs|)
  }

  /** ids() as written: the loop runs while i < num_records (heap_storage.cpp:87). */
  function IdsAsWritten(hs: seq<Header>): seq<RecordID>
    requires 1 <= |hs|
  {
    LiveIdsBelow(hs, |hs| - 1)
  }

  ghost predicate Increasing(s: seq<nat>) { forall i, j | 0 <= i < j < |s| :: s[i] < s[j] }

  lemma {:induction false} LiveIdsBelowSpec(hs: seq<Header>, k: nat)
    requires k <= |hs|
    ensures Increasing(LiveIdsBelow(hs, k))
    ensures forall x :: x in LiveIdsBelow(hs, k) <==> 1 <= x < k && Live(hs[x])
  {
    if k > 1 {
      LiveIdsBelowSpec(hs, k - 1);
      var prev := LiveIdsBelow(hs, k - 1);
      if Live(hs[k - 1]) {
        var s := prev + [k - 1];
        forall i, j | 0 <= i < j < |s| ensures s[i] < s[j] {
          if j == |prev| { assert s[i] == prev[i] && prev[i] in prev; }
        }
      }
    }
  }

  /** The listed ids are strictly increasing and are exactly the ids whose entry is live. */
  lemma LiveIdsSpec(hs: seq<Header>)
    ensures Increasing(LiveIds(hs))
    ensures forall x :: x in LiveIds(hs) <==> 1 <= x < |hs| && Live(hs[x])
  {
    LiveIdsBelowSpec(hs, |hs|);
  }

  /** Counterexample for ids as written: the newest record, though live, is not listed. */
  lemma IdsAsWrittenDropsNewest(hs: seq<Header>)
    requires 2 <= |hs| && Live(hs[|hs| - 1])
    ensures |hs| - 1 !in IdsAsWritten(hs)
    ensures |hs| - 1 in LiveIds(hs)
  {
    LiveIdsBelowSpec(hs, |hs| - 1);
    LiveIdsSpec(hs);
  }

  // ---------------------------------------------------------------------
  // Sliding

  /**
   * When slide(start, end) may run: the moved region [end_free+1, start)
   * starts at the records, the region and its destination stay inside the
   * block and clear of the directory, and every live record either lies
   * inside the region or starts at or after both start and end.
   */
  ghost predicate SlideSafe(hs: seq<Header>, endFree: nat, start: nat, end: nat)
  {
    && Layout(hs, endFree)
    && endFree + 1 <= start <= BLOCK_SZ
    && end <= BLOCK_SZ
    && 4 * |hs| <= endFree + 1 + (end - start)
    && forall id {:trigger Clear(hs[id], start, end)} | 1 <= id < |hs| :: Clear(hs[id], start, end)
  }

  /** A live record lies wholly below `start`, or at or above both `start` and `end`. */
  predicate Clear(h: Header, start: nat, end: nat)
  {
    Live(h) ==> h.loc + h.size <= start || (start <= h.loc && end <= h.loc)
  }

  /** A record moves with the slide when its bytes lie in the moved region. */
  predicate MovedBySlide(h: Header, start: nat)
  {
    Live(h) && h.loc + h.size <= start
  }

  ghost function Moved(h: Header, start: nat, shift: int): Header
    requires MovedBySlide(h, start) ==> 0 <= h.loc + shift
  {
    if MovedBySlide(h, start) then Header(h.size, h.loc + shift) else h
  }

  /** The directory after slide(start, end): entry 0 updated, moved records shifted by end - start. */
  ghost function SlidHeaders(hs: seq<Header>, endFree: nat, start: nat, end: nat): (r: seq<Header>)
    requires SlideSafe(hs, endFree, start, end)
    ensures |r| == |hs|
  {
    seq(|hs|, i requires 0 <= i < |hs| =>
      if i == 0 then Header(|hs| - 1, endFree + end - start)
      else (assert InBlock(hs[i], endFree); Moved(hs[i], start, end - start)))
  }

  /** The bytes after slide(start, end): [end_free+1, start) copied to [end_free+1+shift, end). */
  ghost function SlidBytes(bs: seq<byte>, endFree: nat, start: nat, end: nat): (r: seq<byte>)
    requires endFree + 1 <= start <= |bs| && end <= |bs| && 0 <= endFree + 1 + (end - start)
    ensures |r| == |bs|
  {
    seq(|bs|, k requires 0 <= k < |bs| =>
      if endFree + 1 + (end - start) <= k < end then bs[k - (end - start)] else bs[k])
  }

  lemma SlideLayout(hs: seq<Header>, endFree: nat, start: nat, end: nat)
    requires SlideSafe(hs, endFree, start, end)
    ensures Layout(SlidHeaders(hs, endFree, start, end), endFree + end - start)
  {
    var r := SlidHeaders(hs, endFree, start, end);
    var e: nat := endFree + end - start;
    forall id | 1 <= id < |r| ensures InBlock(r[id], e) {
      assert InBlock(hs[id], endFree) && Clear(hs[id], start, end);
    }
    forall i, j | 1 <= i < j < |r| ensures Disjoint(r[i], r[j]) {
      assert InBlock(hs[i], endFree) && InBlock(hs[j], endFree);
      assert Clear(hs[i], start, end) && Clear(hs[j], start, end);
      assert Disjoint(hs[i], hs[j]);
    }
  }

  /** A record keeps its bytes across a slide, wherever the slide puts it. */
  lemma SlideRecord(hs: seq<Header>, endFree: nat, bs: seq<byte>, start: nat, end: nat, id: RecordID)
    requires SlideSafe(hs, endFree, start, end) && |bs| == BLOCK_SZ && 1 <= id < |hs|
    ensures var r := SlidHeaders(hs, endFree, start, end)[id];
      && Live(r) == Live(hs[id])
      && (Live(r) ==>
            && r.size == hs[id].size && r.loc + r.size <= BLOCK_SZ && hs[id].loc + hs[id].size <= BLOCK_SZ
            && SlidBytes(bs, endFree, start, end)[r.loc .. r.loc + r.size] == bs[hs[id].loc .. hs[id].loc + hs[id].size])
  {
    var nb := SlidBytes(bs, endFree, start, end);
    var shift := end - start;
    var h := hs[id];
    assert InBlock(h, endFree) && Clear(h, start, end);
    if MovedBySlide(h, start) {
      assert forall k | h.loc + shift <= k < h.loc + h.size + shift :: nb[k] == bs[k - shift];
      assert nb[h.loc + shift .. h.loc + shift + h.size] == bs[h.loc .. h.loc + h.size];
    } else if Live(h) {
      assert forall k | h.loc <= k < h.loc + h.size :: nb[k] == bs[k];
      assert nb[h.loc .. h.loc + h.size] == bs[h.loc .. h.loc + h.size];
    }
  }

  lemma SlideRecords(hs: seq<Header>, endFree: nat, bs: seq<byte>, start: nat, end: nat)
    requires SlideSafe(hs, endFree, start, end) && |bs| == BLOCK_SZ
    ensures RecordsOf(SlidHeaders(hs, endFree, start, end), SlidBytes(bs, endFree, start, end)) == RecordsOf(hs, bs)
  {
    var m1 := RecordsOf(SlidHeaders(hs, endFree, start, end), SlidBytes(bs, endFree, start, end));
    var m2 := RecordsOf(hs, bs);
    forall id | 1 <= id < |hs| ensures (id in m1 <==> id in m2) && (id in m1 ==> m1[id] == m2[id]) {
      SlideRecord(hs, endFree, bs, start, end, id);
    }
    assert m1.Keys == m2.Keys;
  }

  // ---------------------------------------------------------------------
  // Directory updates at the value level

  /** The directory after add: entry 0 advanced, the new entry just below the old end_free. */
  ghost function Added(hs: seq<Header>, endFree: nat, size: nat): (r: seq<Header>)
    requires 1 <= |hs| && size <= endFree
    ensures |r| == |hs| + 1
  {
    hs[0 := Header(|hs|, endFree - size)] + [Header(size, endFree - size + 1)]
  }

  lemma AddLayout(hs: seq<Header>, endFree: nat, size: nat)
    requires Layout(hs, endFree) && RoomFor(|hs| - 1, endFree, size)
    ensures Layout(Added(hs, endFree, size), endFree - size)
  {
    var e := endFree - size;
    var added := Added(hs, endFree, size);
    forall id | 1 <= id < |added| ensures InBlock(added[id], e) {
      if id < |hs| { assert InBlock(hs[id], endFree); }
    }
    forall i, j | 1 <= i < j < |added| ensures Disjoint(added[i], added[j]) {
      assert InBlock(hs[i], endFree);
      if j < |hs| { assert Disjoint(hs[i], hs[j]); }
    }
  }

  /** One id of the page after add: the new id holds `data`, every other keeps its record. */
  lemma AddedRecord(hs: seq<Header>, endFree: nat, bs: seq<byte>, data: seq<byte>, id: RecordID)
    requires Layout(hs, endFree) && |bs| == BLOCK_SZ && RoomFor(|hs| - 1, endFree, |data|)
    ensures id in RecordsOf(Added(hs, endFree, |data|), Write(bs, endFree - |data| + 1, data))
        <==> id in RecordsOf(hs, bs)[|hs| := data]
    ensures id in RecordsOf(hs, bs)[|hs| := data] ==>
      RecordsOf(Added(hs, endFree, |data|), Write(bs, endFree - |data| + 1, data))[id]
        == RecordsOf(hs, bs)[|hs| := data][id]
  {
    var e := endFree - |data|;
    var added := Added(hs, endFree, |data|);
    if id == |hs| {
      WriteInside(bs, e + 1, data);
    } else if 1 <= id < |hs| {
      assert added[id] == hs[id];
      assert InBlock(hs[id], endFree);
      if Live(hs[id]) {
        WriteOutside(bs, e + 1, data, hs[id].loc, hs[id].loc + hs[id].size);
      }
    }
  }

  lemma AddRecords(hs: seq<Header>, endFree: nat, bs: seq<byte>, data: seq<byte>)
    requires Layout(hs, endFree) && |bs| == BLOCK_SZ && RoomFor(|hs| - 1, endFree, |data|)
    ensures RecordsOf(Added(hs, endFree, |data|), Write(bs, endFree - |data| + 1, data))
         == RecordsOf(hs, bs)[|hs| := data]
  {
    var m1 := RecordsOf(Added(hs, endFree, |data|), Write(bs, endFree - |data| + 1, data));
    var m2 := RecordsOf(hs, bs)[|hs| := data];
    forall id ensures (id in m1 <==> id in m2) && (id in m2 ==> m1[id] == m2[id]) {
      AddedRecord(hs, endFree, bs, data, id);
    }
    assert m1.Keys == m2.Keys;
  }

  /** `h` overlaps no live record of `hs` other than record `id`. */
  ghost predicate ApartFromOthers(h: Header, hs: seq<Header>, id: RecordID)
  {
    forall j {:trigger Apart(h, hs[j])} | 1 <= j < |hs| && j != id && Live(hs[j]) :: Apart(h, hs[j])
  }

  /** Giving record `id` a new place that overlaps no other record, and writing `data` there. */
  lemma ReplaceKeeps(hs: seq<Header>, endFree: nat, bs: seq<byte>, id: RecordID, h: Header, data: seq<byte>)
    requires Layout(hs, endFree) && |bs| == BLOCK_SZ && 1 <= id < |hs|
    requires Live(h) && InBlock(h, endFree) && |data| == h.size
    requires ApartFromOthers(h, hs, id)
    ensures Layout(hs[id := h], endFree)
    ensures RecordsOf(hs[id := h], Write(bs, h.loc, data)) == RecordsOf(hs, bs)[id := data]
  {
    ReplaceLayout(hs, endFree, id, h);
    var m1 := RecordsOf(hs[id := h], Write(bs, h.loc, data));
    var m2 := RecordsOf(hs, bs)[id := data];
    forall j | 1 <= j < |hs| ensures (j in m1 <==> j in m2) && (j in m1 ==> m1[j] == m2[j]) {
      if j == id {
        WriteInside(bs, h.loc, data);
      } else if Live(hs[j]) {
        assert InBlock(hs[j], endFree) && Apart(h, hs[j]);
        WriteOutside(bs, h.loc, data, hs[j].loc, hs[j].loc + hs[j].size);
      }
    }
    assert m1.Keys == m2.Keys;
  }

  lemma ReplaceLayout(hs: seq<Header>, endFree: nat, id: RecordID, h: Header)
    requires Layout(hs, endFree) && 1 <= id < |hs|
    requires Live(h) && InBlock(h, endFree)
    requires ApartFromOthers(h, hs, id)
    ensures Layout(hs[id := h], endFree)
  {
    var r := hs[id := h];
    forall k | 1 <= k < |r| ensures InBlock(r[k], endFree) {
      assert InBlock(hs[k], endFree);
    }
    forall i, j | 1 <= i < j < |r| ensures Disjoint(r[i], r[j]) {
      assert Disjoint(hs[i], hs[j]);
      if i == id { assert Live(hs[j]) ==> Apart(h, hs[j]); }
      if j == id { assert Live(hs[i]) ==> Apart(h, hs[i]); }
    }
  }

  /** Clearing entry `id` to (0, 0) keeps the layout. */
  lemma KillLayout(hs: seq<Header>, endFree: nat, id: RecordID)
    requires Layout(hs, endFree) && 1 <= id < |hs|
    ensures Layout(hs[id := Header(0, 0)], endFree)
  {
    var r := hs[id := Header(0, 0)];
    forall i, j | 1 <= i < j < |r| ensures Disjoint(r[i], r[j]) {
      assert Disjoint(hs[i], hs[j]);
    }
  }

  /** Clearing entry `id` to (0, 0) removes exactly that record. */
  lemma KillKeeps(hs: seq<Header>, endFree: nat, bs: seq<byte>, id: RecordID)
    requires Layout(hs, endFree) && 1 <= id < |hs|
    ensures RecordsOf(hs[id := Header(0, 0)], bs) == RecordsOf(hs, bs) - {id}
  {
    var r := hs[id := Header(0, 0)];
    assert RecordsOf(r, bs).Keys == RecordsOf(hs, bs).Keys - {id};
  }

  /** The records left once del has cleared entry `id` and slid its bytes away. */
  lemma DelRecords(hs: seq<Header>, endFree: nat, bs: seq<byte>, id: RecordID, hs': seq<Header>, bs': seq<byte>)
    requires Layout(hs, endFree) && |bs| == BLOCK_SZ && 1 <= id < |hs|
    requires var h := hs[id];
      if Live(h) && h.size != 0 then
        && SlideSafe(hs[id := Header(0, 0)], endFree, h.loc, h.loc + h.size)
        && hs' == SlidHeaders(hs[id := Header(0, 0)], endFree, h.loc, h.loc + h.size)
        && bs' == SlidBytes(bs, endFree, h.loc, h.loc + h.size)
      else hs' == hs[id := Header(0, 0)] && bs' == bs
    ensures RecordsOf(hs', bs') == RecordsOf(hs, bs) - {id}
  {
    var h := hs[id];
    var cleared := hs[id := Header(0, 0)];
    var left := RecordsOf(cleared, bs);
    KillKeeps(hs, endFree, bs, id);
    if Live(h) && h.size != 0 {
      SlideRecords(cleared, endFree, bs, h.loc, h.loc + h.size);
      assert RecordsOf(hs', bs') == left;
    }
  }

  /** del's effect on a live record: its entry cleared, then slide(loc, loc + size). */
  lemma DelSafe(hs: seq<Header>, endFree: nat, id: RecordID)
    requires Layout(hs, endFree) && 1 <= id < |hs| && Live(hs[id])
    ensures var h := hs[id];
      h.size != 0 ==> SlideSafe(hs[id := Header(0, 0)], endFree, h.loc, h.loc + h.size)
  {
    var h := hs[id];
    assert InBlock(h, endFree);
    KillLayout(hs, endFree, id);
    var r := hs[id := Header(0, 0)];
    forall j | 1 <= j < |r| ensures Clear(r[j], h.loc, h.loc + h.size) {
      if j < id { assert Disjoint(hs[j], h); } else if j > id { assert Disjoint(h, hs[j]); }
    }
  }

  /** The entry of a record that grows by `extra` after the bytes below it slid down by `extra`. */
  lemma GrowSafe(hs: seq<Header>, endFree: nat, id: RecordID, extra: nat)
    requires Layout(hs, endFree) && 1 <= id < |hs| && Live(hs[id]) && 0 < extra
    requires RoomToGrow(|hs| - 1, endFree, extra)
    ensures extra < hs[id].loc && extra <= endFree
    ensures var h := hs[id];
      && SlideSafe(hs, endFree, h.loc, h.loc - extra)
      && var nh := Header(h.size + extra, h.loc - extra);
      && Live(nh) && InBlock(nh, endFree - extra)
      && ApartFromOthers(nh, SlidHeaders(hs, endFree, h.loc, h.loc - extra), id)
  {
    var h := hs[id];
    assert InBlock(h, endFree);
    forall j | 1 <= j < |hs| ensures Clear(hs[j], h.loc, h.loc - extra) {
      if j < id { assert Disjoint(hs[j], h); } else if j > id { assert Disjoint(h, hs[j]); }
    }
    assert SlideSafe(hs, endFree, h.loc, h.loc - extra);
    var r := SlidHeaders(hs, endFree, h.loc, h.loc - extra);
    var nh := Header(h.size + extra, h.loc - extra);
    forall j | 1 <= j < |hs| && j != id && Live(r[j]) ensures Apart(nh, r[j]) {
      assert InBlock(hs[j], endFree);
      if j < id { assert Disjoint(hs[j], h); } else { assert Disjoint(h, hs[j]); }
    }
  }

  /** The entry of a record that shrinks to `size` in place leaves a safe slide(loc + size, loc + old size). */
  lemma ShrinkSafe(hs: seq<Header>, endFree: nat, id: RecordID, size: nat)
    requires Layout(hs, endFree) && 1 <= id < |hs| && Live(hs[id]) && size <= hs[id].size
    ensures InBlock(hs[id], endFree)
    ensures var h := hs[id];
      && var nh := Header(size, h.loc);
      && Live(nh) && InBlock(nh, endFree)
      && ApartFromOthers(nh, hs, id)
      && Layout(hs[id := nh], endFree)
      && (size < h.size ==> SlideSafe(hs[id := nh], endFree, h.loc + size, h.loc + h.size))
  {
    var h := hs[id];
    assert InBlock(h, endFree);
    var nh := Header(size, h.loc);
    forall j | 1 <= j < |hs| && j != id && Live(hs[j]) ensures Apart(nh, hs[j]) {
      if j < id { assert Disjoint(hs[j], h); } else { assert Disjoint(h, hs[j]); }
    }
    ReplaceLayout(hs, endFree, id, nh);
    var r := hs[id := nh];
    forall j | 1 <= j < |r| ensures Clear(r[j], h.loc + size, h.loc + h.size) {
      if j < id { assert Disjoint(hs[j], h); } else if j > id { assert Disjoint(h, hs[j]); }
    }
  }

  /** put's effect on a record that grows: the slide down, then the record rewritten at its new place. */
  lemma GrowKeeps(hs: seq<Header>, endFree: nat, bs: seq<byte>, id: RecordID, data: seq<byte>, hs': seq<Header>, bs': seq<byte>)
    requires Layout(hs, endFree) && |bs| == BLOCK_SZ && 1 <= id < |hs| && Live(hs[id]) && hs[id].size < |data|
    requires RoomToGrow(|hs| - 1, endFree, |data| - hs[id].size) && InBlock(hs[id], endFree)
    requires var h := hs[id];
      var extra := |data| - h.size;
      && SlideSafe(hs, endFree, h.loc, h.loc - extra)
      && hs' == SlidHeaders(hs, endFree, h.loc, h.loc - extra)[id := Header(|data|, h.loc - extra)]
      && bs' == Write(SlidBytes(bs, endFree, h.loc, h.loc - extra), h.loc - extra, data)
    ensures Layout(hs', endFree - (|data| - hs[id].size))
    ensures RecordsOf(hs', bs') == RecordsOf(hs, bs)[id := data]
  {
    var h := hs[id];
    var extra := |data| - h.size;
    GrowSafe(hs, endFree, id, extra);
    SlideLayout(hs, endFree, h.loc, h.loc - extra);
    SlideRecords(hs, endFree, bs, h.loc, h.loc - extra);
    var slid := SlidHeaders(hs, endFree, h.loc, h.loc - extra);
    var slidBytes := SlidBytes(bs, endFree, h.loc, h.loc - extra);
    ReplaceKeeps(slid, endFree - extra, slidBytes, id, Header(|data|, h.loc - extra), data);
  }

  /** put's effect on a record that shrinks or keeps its size: rewritten in place, then the slide up. */
  lemma ShrinkKeeps(hs: seq<Header>, endFree: nat, bs: seq<byte>, id: RecordID, data: seq<byte>, hs': seq<Header>, bs': seq<byte>)
    requires Layout(hs, endFree) && |bs| == BLOCK_SZ && 1 <= id < |hs| && Live(hs[id]) && |data| <= hs[id].size
    requires InBlock(hs[id], endFree)
    requires var h := hs[id];
      var mid := hs[id := Header(|data|, h.loc)];
      var midBytes := Write(bs, h.loc, data);
      if |data| < h.size then
        && SlideSafe(mid, endFree, h.loc + |data|, h.loc + h.size)
        && hs' == SlidHeaders(mid, endFree, h.loc + |data|, h.loc + h.size)
        && bs' == SlidBytes(midBytes, endFree, h.loc + |data|, h.loc + h.size)
      else hs' == mid && bs' == midBytes
    ensures Layout(hs', endFree + (hs[id].size - |data|))
    ensures RecordsOf(hs', bs') == RecordsOf(hs, bs)[id := data]
  {
    var h := hs[id];
    var nh := Header(|data|, h.loc);
    ShrinkSafe(hs, endFree, id, |data|);
    ReplaceKeeps(hs, endFree, bs, id, nh, data);
    if |data| < h.size {
      var mid := hs[id := nh];
      var midBytes := Write(bs, h.loc, data);
      SlideLayout(mid, endFree, h.loc + |data|, h.loc + h.size);
      SlideRecords(mid, endFree, midBytes, h.loc + |data|, h.loc + h.size);
    }
  }

  /**
   * slide's header fix-up loop (heap_storage.cpp:135-141), over the live ids:
   * each record that lies in the moved region is moved by end - start.
   */
  method MoveEntries(hs: seq<Header>, endFree: nat, ids: seq<RecordID>, start: nat, end: nat) returns (dir: seq<Header>)
    requires SlideSafe(hs, endFree, start, end) && ids == LiveIds(hs)
    ensures |dir| == |hs| && dir[0] == hs[0]
    ensures forall j | 1 <= j < |hs| :: dir[j] == SlidHeaders(hs, endFree, start, end)[j]
  {
    LiveIdsSpec(hs);
    var shift := end - start;
    dir := hs;
    var i := 0;
    while i < |ids|
      invariant 0 <= i <= |ids| && |dir| == |hs| && dir[0] == hs[0]
      invariant forall j | 1 <= j < |hs| ::
        dir[j] == if j in ids[..i] then SlidHeaders(hs, endFree, start, end)[j] else hs[j]
    {
      var id := ids[i];
      assert id in ids && id !in ids[..i];
      assert InBlock(hs[id], endFree);
      var h := dir[id];
      if MovedBySlide(h, start) {
        dir := dir[id := Header(h.size, h.loc + shift)];
      }
      assert ids[..i + 1] == ids[..i] + [id];
      i := i + 1;
    }
    assert ids[..i] == ids;
    forall j | 1 <= j < |hs| ensures dir[j] == SlidHeaders(hs, endFree, start, end)[j] {
      assert InBlock(hs[j], endFree);
      assert j in ids <==> Live(hs[j]);
    }
  }

  // ---------------------------------------------------------------------
  // The page

  /**
   * SlottedPage (heap_storage.cpp:6-161). `block` is the page's block of
   * BLOCK_SZ bytes; `headers` is its directory, decoded, with headers[0] the
   * entry for (num_records, end_free).
   */
  class SlottedPage {
    const blockId: BlockID
    const block: array<byte>
    var numRecords: nat
    var endFree: nat
    var headers: seq<Header>

    ghost predicate Valid()
      reads this
    {
      && block.Length == BLOCK_SZ
      && |headers| == numRecords + 1
      && Layout(headers, endFree)
    }

    /** The records the page holds, by id. */
    ghost function Records(): map<RecordID, seq<byte>>
      reads this, block
    {
      RecordsOf(headers, block[..])
    }

    /** The constructor with is_new (heap_storage.cpp:7-10): no records, end_free at the last byte. */
    constructor Fresh(id: BlockID)
      ensures Valid() && fresh(block)
      ensures blockId == id && numRecords == 0 && endFree == BLOCK_SZ - 1
      ensures Records() == map[]
    {
      blockId := id;
      block := new byte[BLOCK_SZ](_ => 0);
      numRecords := 0;
      endFree := BLOCK_SZ - 1;
      headers := [Header(0, BLOCK_SZ - 1)];
    }

    /** The constructor without is_new (heap_storage.cpp:11-13): the directory read from a stored block. */
    constructor Load(id: BlockID, image: seq<byte>)
      requires ImageLayout(image)
      ensures Valid() && fresh(block)
      ensures blockId == id && block[..] == image
      ensures headers == DirectoryOf(image) && endFree == SlotAt(image, 0).loc
      ensures Records() == RecordsOf(DirectoryOf(image), image)
    {
      blockId := id;
      block := new byte[BLOCK_SZ](k requires 0 <= k < BLOCK_SZ => image[k]);
      headers := DirectoryOf(image);
      numRecords := SlotAt(image, 0).size;
      endFree := SlotAt(image, 0).loc;
      new;
      assert block[..] == image;
    }

    /** The block as stored: the directory written over the first 4*(num_records+1) bytes. */
    function Image(): (img: seq<byte>)
      reads this, block
      requires Valid()
      ensures ImageLayout(img)
      ensures DirectoryOf(img) == headers && SlotAt(img, 0) == Header(numRecords, endFree)
      ensures RecordsOf(DirectoryOf(img), img) == Records()
    {
      ImageRoundTrip(headers, endFree, block[..]);
      ImageOf(headers, block[..])
    }

    /** has_room (heap_storage.cpp:117-120), corrected: see RoomFor. */
    function HasRoom(size: nat): (b: bool)
      reads this
      requires Valid()
      ensures b <==> size <= endFree && 4 * (numRecords + 2) <= endFree - size + 1
    {
      RoomFor(numRecords, endFree, size)
    }

    /** memcpy into the block. */
    method WriteBytes(loc: nat, data: seq<byte>)
      requires loc + |data| <= block.Length
      modifies block
      ensures block[..] == Write(old(block[..]), loc, data)
    {
      forall k | 0 <= k < |data| {
        block[loc + k] := data[k];
      }
      assert block[..] == Write(old(block[..]), loc, data);
    }

    /** memmove of the bytes in [from, to) by `shift`: slide's data move, corrected (see SlideBytesAsWritten). */
    method MoveBytes(endFree: nat, start: nat, end: nat)
      requires endFree + 1 <= start <= block.Length && end <= block.Length && 0 <= endFree + 1 + (end - start)
      modifies block
      ensures block[..] == SlidBytes(old(block[..]), endFree, start, end)
    {
      var before := block[..];
      var shift := end - start;
      forall k | endFree + 1 + shift <= k < end {
        block[k] := before[k - shift];
      }
      assert block[..] == SlidBytes(before, endFree, start, end);
    }

    /**
     * add (heap_storage.cpp:17-28): the record takes the next id and the
     * |data| bytes just below end_free; a page without room raises
     * DbBlockNoRoomError and is left as it was.
     */
    method Add(data: seq<byte>) returns (r: Result<RecordID>)
      requires Valid()
      modifies this, block
      ensures Valid()
      ensures r.Failure? <==> !RoomFor(old(numRecords), old(endFree), |data|)
      ensures r.Failure? ==> r.error == DbBlockNoRoomError("not enough room for new record")
      ensures r.Failure? ==> unchanged(this) && unchanged(block)
      ensures r.Success? ==> r.value == numRecords == old(numRecords) + 1
      ensures r.Success? ==> endFree == old(endFree) - |data|
      ensures r.Success? ==> headers[r.value] == Header(|data|, endFree + 1)
      ensures r.Success? ==> block[endFree + 1 .. old(endFree) + 1] == data
      ensures r.Success? ==> Records() == old(Records())[r.value := data]
    {
      if !HasRoom(|data|) {
        return Failure(DbBlockNoRoomError("not enough room for new record"));
      }
      ghost var hs, e, bs := headers, endFree, block[..];
      AddLayout(hs, e, |data|);
      AddRecords(hs, e, bs, data);
      numRecords := numRecords + 1;
      var id := numRecords;
      endFree := endFree - |data|;
      var loc := endFree + 1;
      headers := headers[0 := Header(numRecords, endFree)] + [Header(|data|, loc)];
      assert headers == Added(hs, e, |data|);
      WriteBytes(loc, data);
      WriteInside(bs, loc, data);
      r := Success(id);
    }

    /** get (heap_storage.cpp:33-41): the record's bytes, or nothing for a deleted record. */
    function Get(id: RecordID): (r: Option<seq<byte>>)
      reads this, block
      requires Valid() && 1 <= id <= numRecords
      ensures r.Some? <==> id in Records()
      ensures r.Some? ==> r.value == Records()[id]
    {
      var h := headers[id];
      if h.loc == 0 then None
      else
        assert InBlock(h, endFree);
        Some(block[h.loc .. h.loc + h.size])
    }

    /**
     * ids (heap_storage.cpp:85-95), over ids 1 to num_records: every id
     * whose entry is live, in increasing order.
     */
    method Ids() returns (ids: seq<RecordID>)
      requires Valid()
      ensures ids == LiveIds(headers)
      ensures Increasing(ids)
      ensures forall x :: x in ids <==> 1 <= x <= numRecords && Live(headers[x])
    {
      ids := [];
      for i := 1 to numRecords + 1
        invariant ids == LiveIdsBelow(headers, i)
      {
        if headers[i].loc != 0 {
          ids := ids + [i];
        }
      }
      LiveIdsSpec(headers);
    }

    /**
     * slide (heap_storage.cpp:126-144): the bytes in [end_free+1, start) move
     * by end - start, every record that lies in them moves with them, and
     * end_free moves by the same amount.
     */
    method Slide(start: nat, end: nat)
      requires Valid()
      requires start != end ==> SlideSafe(headers, endFree, start, end)
      modifies this, block
      ensures Valid()
      ensures numRecords == old(numRecords)
      ensures start == end ==> headers == old(headers) && endFree == old(endFree) && block[..] == old(block[..])
      ensures start != end ==> headers == SlidHeaders(old(headers), old(endFree), start, end)
      ensures start != end ==> endFree == old(endFree) + end - start
      ensures start != end ==> block[..] == SlidBytes(old(block[..]), old(endFree), start, end)
    {
      if start == end {
        return;
      }
      ghost var hs, e := headers, endFree;
      assert SlideSafe(hs, e, start, end);
      var shift := end - start;
      MoveBytes(endFree, start, end);
      var ids := Ids();
      var dir := MoveEntries(headers, endFree, ids, start, end);
      endFree := endFree + shift;
      headers := dir[0 := Header(numRecords, endFree)];
      assert headers == SlidHeaders(hs, e, start, end);
      SlideLayout(hs, e, start, end);
    }

    /**
     * del (heap_storage.cpp:72-78): the entry becomes (0, 0) and the record's
     * bytes are closed up by sliding everything below them up by its size.
     */
    method Del(id: RecordID)
      requires Valid() && 1 <= id <= numRecords
      modifies this, block
      ensures Valid()
      ensures numRecords == old(numRecords)
      ensures headers[id] == Header(0, 0)
      ensures endFree == old(endFree) + old(headers[id].size)
      ensures Records() == old(Records()) - {id}
    {
      var h := headers[id];
      ghost var hs, e, bs := headers, endFree, block[..];
      assert InBlock(h, e);
      KillLayout(hs, e, id);
      headers := headers[id := Header(0, 0)];
      if Live(h) && h.size != 0 {
        DelSafe(hs, e, id);
      }
      Slide(h.loc, h.loc + h.size);
      DelRecords(hs, e, bs, id, headers, block[..]);
    }

    /**
     * put (heap_storage.cpp:48-68), with the corrections described at
     * PutEntryAsWritten and GrowSlideAsWritten: a record that grows by
     * `extra` bytes moves down by `extra` after the bytes below it slide down
     * to make the gap; one that shrinks is rewritten in place and the bytes
     * below it slide up to close the gap. Growing beyond the room
     * has_room(extra) grants (RoomToGrow) raises DbBlockNoRoomError and
     * leaves the page as it was. On the shrinking path the entry gets its
     * new size before the slide, whereas the source rewrites it after the
     * slide (lines 66-67): the corrected test of which records the slide
     * moves (MovedBySlide) looks at the record's end, so the entry must
     * already end where the new bytes end.
     */
    method Put(id: RecordID, data: seq<byte>) returns (r: Outcome)
      requires Valid() && 1 <= id <= numRecords && Live(headers[id])
      modifies this, block
      ensures Valid()
      ensures numRecords == old(numRecords)
      ensures r.Fail? <==> |data| > old(headers[id].size) && !RoomToGrow(old(numRecords), old(endFree), |data| - old(headers[id].size))
      ensures r.Fail? ==> r.error == DbBlockNoRoomError("Block is full!")
      ensures r.Fail? ==> unchanged(this) && unchanged(block)
      ensures r.Pass? ==> endFree + |data| == old(endFree) + old(headers[id].size)
      ensures r.Pass? ==> Records() == old(Records())[id := data]
    {
      var h := headers[id];
      if |data| > h.size {
        if !RoomToGrow(numRecords, endFree, |data| - h.size) {
          return Fail(DbBlockNoRoomError("Block is full!"));
        }
        Grow(id, data);
      } else {
        Shrink(id, data);
      }
      r := Pass;
    }

    /** put's growing path: the bytes below the record slide down by the growth, then the record is written at its new place. */
    method Grow(id: RecordID, data: seq<byte>)
      requires Valid() && 1 <= id <= numRecords && Live(headers[id]) && headers[id].size < |data|
      requires RoomToGrow(numRecords, endFree, |data| - headers[id].size)
      modifies this, block
      ensures Valid() && numRecords == old(numRecords)
      ensures endFree + |data| == old(endFree) + old(headers[id].size)
      ensures Records() == old(Records())[id := data]
    {
      var h := headers[id];
      ghost var hs, e, bs := headers, endFree, block[..];
      assert InBlock(h, e);
      var extra := |data| - h.size;
      GrowSafe(hs, e, id, extra);
      Slide(h.loc, h.loc - extra);
      ghost var slid := block[..];
      WriteBytes(h.loc - extra, data);
      headers := headers[id := Header(|data|, h.loc - extra)];
      assert block[..] == Write(slid, h.loc - extra, data);
      GrowKeeps(hs, e, bs, id, data, headers, block[..]);
    }

    /** put's path for a record that does not grow: rewritten in place, then the bytes below it slide up to close the gap. */
    method Shrink(id: RecordID, data: seq<byte>)
      requires Valid() && 1 <= id <= numRecords && Live(headers[id]) && |data| <= headers[id].size
      modifies this, block
      ensures Valid() && numRecords == old(numRecords)
      ensures endFree + |data| == old(endFree) + old(headers[id].size)
      ensures Records() == old(Records())[id := data]
    {
      var h := headers[id];
      ghost var hs, e, bs := headers, endFree, block[..];
      assert InBlock(h, e);
      ShrinkSafe(hs, e, id, |data|);
      WriteBytes(h.loc, data);
      headers := headers[id := Header(|data|, h.loc)];
      ghost var written := block[..];
      assert written == Write(bs, h.loc, data);
      Slide(h.loc + |data|, h.loc + h.size);
      ShrinkKeeps(hs, e, bs, id, data, headers, block[..]);
    }
  }

  // ---------------------------------------------------------------------
  // put and slide as written

  /**
   * The entry put leaves for the record, as written (heap_storage.cpp:66-67):
   * it re-reads the entry after the memcpy and the slide and writes it back
   * unchanged, so the entry keeps the old size whatever the new data's size.
   */
  function PutEntryAsWritten(afterSlide: Header, newSize: nat): Header
  {
    afterSlide
  }

  /**
   * Counterexample for put as written: after shrinking a 5-byte record to 3
   * bytes, a later get returns 5 bytes; the corrected Put records 3.
   */
  lemma PutEntryAsWrittenKeepsOldSize()
    ensures var e := PutEntryAsWritten(Header(5, 4091), 3);
      e.size == 5 && e.size != 3
  {
  }

  /** The slide arguments put passes when the record grows, as written (heap_storage.cpp:55). */
  function GrowSlideArgsAsWritten(h: Header, newSize: nat): (r: (nat, nat))
    ensures r.0 >= r.1 <==> newSize >= h.size
  {
    (h.loc + newSize, h.loc + h.size)
  }

  /**
   * Counterexample for put's grow path as written: record 1 holds 3 bytes
   * at 4093 and record 2 holds 2 bytes at 4091 (end_free 4090). Growing
   * record 2 to 4 bytes calls slide(4095, 4093), whose region
   * [end_free + 1, 4095) cuts through record 1's bytes [4093, 4096); the
   * corrected Put calls slide(4091, 4089), which moves record 2 alone.
   */
  lemma GrowSlideAsWrittenUnsafe()
    ensures var hs := [Header(2, 4090), Header(3, 4093), Header(2, 4091)];
      && Layout(hs, 4090)
      && RoomToGrow(2, 4090, 2)
      && GrowSlideArgsAsWritten(hs[2], 4) == (4095, 4093)
      && !SlideSafe(hs, 4090, 4095, 4093)
      && SlideSafe(hs, 4090, 4091, 4089)
  {
    var hs := [Header(2, 4090), Header(3, 4093), Header(2, 4091)];
    assert InBlock(hs[1], 4090) && InBlock(hs[2], 4090);
    assert Disjoint(hs[1], hs[2]);
    assert !Clear(hs[1], 4095, 4093);
    assert Clear(hs[1], 4091, 4089) && Clear(hs[2], 4091, 4089);
  }

  /**
   * slide's data move as written (heap_storage.cpp:131), for a slide up
   * (shift > 0): `shift` bytes copied from end_free + 1 + shift down to
   * end_free + 1, rather than [end_free + 1, start) moved up by shift.
   */
  function SlideBytesAsWritten(bs: seq<byte>, endFree: nat, shift: nat): (r: seq<byte>)
    requires endFree + 1 + 2 * shift <= |bs|
    ensures |r| == |bs|
    ensures forall k | endFree + 1 + shift <= k < |bs| :: r[k] == bs[k]
  {
    Write(bs, endFree + 1, bs[endFree + 1 + shift .. endFree + 1 + 2 * shift])
  }

  /**
   * Counterexample for slide's data move as written: with record 1 of two
   * bytes at 4094 and record 2 of two bytes at 4092 (end_free 4091), del(1)
   * slides (4094, 4096). The corrected move carries record 2's bytes to
   * 4094; as written the bytes at 4094 stay record 1's, so the moved entry
   * for record 2 points at the deleted record's bytes.
   */
  lemma SlideBytesAsWrittenLosesRecord(bs: seq<byte>)
    requires |bs| == BLOCK_SZ && bs[4092..4094] != bs[4094..4096]
    ensures var cleared := [Header(2, 4091), Header(0, 0), Header(2, 4092)];
      && SlideSafe(cleared, 4091, 4094, 4096)
      && SlidHeaders(cleared, 4091, 4094, 4096)[2] == Header(2, 4094)
      && SlidBytes(bs, 4091, 4094, 4096)[4094..4096] == bs[4092..4094]
      && SlideBytesAsWritten(bs, 4091, 2)[4094..4096] != bs[4092..4094]
  {
    var cleared := [Header(2, 4091), Header(0, 0), Header(2, 4092)];
    assert InBlock(cleared[1], 4091) && InBlock(cleared[2], 4091);
    assert Clear(cleared[1], 4094, 4096) && Clear(cleared[2], 4094, 4096);
    assert SlideSafe(cleared, 4091, 4094, 4096);
    var nb := SlidBytes(bs, 4091, 4094, 4096);
    assert nb[4094..4096] == bs[4092..4094];
    var aw := SlideBytesAsWritten(bs, 4091, 2);
    assert aw[4094..4096] == bs[4094..4096];
  }

  /** slide's test for moving a record, as written (heap_storage.cpp:137). */
  predicate MovedAsWritten(h: Header, start: nat)
  {
    Live(h) && h.loc <= start
  }

  /** The corrected test implies the written one; they differ only for a nonempty record starting at `start`. */
  lemma MovedAsWrittenDiffers(h: Header, start: nat)
    ensures MovedBySlide(h, start) ==> MovedAsWritten(h, start)
    ensures MovedAsWritten(h, start) && !MovedBySlide(h, start) <==> Live(h) && h.loc <= start < h.loc + h.size
  {
  }

  /**
   * Counterexample for slide's test as written: after add of 3 bytes and add
   * of 0 bytes, record 1 holds [4093, 4096) and the empty record 2 sits at
   * 4093; growing record 2 to 5 bytes slides (4093, 4088).
   * Record 1 starts at 4093, so the written test moves it to 4088, onto the
   * bytes [4088, 4093) the grown record 2 is about to take; the corrected
   * test leaves it where it is.
   */
  lemma MovedAsWrittenOverlaps()
    ensures var hs := [Header(2, 4092), Header(3, 4093), Header(0, 4093)];
      && SlideSafe(hs, 4092, 4093, 4088)
      && MovedAsWritten(hs[1], 4093)
      && !Apart(Header(3, 4088), Header(5, 4088))
      && SlidHeaders(hs, 4092, 4093, 4088)[1] == Header(3, 4093)
      && Apart(SlidHeaders(hs, 4092, 4093, 4088)[1], Header(5, 4088))
  {
    var hs := [Header(2, 4092), Header(3, 4093), Header(0, 4093)];
    assert InBlock(hs[1], 4092) && InBlock(hs[2], 4092);
    assert Disjoint(hs[1], hs[2]);
    assert Clear(hs[1], 4093, 4088) && Clear(hs[2], 4093, 4088);
  }
}
