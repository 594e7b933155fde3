/**
 * HeapTable of heap_storage.cpp: a relation stored in a HeapFile. The model
 * covers the two operations with bodies, `select` (every live record of every
 * block, as a handle) and `marshal` (a row laid out column by column).
 */
module HeapTables {
  import opened Values
  import opened SlottedPages
  import opened HeapFiles

  /** A record's address: its block and its id within the block. */
  datatype Handle = Handle(blockId: BlockID, recordId: RecordID)

  // ---------------------------------------------------------------------
  // Select

  /** The handles of one block's records with the given ids, in the same order. */
  function BlockHandles(blockId: BlockID, ids: seq<RecordID>): (r: seq<Handle>)
    ensures |r| == |ids|
    ensures forall i | 0 <= i < |ids| :: r[i] == Handle(blockId, ids[i])
  {
    seq(|ids|, i requires 0 <= i < |ids| => Handle(blockId, ids[i]))
  }

  /** The handles of blocks 1 to n, where idss[k] lists the record ids of block k + 1. */
  function Handles(idss: seq<seq<RecordID>>, n: nat): (r: seq<Handle>)
    requires n <= |idss|
  {
    if n == 0 then [] else Handles(idss, n - 1) + BlockHandles(n, idss[n - 1])
  }

  /** The live ids a stored block's directory lists (none if the image has no room for it). */
  ghost function ImageIds(img: seq<byte>): seq<RecordID>
  {
    if DirectoryInImage(img) then LiveIds(DirectoryOf(img)) else []
  }

  /** The live ids of each stored block, block 1 first. */
  ghost function StoredIds(blocks: map<BlockID, seq<byte>>, last: nat): (idss: seq<seq<RecordID>>)
    requires forall b | 1 <= b <= last :: b in blocks
    ensures |idss| == last
  {
    seq(last, k requires 0 <= k < last => ImageIds(blocks[k + 1]))
  }

  /** Block b's entry of the stored ids. */
  lemma StoredIdsElement(blocks: map<BlockID, seq<byte>>, last: nat, b: BlockID)
    requires forall k | 1 <= k <= last :: k in blocks
    requires 1 <= b <= last
    ensures StoredIds(blocks, last)[b - 1] == ImageIds(blocks[b])
  {
  }

  /** The ids listed for block b are the live ids of the directory read from it. */
  lemma StoredIdsAt(blocks: map<BlockID, seq<byte>>, last: nat, b: BlockID, headers: seq<Header>)
    requires BlocksValid(blocks, last) && 1 <= b <= last
    requires DirectoryInImage(blocks[b]) && headers == DirectoryOf(blocks[b])
    ensures StoredIds(blocks, last)[b - 1] == LiveIds(headers)
  {
  }

  /** Block order first, then record order within a block. */
  predicate Precedes(a: Handle, b: Handle)
  {
    a.blockId < b.blockId || (a.blockId == b.blockId && a.recordId < b.recordId)
  }

  ghost predicate Ordered(hs: seq<Handle>)
  {
    forall i, j | 0 <= i < j < |hs| :: Precedes(hs[i], hs[j])
  }

  /** One block's handles, for increasing ids: that block with each of the ids, in order. */
  lemma BlockHandlesSpec(blockId: BlockID, ids: seq<RecordID>)
    requires Increasing(ids)
    ensures forall h :: h in BlockHandles(blockId, ids) <==> h.blockId == blockId && h.recordId in ids
    ensures Ordered(BlockHandles(blockId, ids))
  {
    var r := BlockHandles(blockId, ids);
    forall h: Handle | h.blockId == blockId && h.recordId in ids ensures h in r {
      var i :| 0 <= i < |ids| && ids[i] == h.recordId;
      assert r[i] == h;
    }
  }

  /** Handles of earlier blocks followed by one later block's handles stay ordered. */
  lemma OrderedConcat(a: seq<Handle>, b: seq<Handle>, n: BlockID)
    requires Ordered(a) && Ordered(b)
    requires forall h | h in a :: h.blockId < n
    requires forall h | h in b :: h.blockId == n
    ensures Ordered(a + b)
  {
    var s := a + b;
    forall i, j | 0 <= i < j < |s| ensures Precedes(s[i], s[j]) {
      if i < |a| && j >= |a| {
        assert s[i] in a && s[j] in b;
      }
    }
  }

  /**
   * The handles of blocks 1 to n are exactly the pairs of such a block and an
   * id listed for it, and they come in block order, then record order.
   */
  lemma {:induction false} HandlesSpec(idss: seq<seq<RecordID>>, n: nat)
    requires n <= |idss|
    requires forall k | 0 <= k < |idss| :: Increasing(idss[k])
    ensures forall h :: h in Handles(idss, n) <==> 1 <= h.blockId <= n && h.recordId in idss[h.blockId - 1]
    ensures Ordered(Handles(idss, n))
  {
    if n > 0 {
      HandlesSpec(idss, n - 1);
      BlockHandlesSpec(n, idss[n - 1]);
      OrderedConcat(Handles(idss, n - 1), BlockHandles(n, idss[n - 1]), n);
    }
  }

  /** The ids listed for a block are increasing. */
  lemma ImageIdsIncreasing(img: seq<byte>)
    ensures Increasing(ImageIds(img))
  {
    if DirectoryInImage(img) {
      LiveIdsSpec(DirectoryOf(img));
    }
  }

  /** The records a stored block holds, by id (none if the image has no room for a directory). */
  ghost function BlockRecords(img: seq<byte>): map<RecordID, seq<byte>>
  {
    if DirectoryInImage(img) then RecordsOf(DirectoryOf(img), img) else map[]
  }

  /** `ids` lists exactly the ids in `held`, in increasing order. */
  ghost predicate ListsHeld(ids: seq<RecordID>, held: set<RecordID>)
  {
    Increasing(ids) && forall x :: x in ids <==> x in held
  }

  /**
   * When idss[b - 1] lists exactly the ids held[b] of block b, the handles
   * name exactly the held ids, ordered.
   */
  lemma HandlesAreHeld(idss: seq<seq<RecordID>>, held: map<BlockID, set<RecordID>>)
    requires forall b :: b in held <==> 1 <= b <= |idss|
    requires forall b | b in held :: ListsHeld(idss[b - 1], held[b])
    ensures forall h :: h in Handles(idss, |idss|) <==> h.blockId in held && h.recordId in held[h.blockId]
    ensures Ordered(Handles(idss, |idss|))
  {
    forall k | 0 <= k < |idss| ensures Increasing(idss[k]) {
      assert ListsHeld(idss[k], held[k + 1]);
    }
    HandlesSpec(idss, |idss|);
    HeldMembers(idss, held, Handles(idss, |idss|));
  }

  /** A list of handles naming exactly the listed ids of blocks 1 to |idss| names exactly the held ids. */
  lemma HeldMembers(idss: seq<seq<RecordID>>, held: map<BlockID, set<RecordID>>, all: seq<Handle>)
    requires forall b :: b in held <==> 1 <= b <= |idss|
    requires forall b | b in held :: ListsHeld(idss[b - 1], held[b])
    requires forall h :: h in all <==> 1 <= h.blockId <= |idss| && h.recordId in idss[h.blockId - 1]
    ensures forall h :: h in all <==> h.blockId in held && h.recordId in held[h.blockId]
  {
    forall h: Handle ensures h in all <==> h.blockId in held && h.recordId in held[h.blockId] {
      if h.blockId in held {
        assert ListsHeld(idss[h.blockId - 1], held[h.blockId]);
      }
    }
  }

  /**
   * When each block 1 to last lists, in increasing order, exactly the ids of
   * the records it holds, the handles name exactly those records, ordered.
   */
  lemma StoredHandles(blocks: map<BlockID, seq<byte>>, last: nat)
    requires forall b :: b in blocks <==> 1 <= b <= last
    requires forall b | 1 <= b <= last :: ListsHeld(ImageIds(blocks[b]), BlockRecords(blocks[b]).Keys)
    ensures forall h :: h in Handles(StoredIds(blocks, last), last) <==>
      h.blockId in blocks && h.recordId in BlockRecords(blocks[h.blockId])
    ensures Ordered(Handles(StoredIds(blocks, last), last))
  {
    var idss := StoredIds(blocks, last);
    var held := map b | b in blocks :: BlockRecords(blocks[b]).Keys;
    forall b | b in held ensures ListsHeld(idss[b - 1], held[b]) {
      StoredIdsElement(blocks, last, b);
    }
    HandlesAreHeld(idss, held);
  }

  /**
   * In a file of well-formed blocks, select's handles name exactly the records
   * the blocks hold, in block order, then record order.
   */
  lemma FileHandlesAreRecords(blocks: map<BlockID, seq<byte>>, last: nat)
    requires BlocksValid(blocks, last)
    ensures forall h :: h in Handles(StoredIds(blocks, last), last) <==>
      h.blockId in blocks && h.recordId in BlockRecords(blocks[h.blockId])
    ensures Ordered(Handles(StoredIds(blocks, last), last))
  {
    forall b | 1 <= b <= last ensures ListsHeld(ImageIds(blocks[b]), BlockRecords(blocks[b]).Keys) {
      ImageIdsAreRecords(blocks[b]);
    }
    StoredHandles(blocks, last);
  }

  /** A directory with no live entry below k lists no ids below k. */
  lemma {:induction false} NoLiveNoIds(hs: seq<Header>, k: nat)
    requires k <= |hs|
    requires forall i | 1 <= i < k :: !Live(hs[i])
    ensures LiveIdsBelow(hs, k) == []
  {
    if k > 1 {
      NoLiveNoIds(hs, k - 1);
    }
  }

  /** A file whose one block holds no records, as create leaves it, has no handles to select. */
  lemma EmptyFileHandles(blocks: map<BlockID, seq<byte>>)
    requires BlocksValid(blocks, 1)
    requires RecordsOf(DirectoryOf(blocks[1]), blocks[1]) == map[]
    ensures Handles(StoredIds(blocks, 1), 1) == []
  {
    var img := blocks[1];
    assert ImageLayout(img);
    var hs := DirectoryOf(img);
    forall i | 1 <= i < |hs| ensures !Live(hs[i]) {
      assert InBlock(hs[i], SlotAt(img, 0).loc);
      assert i !in RecordsOf(hs, img);
    }
    NoLiveNoIds(hs, |hs|);
    StoredIdsElement(blocks, 1, 1);
    assert BlockHandles(1, []) == [];
  }

  /** In a stored block, the live ids are the ids of the records it holds. */
  lemma ImageIdsAreRecords(img: seq<byte>)
    requires ImageLayout(img)
    ensures Increasing(ImageIds(img))
    ensures forall x :: x in ImageIds(img) <==> x in BlockRecords(img)
  {
    ImageIdsIncreasing(img);
    LiveIdsAreRecords(DirectoryOf(img), SlotAt(img, 0).loc, img);
  }

  /** In a well-formed page, the live ids are the ids of the records it holds. */
  lemma LiveIdsAreRecords(hs: seq<Header>, endFree: nat, bs: seq<byte>)
    requires Layout(hs, endFree) && |bs| == BLOCK_SZ
    ensures forall x :: x in LiveIds(hs) <==> x in RecordsOf(hs, bs)
  {
    LiveIdsSpec(hs);
    forall x | 1 <= x < |hs| && Live(hs[x]) ensures hs[x].loc + hs[x].size <= |bs| {
      assert InBlock(hs[x], endFree);
    }
  }

  // ---------------------------------------------------------------------
  // Marshal: the row layout

  /** *(int32_t*) store: four bytes of two's complement, least significant first. */
  function Int32Bytes(n: int32): (r: seq<byte>)
    ensures |r| == 4
  {
    var u := n as int % 0x1_0000_0000;
    [(u % 0x100) as byte, (u / 0x100 % 0x100) as byte,
     (u / 0x100 / 0x100 % 0x100) as byte, (u / 0x100 / 0x100 / 0x100 % 0x100) as byte]
  }

  /** The int32_t the four bytes hold. */
  function Int32Of(b: seq<byte>): int32
    requires |b| == 4
  {
    var u := b[0] as int + 0x100 * (b[1] as int + 0x100 * (b[2] as int + 0x100 * b[3] as int));
    (if u < 0x8000_0000 then u else u - 0x1_0000_0000) as int32
  }

  lemma Int32RoundTrip(n: int32)
    ensures Int32Of(Int32Bytes(n)) == n
  {
    var u := n as int % 0x1_0000_0000;
    var q1 := u / 0x100;
    var q2 := q1 / 0x100;
    var q3 := q2 / 0x100;
    assert u == u % 0x100 + 0x100 * q1;
    assert q1 == q1 % 0x100 + 0x100 * q2;
    assert q2 == q2 % 0x100 + 0x100 * q3;
    assert q3 < 0x100;
    var b := Int32Bytes(n);
    assert b[0] as int == u % 0x100 && b[1] as int == q1 % 0x100;
    assert b[2] as int == q2 % 0x100 && b[3] as int == q3;
    assert b[0] as int + 0x100 * (b[1] as int + 0x100 * (b[2] as int + 0x100 * b[3] as int)) == u;
  }

  /** memcpy of the string's bytes: each character is taken as one byte (its low 8 bits). */
  function TextBytes(s: string): (r: seq<byte>)
    ensures |r| == |s|
  {
    seq(|s|, i requires 0 <= i < |s| => (s[i] as int % 0x100) as byte)
  }

  function TextOf(b: seq<byte>): (s: string)
    ensures |s| == |b|
  {
    seq(|b|, i requires 0 <= i < |b| => (b[i] as int) as char)
  }

  /** A string marshal can store without loss: under 65536 characters, each one byte wide. */
  ghost predicate ByteText(s: string)
  {
    |s| < U16 && forall k | 0 <= k < |s| :: s[k] as int < 0x100
  }

  lemma TextRoundTrip(s: string)
    requires ByteText(s)
    ensures TextOf(TextBytes(s)) == s
  {
  }

  /** The types marshal can lay out. */
  predicate Marshallable(t: DataType) { t == INT || t == TEXT }

  const MarshalError := DbRelationError("Only know how to marshal INT and TEXT")

  /**
   * One column's bytes: an INT as its 4 bytes, a TEXT as a 2-byte length (the
   * length stored into a u16, so truncated) followed by its bytes.
   */
  function FieldBytes(t: DataType, v: Value): (r: Option<seq<byte>>)
    ensures r.Some? <==> Marshallable(t)
  {
    match t
    case INT => Some(Int32Bytes(v.n))
    case TEXT => Some(U16Bytes(|v.s| % U16) + TextBytes(v.s))
    case BOOLEAN => None
  }

  /** The space a column takes in the row. */
  function FieldSize(t: DataType, v: Value): nat
  {
    match t
    case INT => 4
    case TEXT => 2 + |v.s|
    case BOOLEAN => 0
  }

  /** The sum of the columns' sizes. */
  function RowSize(ts: seq<DataType>, vs: seq<Value>): nat
    requires |ts| == |vs|
  {
    if |ts| == 0 then 0 else FieldSize(ts[0], vs[0]) + RowSize(ts[1..], vs[1..])
  }

  /**
   * The marshalled row: the columns' bytes in schema order, or the error for
   * the first column whose type is neither INT nor TEXT.
   */
  function Encoding(ts: seq<DataType>, vs: seq<Value>): (r: Result<seq<byte>>)
    requires |ts| == |vs|
    ensures r.Failure? ==> r.error == MarshalError
    ensures r.Success? ==> |r.value| == RowSize(ts, vs)
  {
    if |ts| == 0 then Success([])
    else match FieldBytes(ts[0], vs[0])
      case None => Failure(MarshalError)
      case Some(f) =>
        match Encoding(ts[1..], vs[1..])
        case Failure(e) => Failure(e)
        case Success(rest) => Success(f + rest)
  }

  /** Marshal fails exactly when some column has a type other than INT and TEXT. */
  lemma {:induction false} EncodingFails(ts: seq<DataType>, vs: seq<Value>)
    requires |ts| == |vs|
    ensures Encoding(ts, vs).Failure? <==> exists i | 0 <= i < |ts| :: !Marshallable(ts[i])
  {
    if |ts| > 0 {
      EncodingFails(ts[1..], vs[1..]);
      if exists j | 0 <= j < |ts| - 1 :: !Marshallable(ts[1..][j]) {
        var j :| 0 <= j < |ts| - 1 && !Marshallable(ts[1..][j]);
        assert !Marshallable(ts[j + 1]);
      }
      if exists i | 0 <= i < |ts| :: !Marshallable(ts[i]) {
        var i :| 0 <= i < |ts| && !Marshallable(ts[i]);
        if i > 0 {
          assert !Marshallable(ts[1..][i - 1]);
        }
      }
    }
  }

  /** Encoding one more column at the end: the loop step of marshal. */
  lemma {:induction false} EncodingSnoc(ts: seq<DataType>, vs: seq<Value>, t: DataType, v: Value)
    requires |ts| == |vs|
    requires Encoding(ts, vs).Success? && Marshallable(t)
    ensures Encoding(ts + [t], vs + [v]) == Success(Encoding(ts, vs).value + FieldBytes(t, v).value)
  {
    if |ts| == 0 {
      assert (ts + [t])[1..] == ts && (vs + [v])[1..] == vs;
      assert FieldBytes(t, v).value + [] == [] + FieldBytes(t, v).value;
    } else {
      assert (ts + [t])[1..] == ts[1..] + [t] && (vs + [v])[1..] == vs[1..] + [v];
      EncodingSnoc(ts[1..], vs[1..], t, v);
      var f0 := FieldBytes(ts[0], vs[0]).value;
      var rest := Encoding(ts[1..], vs[1..]).value;
      Associative(f0, rest, FieldBytes(t, v).value);
    }
  }

  lemma Associative(a: seq<byte>, b: seq<byte>, c: seq<byte>)
    ensures a + (b + c) == (a + b) + c
  {
  }

  /** The first k columns, if marshal lays them out without failing, fit in one block. */
  ghost predicate PrefixFits(ts: seq<DataType>, vs: seq<Value>, k: nat)
    requires k <= |ts| == |vs|
  {
    Encoding(ts[..k], vs[..k]).Success? ==> |Encoding(ts[..k], vs[..k]).value| <= BLOCK_SZ
  }

  /** Every prefix that marshal fills without failing fits in one block. */
  ghost predicate RowFits(ts: seq<DataType>, vs: seq<Value>)
    requires |ts| == |vs|
  {
    forall k | 0 <= k <= |ts| :: PrefixFits(ts, vs, k)
  }

  /** One step of marshal: the next column fits, and the prefix grows by its bytes. */
  lemma MarshalStep(ts: seq<DataType>, vs: seq<Value>, i: nat, before: seq<byte>)
    requires |ts| == |vs| && i < |ts| && RowFits(ts, vs) && Marshallable(ts[i])
    requires Encoding(ts[..i], vs[..i]) == Success(before)
    ensures |before| + |FieldBytes(ts[i], vs[i]).value| <= BLOCK_SZ
    ensures Encoding(ts[..i + 1], vs[..i + 1]) == Success(before + FieldBytes(ts[i], vs[i]).value)
  {
    EncodingSnoc(ts[..i], vs[..i], ts[i], vs[i]);
    assert ts[..i + 1] == ts[..i] + [ts[i]] && vs[..i + 1] == vs[..i] + [vs[i]];
    assert PrefixFits(ts, vs, i + 1);
  }

  /** A column marshal cannot lay out makes the whole row fail. */
  lemma MarshalStops(ts: seq<DataType>, vs: seq<Value>, i: nat)
    requires |ts| == |vs| && i < |ts| && !Marshallable(ts[i])
    ensures Encoding(ts, vs) == Failure(MarshalError)
  {
    EncodingFails(ts, vs);
  }

  // ---------------------------------------------------------------------
  // Reading a row back: an independent reading of the layout

  /** The values laid out in `b` for columns of types `ts`, if `b` is exactly such a layout. */
  function DecodeFields(ts: seq<DataType>, b: seq<byte>): Option<seq<Value>>
    decreases |ts|
  {
    if |ts| == 0 then (if |b| == 0 then Some([]) else None)
    else match ts[0]
      case INT =>
        if |b| < 4 then None
        else (match DecodeFields(ts[1..], b[4..])
          case None => None
          case Some(rest) => Some([IntValue(Int32Of(b[..4]))] + rest))
      case TEXT =>
        if |b| < 2 || |b| < 2 + U16Of(b[0], b[1]) then None
        else
          var n := U16Of(b[0], b[1]);
          (match DecodeFields(ts[1..], b[2 + n..])
            case None => None
            case Some(rest) => Some([TextValue(TextOf(b[2..2 + n]))] + rest))
      case BOOLEAN => None
  }

  /** Every TEXT value of the row can be stored without loss. */
  ghost predicate TextsFit(ts: seq<DataType>, vs: seq<Value>)
    requires |ts| == |vs|
  {
    forall i | 0 <= i < |ts| :: ts[i] == TEXT ==> ByteText(vs[i].s)
  }

  /** What a column's value is once stored: the payload its type selects. */
  function Stored(t: DataType, v: Value): Value
  {
    if t == INT then IntValue(v.n) else TextValue(v.s)
  }

  /** Reading an INT column back: its value, then the rest of the row. */
  lemma DecodeInt(ts: seq<DataType>, n: int32, rest: seq<byte>)
    requires |ts| > 0 && ts[0] == INT
    ensures DecodeFields(ts, Int32Bytes(n) + rest) ==
      match DecodeFields(ts[1..], rest)
      case None => None
      case Some(tail) => Some([IntValue(n)] + tail)
  {
    var b := Int32Bytes(n) + rest;
    assert b[..4] == Int32Bytes(n) && b[4..] == rest;
    Int32RoundTrip(n);
  }

  /** Reading a TEXT column back: its string, then the rest of the row. */
  lemma DecodeText(ts: seq<DataType>, s: string, rest: seq<byte>)
    requires |ts| > 0 && ts[0] == TEXT && ByteText(s)
    ensures DecodeFields(ts, U16Bytes(|s| % U16) + TextBytes(s) + rest) ==
      match DecodeFields(ts[1..], rest)
      case None => None
      case Some(tail) => Some([TextValue(s)] + tail)
  {
    assert |s| % U16 == |s|;
    var len := U16Bytes(|s|);
    var b := len + TextBytes(s) + rest;
    assert b[0] == len[0] && b[1] == len[1];
    U16RoundTrip(|s|);
    assert b[2..2 + |s|] == TextBytes(s) && b[2 + |s|..] == rest;
    TextRoundTrip(s);
  }

  /** Reading the first column back: its stored value, then the rest of the row. */
  lemma DecodeFront(ts: seq<DataType>, v: Value, rest: seq<byte>)
    requires |ts| > 0 && Marshallable(ts[0])
    requires ts[0] == TEXT ==> ByteText(v.s)
    ensures DecodeFields(ts, FieldBytes(ts[0], v).value + rest) ==
      match DecodeFields(ts[1..], rest)
      case None => None
      case Some(tail) => Some([Stored(ts[0], v)] + tail)
  {
    if ts[0] == INT {
      DecodeInt(ts, v.n, rest);
    } else {
      DecodeText(ts, v.s, rest);
    }
  }

  /** The row as stored: each value reduced to the payload its column's type selects. */
  function StoredRow(ts: seq<DataType>, vs: seq<Value>): (r: seq<Value>)
    requires |ts| == |vs|
    ensures |r| == |ts|
  {
    seq(|ts|, i requires 0 <= i < |ts| => Stored(ts[i], vs[i]))
  }

  /** A marshalled row whose texts fit reads back as the row as stored. */
  lemma {:induction false} DecodeEncoding(ts: seq<DataType>, vs: seq<Value>)
    requires |ts| == |vs| && TextsFit(ts, vs)
    requires Encoding(ts, vs).Success?
    ensures DecodeFields(ts, Encoding(ts, vs).value) == Some(StoredRow(ts, vs))
  {
    if |ts| > 0 {
      var rest := Encoding(ts[1..], vs[1..]).value;
      assert Encoding(ts, vs).value == FieldBytes(ts[0], vs[0]).value + rest;
      assert TextsFit(ts[1..], vs[1..]) by {
        forall i | 0 <= i < |ts| - 1 && ts[1..][i] == TEXT ensures ByteText(vs[1..][i].s) {
          assert ts[1..][i] == ts[i + 1];
        }
      }
      DecodeEncoding(ts[1..], vs[1..]);
      DecodeFront(ts, vs[0], rest);
      assert StoredRow(ts, vs) == [Stored(ts[0], vs[0])] + StoredRow(ts[1..], vs[1..]);
    }
  }

  // ---------------------------------------------------------------------
  // The table

  class HeapTable {
    const tableName: Identifier
    const columnNames: seq<Identifier>
    const columnAttributes: seq<ColumnAttribute>
    const file: HeapFile

    /**
     * HeapTable(table_name, column_names, column_attributes)
     * (heap_storage.cpp:257-259, whose body is empty): the schema is kept and
     * the table's file is named after the table.
     */
    constructor (tableName: Identifier, columnNames: seq<Identifier>, columnAttributes: seq<ColumnAttribute>)
      ensures this.tableName == tableName && this.columnNames == columnNames
      ensures this.columnAttributes == columnAttributes
      ensures fresh(file) && file.name == tableName && file.Valid() && file.last == 0
    {
      this.tableName := tableName;
      this.columnNames := columnNames;
      this.columnAttributes := columnAttributes;
      file := new HeapFile(tableName);
    }

    /** create (heap_storage.cpp:261-263): the file gets its first block, an empty page. */
    method Create()
      requires file.Valid() && file.last == 0
      modifies file
      ensures file.Valid() && file.last == 1 && file.blocks.Keys == {1}
      ensures DirectoryOf(file.blocks[1]) == [Header(0, BLOCK_SZ - 1)]
      ensures RecordsOf(DirectoryOf(file.blocks[1]), file.blocks[1]) == map[]
    {
      file.Create();
    }

    /**
     * select (heap_storage.cpp:287-300): for each block id 1 to last, the
     * handle of each live record, in id order. The `where` argument is not
     * consulted.
     */
    method Select(where: ValueDict) returns (handles: seq<Handle>)
      requires file.Valid()
      ensures handles == Handles(StoredIds(file.blocks, file.last), file.last)
      ensures forall h :: h in handles <==>
        h.blockId in file.blocks && h.recordId in BlockRecords(file.blocks[h.blockId])
      ensures Ordered(handles)
    {
      ghost var idss := StoredIds(file.blocks, file.last);
      handles := [];
      var blockIds := file.BlockIds();
      for i := 0 to |blockIds|
        invariant handles == Handles(idss, i)
      {
        var blockId := blockIds[i];
        var block := file.Get(blockId);
        var recordIds := block.Ids();
        StoredIdsAt(file.blocks, file.last, blockId, block.headers);
        handles := AppendHandles(handles, blockId, recordIds);
      }
      FileHandlesAreRecords(file.blocks, file.last);
    }

    /** The declared types of the columns, in schema order. */
    function Types(): (ts: seq<DataType>)
      requires |columnNames| <= |columnAttributes|
      ensures |ts| == |columnNames|
    {
      seq(|columnNames|, i requires 0 <= i < |columnNames| => columnAttributes[i].dataType)
    }

    /** The row's values, in schema order. */
    function RowValues(row: ValueDict): (vs: seq<Value>)
      requires forall c | c in columnNames :: c in row
      ensures |vs| == |columnNames|
    {
      seq(|columnNames|, i requires 0 <= i < |columnNames| => row[columnNames[i]])
    }

    /**
     * marshal (heap_storage.cpp:311-337): the row's columns laid out in schema
     * order in a block-sized buffer, then cut to the bytes written; a column of
     * another type than INT or TEXT raises DbRelationError.
     */
    method Marshal(row: ValueDict) returns (r: Result<seq<byte>>)
      requires |columnNames| <= |columnAttributes|
      requires forall c | c in columnNames :: c in row
      requires RowFits(Types(), RowValues(row))
      ensures r == Encoding(Types(), RowValues(row))
    {
      ghost var ts := Types();
      ghost var vs := RowValues(row);
      var bytes := new byte[BLOCK_SZ];
      var offset: nat := 0;
      for i := 0 to |columnNames|
        invariant offset <= BLOCK_SZ
        invariant Encoding(ts[..i], vs[..i]) == Success(bytes[..offset])
      {
        var ca := columnAttributes[i];
        var value := row[columnNames[i]];
        assert ca.dataType == ts[i] && value == vs[i];
        if !Marshallable(ca.dataType) {
          MarshalStops(ts, vs, i);
          return Failure(DbRelationError("Only know how to marshal INT and TEXT"));
        }
        MarshalStep(ts, vs, i, bytes[..offset]);
        offset := StoreField(bytes, offset, ca.dataType, value);
      }
      assert ts[..|columnNames|] == ts && vs[..|columnNames|] == vs;
      r := Success(bytes[..offset]);
    }
  }

  /** select's inner loop: one handle per record id of the block, pushed in order. */
  method AppendHandles(handles: seq<Handle>, blockId: BlockID, recordIds: seq<RecordID>) returns (r: seq<Handle>)
    ensures r == handles + BlockHandles(blockId, recordIds)
  {
    r := handles;
    for j := 0 to |recordIds|
      invariant r == handles + BlockHandles(blockId, recordIds[..j])
    {
      r := r + [Handle(blockId, recordIds[j])];
    }
    assert recordIds[..|recordIds|] == recordIds;
  }

  /**
   * One column of marshal's loop: an INT's 4 bytes, or a TEXT's u16 length and
   * its bytes, stored at `offset`; the offset after them is returned.
   */
  method StoreField(buf: array<byte>, offset: nat, t: DataType, v: Value) returns (next: nat)
    requires Marshallable(t) && offset + |FieldBytes(t, v).value| <= buf.Length
    modifies buf
    ensures next == offset + |FieldBytes(t, v).value|
    ensures buf[..next] == old(buf[..offset]) + FieldBytes(t, v).value
  {
    if t == INT {
      Store(buf, offset, Int32Bytes(v.n));
      next := offset + 4;
    } else {
      var size := |v.s|;
      Store(buf, offset, U16Bytes(size % U16));
      Store(buf, offset + 2, TextBytes(v.s));
      next := offset + 2 + size;
      assert old(buf[..offset]) + U16Bytes(size % U16) + TextBytes(v.s) == old(buf[..offset]) + FieldBytes(t, v).value;
    }
  }

  /** memcpy of `data` to `offset` in the marshalling buffer; what lies before stays. */
  method Store(buf: array<byte>, offset: nat, data: seq<byte>)
    requires offset + |data| <= buf.Length
    modifies buf
    ensures buf[..offset + |data|] == old(buf[..offset]) + data
  {
    forall k | 0 <= k < |data| {
      buf[offset + k] := data[k];
    }
    assert buf[..offset + |data|] == old(buf[..offset]) + data;
  }
}
