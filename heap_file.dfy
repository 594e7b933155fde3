/**
 * HeapFile of heap_storage.cpp: a file of blocks numbered 1 to `last`, one
 * SlottedPage per block. The Berkeley DB RecNo file underneath is replaced
 * by a map from block id to the stored block image.
 */
module HeapFiles {
  import opened Values
  import opened SlottedPages

  /** The blocks are exactly 1 to last, each one holding a well-formed page. */
  ghost predicate BlocksValid(blocks: map<BlockID, seq<byte>>, last: nat)
  {
    && (forall id :: id in blocks <==> 1 <= id <= last)
    && (forall id {:trigger blocks[id]} | id in blocks :: ImageLayout(blocks[id]))
  }

  /** Storing a well-formed page under an id from 1 to last, where every other such id is present already. */
  lemma StoreKeepsValid(blocks: map<BlockID, seq<byte>>, last: nat, id: BlockID, image: seq<byte>)
    requires 1 <= id <= last && ImageLayout(image)
    requires forall k | k in blocks :: 1 <= k <= last && ImageLayout(blocks[k])
    requires forall k | 1 <= k <= last && k != id :: k in blocks
    ensures BlocksValid(blocks[id := image], last)
  {
  }

  class HeapFile {
    const name: string
    const dbFilename: string
    /** The id of the last block in the file; 0 for a file with no blocks. */
    var last: nat
    /** The stored blocks, by block id. */
    var blocks: map<BlockID, seq<byte>>

    ghost predicate Valid()
      reads this
    {
      BlocksValid(blocks, last)
    }

    /** HeapFile(name) (heap_storage.cpp:172-174): no blocks yet, stored in name + ".db". */
    constructor (name: string)
      ensures Valid()
      ensures this.name == name && dbFilename == name + ".db"
      ensures last == 0 && blocks == map[]
    {
      this.name := name;
      dbFilename := name + ".db";
      last := 0;
      blocks := map[];
    }

    /**
     * get_new (heap_storage.cpp:200-213): the next block id, a fresh page
     * for it, and that page's image stored under the id.
     */
    method GetNew() returns (page: SlottedPage)
      requires Valid()
      modifies this
      ensures Valid()
      ensures last == old(last) + 1 && page.blockId == last
      ensures fresh(page) && fresh(page.block) && page.Valid()
      ensures page.numRecords == 0 && page.endFree == BLOCK_SZ - 1 && page.Records() == map[]
      ensures blocks == old(blocks)[last := page.Image()]
      ensures DirectoryOf(blocks[last]) == [Header(0, BLOCK_SZ - 1)]
      ensures RecordsOf(DirectoryOf(blocks[last]), blocks[last]) == map[]
    {
      last := last + 1;
      page := new SlottedPage.Fresh(last);
      var image := page.Image();
      StoreKeepsValid(blocks, last, last, image);
      blocks := blocks[last := image];
    }

    /** create (heap_storage.cpp:177-180), on a file that has no blocks yet: block 1 is added, holding an empty page. */
    method Create()
      requires Valid() && last == 0
      modifies this
      ensures Valid() && last == 1 && blocks.Keys == {1}
      ensures DirectoryOf(blocks[1]) == [Header(0, BLOCK_SZ - 1)]
      ensures RecordsOf(DirectoryOf(blocks[1]), blocks[1]) == map[]
    {
      var page := GetNew();
    }

    /**
     * get (heap_storage.cpp:215-221): a page read from the stored block,
     * with the directory and records that block holds.
     */
    method Get(id: BlockID) returns (page: SlottedPage)
      requires Valid() && 1 <= id <= last
      ensures fresh(page) && fresh(page.block) && page.Valid()
      ensures page.blockId == id && page.Image() == blocks[id]
      ensures page.headers == DirectoryOf(blocks[id])
      ensures page.Records() == RecordsOf(DirectoryOf(blocks[id]), blocks[id])
    {
      page := new SlottedPage.Load(id, blocks[id]);
      DirectoryRoundTrip(blocks[id]);
    }

    /** put (heap_storage.cpp:223-228): the page's block is stored under its id. */
    method Put(page: SlottedPage)
      requires Valid() && page.Valid() && 1 <= page.blockId <= last
      modifies this
      ensures Valid() && last == old(last)
      ensures blocks == old(blocks)[page.blockId := page.Image()]
    {
      var image := page.Image();
      StoreKeepsValid(blocks, last, page.blockId, image);
      blocks := blocks[page.blockId := image];
    }

    /** block_ids (heap_storage.cpp:231-237): 1 to last, in order. */
    method BlockIds() returns (ids: seq<BlockID>)
      requires Valid()
      ensures |ids| == last
      ensures forall i | 0 <= i < |ids| :: ids[i] == i + 1
      ensures forall id :: id in ids <==> id in blocks
    {
      ids := [];
      for block := 1 to last + 1
        invariant |ids| == block - 1
        invariant forall i | 0 <= i < |ids| :: ids[i] == i + 1
      {
        ids := ids + [block];
      }
      forall id | 1 <= id <= last ensures id in ids {
        assert ids[id - 1] == id;
      }
    }

    /** get_last_block_id (heap_storage.cpp:239-241): the largest block id, 0 for none. */
    function LastBlockId(): (r: nat)
      reads this
      requires Valid()
      ensures forall id | id in blocks :: id <= r
      ensures r == 0 <==> blocks == map[]
      ensures r != 0 ==> r in blocks
    {
      assert last != 0 ==> last in blocks;
      last
    }
  }

  /** Writing a page back and reading it again gives the same directory and records. */
  method PutGet(file: HeapFile, page: SlottedPage) returns (again: SlottedPage)
    requires file.Valid() && page.Valid() && 1 <= page.blockId <= file.last
    modifies file
    ensures again.Valid() && again.blockId == page.blockId
    ensures again.headers == page.headers && again.Records() == page.Records()
  {
    file.Put(page);
    again := file.Get(page.blockId);
    ImageRoundTrip(page.headers, page.endFree, page.block[..]);
  }
}
