/**
 The networks table as a whole: loading the rows of the networks file, and
 looking addresses up by recursive binary search behind a direct-mapped
 cache. A lookup is longest-prefix match over the rows of the file.
 */
module NetworksTable {
  import opened Options
  import opened NetPrefix
  import opened NetSort
  import opened NetForest
  import opened NetHierarchy
  import opened NetFlatten
  import opened NetNesting
  import opened NetMatch
  import opened NetFile

  const DEFAULT_CACHE_ENTRIES: nat := 99991

  // What a cache slot points to: nothing, the dummy entry, an entry.
  datatype CacheResult = NoEntry | Dummy | Entry(slot: nat)

  datatype CacheEntry = CacheEntry(key: nat, result: CacheResult)

  // ----- loading

  /** Steps 3 to 5 of the loader: sort, nest, flatten. */
  method BuildTable(tmp: array<Row>)
    returns (table: array<TableEntry>, num: nat, ghost s: seq<Row>, ghost lv: seq<nat>)
    requires tmp.Length > 0 && ValidRows(tmp[..])
    requires NestingBounded(tmp[..], PREV_SIZE + 1)
    modifies tmp
    ensures fresh(table) && table.Length > 0
    ensures Flattened(table[..], s, lv) && StableRearrangement(old(tmp[..]), s)
    ensures num == BlockSize(lv, -1)
  {
    ghost var rows := tmp[..];
    MergeSort(tmp, 0, tmp.Length);
    s := tmp[..];
    SortedIsTable(rows, s);
    var level := BuildLevels(tmp);
    lv := level[..];
    LevelsFit(rows, s, lv);
    DepthsAreLevels(s, lv);
    LoadableExactly(rows, s, lv);
    num := CountRoots(level);
    var childs := CountChildren(level);
    table := Flatten(tmp, level, childs, num);
  }

  /** `t`, with `num` roots, is the loaded form of `rows`. */
  ghost predicate Loaded(rows: seq<Row>, t: seq<TableEntry>, num: nat, s: seq<Row>, lv: seq<nat>) {
    && ValidRows(rows) && StableRearrangement(rows, s)
    && Flattened(t, s, lv) && num == BlockSize(lv, -1)
  }

  method LoadNetworks(lines: seq<Line>)
    returns (table: array<TableEntry>, num: nat, ghost s: seq<Row>, ghost lv: seq<nat>)
    requires NestingBounded(EffectiveRows(lines), PREV_SIZE + 1)
    ensures fresh(table) && Loaded(EffectiveRows(lines), table[..], num, s, lv)
    ensures FileRows(lines, EffectiveRows(lines))
  {
    EffectiveAreFileRows(lines);
    var tmp := ReadRows(lines);
    table, num, s, lv := BuildTable(tmp);
  }

  lemma SortedIsTable(rows: seq<Row>, s: seq<Row>)
    requires ValidRows(rows) && |s| == |rows|
    requires SortedRows(s[0..|s|]) && StableRearrangement(rows[0..|s|], s[0..|s|])
    ensures SortedTable(s) && StableRearrangement(rows, s)
  {
    assert s[0..|s|] == s && rows[0..|s|] == rows;
    SameMembers(rows, s);
    forall i | 0 <= i < |s| ensures ValidRow(s[i]) {
      assert s[i] in rows;
    }
  }

  /** Levels kept in 8 bits do not wrap on a table that can be loaded. */
  lemma LevelsFit(rows: seq<Row>, s: seq<Row>, lv: seq<nat>)
    requires SortedTable(s) && StableRearrangement(rows, s) && NestingBounded(rows, PREV_SIZE + 1)
    requires IsLevels(s, lv)
    ensures IsDepths(s, lv)
  {
    NestingAndDepth(rows, s, PREV_SIZE);
    ShallowLevels(s, lv);
  }

  // ----- the cache

  function Encode(answer: Option<nat>): CacheResult {
    if answer.None? then Dummy else Entry(answer.value)
  }

  /** What the cache holds for a key. */
  function Cached(cache: seq<CacheEntry>, key: nat): CacheResult
    requires |cache| > 0
  {
    if cache[key % |cache|].key == key then cache[key % |cache|].result else NoEntry
  }

  function Remember(cache: seq<CacheEntry>, key: nat, result: CacheResult): seq<CacheEntry>
    requires |cache| > 0
  {
    cache[key % |cache| := CacheEntry(key, result)]
  }

  /** Whatever the cache remembers is the answer of the table. */
  ghost predicate CacheSound(cache: seq<CacheEntry>, s: seq<Row>, lv: seq<nat>)
    requires |lv| == |s|
  {
    forall c :: 0 <= c < |cache| && cache[c].result != NoEntry ==>
      cache[c].key < ADDRESS_LIMIT && cache[c].result == Encode(BlockAnswer(s, lv, Ntohl(cache[c].key), -1))
  }

  /** The binary search of one block. */
  method FindInBlock(table: array<TableEntry>, start: nat, num: nat, addr: Address) returns (found: Option<nat>)
    requires SearchableBlock(table[..], start, num)
    ensures match found
            case None => forall k :: start <= k < start + num ==> !Covers(table[k].row, addr)
            case Some(k) => start <= k < start + num && Covers(table[k].row, addr)
  {
    var low, high := 0, num - 1;
    while low <= high
      invariant 0 <= low <= num && -1 <= high < num
      invariant forall k :: start <= k < start + low ==> !Covers(table[k].row, addr)
      invariant forall k :: start + high < k < start + num ==> !Covers(table[k].row, addr)
      decreases high - low
    {
      var mid := (low + high) / 2;
      var net := BitAnd(addr, table[start + mid].row.mask);
      if net < table[start + mid].row.net {
        RowsAbove(table[..], start, num, start + mid, addr);
        high := mid - 1;
      } else if net > table[start + mid].row.net {
        RowsBelow(table[..], start, num, start + mid, addr);
        low := mid + 1;
      } else {
        return Some(start + mid);
      }
    }
    return None;
  }

  lemma RowsAbove(t: seq<TableEntry>, start: nat, num: nat, mid: nat, addr: Address)
    requires SearchableBlock(t, start, num) && start <= mid < start + num
    requires BitAnd(addr, t[mid].row.mask) < t[mid].row.net
    ensures forall k :: mid <= k < start + num ==> !Covers(t[k].row, addr)
  {
    RowInterval(t[mid].row, addr);
    forall k | mid <= k < start + num ensures !Covers(t[k].row, addr) {
      assert mid < k ==> RowLe(t[mid].row, t[k].row);
      RowInterval(t[k].row, addr);
    }
  }

  lemma RowsBelow(t: seq<TableEntry>, start: nat, num: nat, mid: nat, addr: Address)
    requires SearchableBlock(t, start, num) && start <= mid < start + num
    requires BitAnd(addr, t[mid].row.mask) > t[mid].row.net
    ensures forall k :: start <= k <= mid ==> !Covers(t[k].row, addr)
  {
    RowInterval(t[mid].row, addr);
    forall k | start <= k < mid ensures !Covers(t[k].row, addr) {
      if Covers(t[k].row, addr) {
        assert RowLe(t[k].row, t[mid].row);
        CoverConvex(t[k].row, t[mid].row, addr);
      }
    }
  }

  /** The recursive search with its cache: a remembered answer is returned;
      otherwise the answer is that of the block, and it is all the search
      leaves in the cache. */
  method BinSearch(table: array<TableEntry>, start: nat, num: nat, cache: array<CacheEntry>, key: Address,
                   ghost s: seq<Row>, ghost lv: seq<nat>, ghost p: int)
    returns (ret: Option<nat>)
    requires cache.Length > 0 && Flattened(table[..], s, lv) && IsBlock(table[..], lv, p, start, num)
    requires Inside(s, Ntohl(key), p)
    modifies cache
    ensures if old(Cached(cache[..], key)) == NoEntry
            then ret == BlockAnswer(s, lv, Ntohl(key), p) &&
                 cache[..] == Remember(old(cache[..]), key, Encode(ret))
            else Encode(ret) == old(Cached(cache[..], key)) && cache[..] == old(cache[..])
    decreases table.Length - start
  {
    hide Flattened, BlockAnswer, SearchableBlock, IsBlock, Covers;
    var hit := CacheSearch(cache, key);
    if hit != NoEntry {
      return if hit == Dummy then None else Some(hit.slot);
    }
    var addr := Ntohl(key);
    BlockIsSearchable(table[..], s, lv, p, start, num);
    var found := FindInBlock(table, start, num, addr);
    if found.None? {
      NothingInBlock(table[..], s, lv, addr, p, start, num);
      CacheInsert(cache, key, Dummy);
      return None;
    }
    var mid := found.value;
    ghost var c := BelowEntry(table[..], s, lv, addr, p, start, num, mid);
    if table[mid].childs.Children? {
      ret := BinSearch(table, table[mid].childs.start, table[mid].childs.num, cache, key, s, lv, c);
      if ret.None? {
        ret := Some(mid);
        CacheInsert(cache, key, Entry(mid));
      }
    } else {
      ret := Some(mid);
      CacheInsert(cache, key, Entry(mid));
    }
  }

  /** A covering entry of the block of `p` belongs to a child `c` of `p`: the
      answer is what the block of `c` says, or the entry itself. */
  lemma BelowEntry(t: seq<TableEntry>, s: seq<Row>, lv: seq<nat>, addr: Address, p: int, start: nat, num: nat, mid: nat)
    returns (c: nat)
    requires Flattened(t, s, lv) && IsBlock(t, lv, p, start, num) && Inside(s, addr, p)
    requires start <= mid < start + num && Covers(t[mid].row, addr)
    ensures Inside(s, addr, c)
    ensures match t[mid].childs
            case NoChildren => BlockAnswer(s, lv, addr, p) == Some(mid)
            case Children(start', num') =>
              && IsBlock(t, lv, c, start', num') && start' > start
              && BlockAnswer(s, lv, addr, p) ==
                 if BlockAnswer(s, lv, addr, c) == None then Some(mid) else BlockAnswer(s, lv, addr, c)
  {
    c := EntryIsChild(t, s, lv, p, start, num, mid);
    DescendInto(s, lv, addr, p, c);
    BlockInTable(t, lv, c);
    ChildBlockLater(lv, p, c);
    if t[mid].childs.NoChildren? {
      NothingInBlock(t, s, lv, addr, c, BlockStart(lv, c), 0);
    }
  }

  method CacheInsert(cache: array<CacheEntry>, key: nat, result: CacheResult)
    requires cache.Length > 0
    modifies cache
    ensures cache[..] == Remember(old(cache[..]), key, result)
  {
    cache[key % cache.Length] := CacheEntry(key, result);
  }

  method CacheSearch(cache: array<CacheEntry>, key: nat) returns (result: CacheResult)
    requires cache.Length > 0
    ensures result == Cached(cache[..], key)
  {
    var entry := cache[key % cache.Length];
    result := if entry.key == key then entry.result else NoEntry;
  }

  /** The answer of the root block is the longest match of the file. */
  lemma RootAnswer(rows: seq<Row>, t: seq<TableEntry>, s: seq<Row>, lv: seq<nat>, addr: Address)
    requires ValidRows(rows) && StableRearrangement(rows, s) && Flattened(t, s, lv)
    ensures match BlockAnswer(s, lv, addr, -1)
            case None => LongestMatch(rows, addr) == None
            case Some(k) => k < |t| && LongestMatch(rows, addr) == Some(t[k].row)
  {
    StableSameMatch(rows, s, addr);
    SortedMatch(s, addr, |s|);
    var last := LastCovering(s, addr, |s|);
    if last >= 0 {
      assert Holds(t, Slot(lv, last), TableEntry(s[last], ChildBlock(lv, last)));
    }
  }

  lemma SoundAfter(cache: seq<CacheEntry>, s: seq<Row>, lv: seq<nat>, key: Address)
    requires |lv| == |s| && |cache| > 0 && CacheSound(cache, s, lv)
    ensures CacheSound(Remember(cache, key, Encode(BlockAnswer(s, lv, Ntohl(key), -1))), s, lv)
    ensures Cached(cache, key) != NoEntry ==> Cached(cache, key) == Encode(BlockAnswer(s, lv, Ntohl(key), -1))
  {
  }

  ghost predicate EmptyCache(cache: seq<CacheEntry>) {
    forall c :: 0 <= c < |cache| ==> cache[c].result == NoEntry
  }

  lemma LoadedLevels(rows: seq<Row>, t: seq<TableEntry>, num: nat, s: seq<Row>, lv: seq<nat>)
    requires Loaded(rows, t, num, s, lv)
    ensures |lv| == |s|
  {
  }

  lemma EmptySound(cache: seq<CacheEntry>, s: seq<Row>, lv: seq<nat>)
    requires |lv| == |s| && EmptyCache(cache)
    ensures CacheSound(cache, s, lv)
  {
  }

  /** Zeroes the cache. A zeroed slot has key 0 but no result, so it answers
      nothing for address 0 either. */
  method ClearCache(cache: array<CacheEntry>)
    modifies cache
    ensures EmptyCache(cache[..])
  {
    for k := 0 to cache.Length
      invariant forall c :: 0 <= c < k ==> cache[c] == CacheEntry(0, NoEntry)
    {
      cache[k] := CacheEntry(0, NoEntry);
    }
  }

  /** The table with its cache. */
  class Networks {
    var table: array<TableEntry>
    var num: nat
    var cache: array<CacheEntry>
    ghost var file: seq<Line>
    ghost var rows: seq<Row> // the rows of the file
    ghost var sorted: seq<Row>
    ghost var levels: seq<nat>

    ghost predicate Valid()
      reads this, table, cache
    {
      && cache.Length > 0
      && rows == EffectiveRows(file) && Loaded(rows, table[..], num, sorted, levels)
      && CacheSound(cache[..], sorted, levels)
    }

    /** Loads a networks file for the first time; `entries` is the configured
        size of the cache, zero for the default. */
    constructor (lines: seq<Line>, entries: nat)
      requires NestingBounded(EffectiveRows(lines), PREV_SIZE + 1)
      ensures Valid() && fresh(table) && fresh(cache) && cache.Length == if entries == 0 then 99991 else entries
      ensures file == lines && FileRows(lines, rows)
    {
      var size := if entries == 0 then DEFAULT_CACHE_ENTRIES else entries;
      var zeroed := new CacheEntry[size];
      ClearCache(zeroed);
      cache := zeroed;
      ghost var s, lv;
      var t, n;
      t, n, s, lv := LoadNetworks(lines);
      file, rows, sorted, levels := lines, EffectiveRows(lines), s, lv;
      table, num := t, n;
    }

    /** Loads a new file: the table is replaced, the cache kept and zeroed. */
    method Reload(lines: seq<Line>)
      requires cache.Length > 0 && NestingBounded(EffectiveRows(lines), PREV_SIZE + 1)
      modifies this, cache
      ensures Valid() && fresh(table) && cache == old(cache)
      ensures file == lines && FileRows(lines, rows)
    {
      hide FileRows, Loaded, CacheSound, EmptyCache, NestingBounded;
      ghost var s, lv;
      var t, n;
      t, n, s, lv := LoadNetworks(lines);
      ClearCache(cache);
      LoadedLevels(EffectiveRows(lines), t[..], n, s, lv);
      EmptySound(cache[..], s, lv);
      file, rows, sorted, levels := lines, EffectiveRows(lines), s, lv;
      table, num := t, n;
    }

    /** Looks up an address in network byte order: the entry found carries
        the data of the longest line of the file that holds the address, the
        last of these, whatever was looked up before; no entry is found
        exactly when no line holds it. */
    method Lookup(key: Address) returns (ret: Option<nat>)
      requires Valid()
      modifies cache
      ensures Valid()
      ensures ret.Some? ==> ret.value < table.Length
      ensures FileAnswer(file, Ntohl(key), if ret.None? then None else Some(table[ret.value].row))
    {
      hide FileAnswer, LongestMatch;
      MatchIsFileAnswer(file, Ntohl(key));
      RootAnswer(rows, table[..], sorted, levels, Ntohl(key));
      SoundAfter(cache[..], sorted, levels, key);
      NothingBeforeRoots(levels, |levels|);
      BlockInTable(table[..], levels, -1);
      ret := BinSearch(table, 0, num, cache, key, sorted, levels, -1);
    }
  }
}
