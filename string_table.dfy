/** StringTable, an append-only byte arena that hands out offsets, and
    CachingStringTable, which stores each terminated string once. */
module StringTables {
  import opened ByteArena

  class StringTable {
    /** The arena's bytes (the `std::vector<char>` member). */
    var data: seq<byte>

    constructor ()
      ensures data == []
    {
      data := [];
    }

    /** Discards every byte; all offsets handed out so far become meaningless. */
    method Clear()
      modifies this
      ensures data == []
    {
      data := [];
    }

    /** The number of bytes stored, which is also the offset the next append gets. */
    function Size(): (n: nat)
      reads this
      ensures n == |data|
    {
      |data|
    }

    /** Copies the bytes `str` names (up to `strEnd`, or up to the first 0 without
        one) onto the tail, followed by a 0 byte when `nullTerm` holds, and returns
        the size before the call as the new string's offset. */
    method AddStr(str: seq<byte>, strEnd: Option<int>, nullTerm: bool) returns (off: nat)
      requires InputOk(str, strEnd)
      modifies this
      ensures off == |old(data)|
      ensures data == Appended(old(data), InputBytes(str, strEnd), nullTerm)
      ensures |data| == off + |InputBytes(str, strEnd)| + (if nullTerm then 1 else 0)
      ensures data[..off] == old(data)
      ensures data[off..off + |InputBytes(str, strEnd)|] == InputBytes(str, strEnd)
      ensures nullTerm ==> data[off + |InputBytes(str, strEnd)|] == 0
    {
      var s := InputBytes(str, strEnd);
      var len := |s|;
      var totalLen := if nullTerm then len + 1 else len;
      var currDataLen := |data|;
      data := data + s + Terminator(nullTerm);
      assert |data| == currDataLen + totalLen;
      off := currDataLen;
    }

    /** Overwrites the byte at `off` and nothing else. */
    method SetChar(off: nat, c: byte)
      requires off < |data|
      modifies this
      ensures |data| == |old(data)| && data[off] == c
      ensures forall j :: 0 <= j < |data| && j != off ==> data[j] == old(data)[j]
    {
      data := data[off := c];
    }

    /** What the pointer `getStr(off)` gives read access to: the bytes from `off` on. */
    function GetStr(off: nat): (r: seq<byte>)
      reads this
      requires off < |data|
      ensures |r| == |data| - off && r != []
      ensures forall j :: 0 <= j < |r| ==> r[j] == data[off + j]
    {
      data[off..]
    }

    /** Copies all of `table`'s bytes onto the tail and returns the size before the
        call. The argument's bytes are read once, so this also holds when `table`
        is this table. */
    method AddTable(table: StringTable) returns (off: nat)
      modifies this
      ensures off == |old(data)|
      ensures data == old(data) + old(table.data)
      ensures |data| == off + |old(table.data)|
      ensures data[off..] == old(table.data)
      ensures |old(table.data)| == 0 ==> data == old(data)
    {
      var currDataLen := |data|;
      var other := table.data;
      if |other| > 0 {
        data := data + other;
      }
      off := currDataLen;
    }
  }

  /** A StringTable with an interning cache. The base table is the `table` object;
      the members CachingStringTable inherits unchanged (`size`, `getStr`,
      `setChar`, `addTable`) are that object's methods. */
  class CachingStringTable {
    const table: StringTable
    /** Content of each interned string to its offset. */
    var cache: map<seq<byte>, nat>

    /** The cache invariant: every entry points at a 0-terminated copy of its key. */
    ghost predicate Valid()
      reads this, table
    {
      CacheValid(State())
    }

    ghost function State(): Arena
      reads this, table
    {
      Arena(table.data, cache)
    }

    constructor ()
      ensures fresh(table)
      ensures table.data == [] && cache == map[]
      ensures Valid()
    {
      table := new StringTable();
      cache := map[];
    }

    /** Empties both the cache and the arena. */
    method Clear()
      modifies this, table
      ensures table.data == [] && cache == map[]
      ensures Valid()
    {
      cache := map[];
      table.Clear();
    }

    /** Appends like StringTable.AddStr unless the call is terminated and the arena
        ends in a 0 byte (or is empty); then a string already in the cache is not
        stored again and its cached offset is returned, and a new one is appended
        and recorded under its contents. */
    method AddStr(str: seq<byte>, strEnd: Option<int>, nullTerm: bool) returns (off: nat)
      requires InputOk(str, strEnd)
      modifies this, table
      ensures Interned(State(), off) == Intern(old(State()), InputBytes(str, strEnd), nullTerm)
      ensures old(Valid()) ==> Valid()
      ensures old(Valid()) && UsesCache(old(State()), nullTerm) ==>
                StoredAt(table.data, InputBytes(str, strEnd), off)
    {
      if Valid() {
        InternKeepsCacheValid(State(), InputBytes(str, strEnd), nullTerm);
        if UsesCache(State(), nullTerm) {
          InternStores(State(), InputBytes(str, strEnd));
        }
      }
      var d := table.data;
      if nullTerm == false || (|d| > 0 && d[|d| - 1] != 0) {
        off := table.AddStr(str, strEnd, nullTerm);
        return;
      }
      var s := InputBytes(str, strEnd);
      if s in cache {
        return cache[s];
      }
      off := table.AddStr(str, strEnd, nullTerm);
      var key := table.GetStr(off)[..|s|];
      assert key == s;
      cache := cache[key := off];
    }
  }
}
