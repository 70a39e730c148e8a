/** The byte arena behind StringTable and CachingStringTable, stated on values:
    the bytes an `addStr` call names, what an append leaves in the arena, what a
    caller reads back through an offset, and the interning step of the caching
    table together with the invariant its cache keeps. */
module ByteArena {

  /** The arena stores raw `char`s; only their 8-bit value matters here. */
  newtype byte = b: int | 0 <= b < 256

  datatype Option<T> = None | Some(value: T)

  /** `std::strlen`: the index of the first 0 byte. */
  function StrLen(s: seq<byte>): (n: nat)
    requires 0 in s
    ensures n < |s| && s[n] == 0
    ensures forall j :: 0 <= j < n ==> s[j] != 0
  {
    if s[0] == 0 then 0 else StrLen(s[1..]) + 1
  }

  /** The range an `addStr` call names is readable. `str` is the memory readable
      from the start pointer on; `strEnd` is the end pointer as an offset from the
      start pointer, `None` for the default null end pointer. A given end pointer
      must not lie before the start (`DU_ASSERT(str_end >= str)`); without one the
      start must point at a 0-terminated string. */
  predicate InputOk(str: seq<byte>, strEnd: Option<int>) {
    match strEnd
    case None => 0 in str
    case Some(e) => 0 <= e <= |str|
  }

  /** The bytes `addStr` copies: up to the end pointer, or up to the first 0. */
  function InputBytes(str: seq<byte>, strEnd: Option<int>): (s: seq<byte>)
    requires InputOk(str, strEnd)
    ensures s <= str
    ensures strEnd.Some? ==> |s| == strEnd.value
    ensures strEnd.None? ==> 0 !in s && |s| < |str| && str[|s|] == 0
  {
    match strEnd
    case None => str[..StrLen(str)]
    case Some(e) => str[..e]
  }

  function Terminator(nullTerm: bool): seq<byte> {
    if nullTerm then [0] else []
  }

  /** The arena `d` after the bytes `s` were appended, with a 0 byte behind them
      when `nullTerm` holds. */
  function Appended(d: seq<byte>, s: seq<byte>, nullTerm: bool): (r: seq<byte>)
    ensures |r| == |d| + |s| + (if nullTerm then 1 else 0)
    ensures r[..|d|] == d
    ensures r[|d|..|d| + |s|] == s
    ensures nullTerm ==> r[|d| + |s|] == 0
  {
    d + s + Terminator(nullTerm)
  }

  /** The C string a caller reads through `getStr(off)`: the bytes from `off` up to
      the first 0 byte. */
  function CStringAt(d: seq<byte>, off: nat): (r: seq<byte>)
    requires off <= |d| && 0 in d[off..]
    ensures off + |r| < |d| && d[off..off + |r|] == r && d[off + |r|] == 0
    ensures 0 !in r
  {
    var n := StrLen(d[off..]);
    assert forall j :: 0 <= j < n ==> d[off..][..n][j] == d[off..][j];
    d[off..][..n]
  }

  /** A 0-free string followed by a 0 byte has that string as its C string. */
  lemma {:induction false} StrLenOfTerminated(s: seq<byte>, rest: seq<byte>)
    requires 0 !in s
    ensures 0 in s + [0] + rest
    ensures StrLen(s + [0] + rest) == |s|
  {
    var t := s + [0] + rest;
    assert t[|s|] == 0;
  }

  /** Appending a 0-free string with its terminator and reading the C string at the
      returned offset gives back exactly that string. */
  lemma {:induction false} ReadBack(d: seq<byte>, s: seq<byte>)
    requires 0 !in s
    ensures 0 in Appended(d, s, true)[|d|..]
    ensures CStringAt(Appended(d, s, true), |d|) == s
  {
    var a := Appended(d, s, true);
    assert a[|d|..] == s + [0] + [];
    StrLenOfTerminated(s, []);
  }

  /** Appends never move or change the bytes already stored. */
  lemma PrefixStable(d: seq<byte>, t: seq<byte>, off: nat, n: nat)
    requires off + n <= |d|
    ensures (d + t)[off..off + n] == d[off..off + n]
  {
    assert (d + t)[..|d|] == d;
    assert (d + t)[off..off + n] == (d + t)[..|d|][off..off + n];
  }

  /** Offsets stay meaningful: a C string readable at `off` reads the same after
      any later append. */
  lemma {:induction false} CStringStable(d: seq<byte>, t: seq<byte>, off: nat)
    requires off <= |d| && 0 in d[off..]
    ensures 0 in (d + t)[off..]
    ensures CStringAt(d + t, off) == CStringAt(d, off)
  {
    var r := CStringAt(d, off);
    var n := |r|;
    assert (d + t)[off..] == d[off..] + t;
    assert d[off..] == r + [0] + d[off + n + 1..];
    StrLenOfTerminated(r, d[off + n + 1..] + t);
    assert (d + t)[off..] == r + [0] + (d[off + n + 1..] + t);
  }

  /** Appending "foo" then "bar" to an empty arena puts "bar" at offset 4. */
  lemma FooBarExample()
    ensures var foo: seq<byte> := [102, 111, 111];
            var bar: seq<byte> := [98, 97, 114];
            var d1 := Appended([], foo, true);
            var d2 := Appended(d1, bar, true);
            |d1| == 4 && 0 in d2[4..] && CStringAt(d2, 4) == bar
  {
    var foo: seq<byte> := [102, 111, 111];
    var bar: seq<byte> := [98, 97, 114];
    ReadBack(Appended([], foo, true), bar);
  }

  // ---------------------------------------------------------------------------
  // Interning (CachingStringTable)

  /** The state of a caching table: the base table's bytes and the cache. */
  datatype Arena = Arena(data: seq<byte>, cache: map<seq<byte>, nat>)

  /** The result of one `CachingStringTable::addStr`: the new state and the offset returned. */
  datatype Interned = Interned(arena: Arena, off: nat)

  /** `d` holds a 0-terminated copy of `k` at offset `off`. */
  predicate StoredAt(d: seq<byte>, k: seq<byte>, off: nat) {
    off + |k| < |d| && d[off..off + |k|] == k && d[off + |k|] == 0
  }

  /** Every cache entry `k ↦ off` points at a 0-terminated copy of `k` inside `data`,
      and no two entries share an offset. */
  predicate CacheValid(a: Arena)
    ensures CacheValid(a) ==> forall k | k in a.cache :: a.cache[k] < |a.data|
  {
    (forall k | k in a.cache :: StoredAt(a.data, k, a.cache[k]))
    && (forall k1, k2 | k1 in a.cache && k2 in a.cache && k1 != k2 :: a.cache[k1] != a.cache[k2])
  }

  /** Under the cache invariant, reading the C string at the cached offset of a
      0-free key gives back exactly that key. */
  lemma {:induction false} CachedReadsBack(a: Arena, k: seq<byte>)
    requires CacheValid(a) && k in a.cache && 0 !in k
    ensures 0 in a.data[a.cache[k]..]
    ensures CStringAt(a.data, a.cache[k]) == k
  {
    var off := a.cache[k];
    assert StoredAt(a.data, k, off);
    var rest := a.data[off + |k| + 1..];
    assert a.data[off..] == k + [0] + rest;
    StrLenOfTerminated(k, rest);
  }

  /** A stored copy survives any append. */
  lemma {:induction false} StoredAtAppend(d: seq<byte>, t: seq<byte>, k: seq<byte>, off: nat)
    requires StoredAt(d, k, off)
    ensures StoredAt(d + t, k, off)
  {
    PrefixStable(d, t, off, |k|);
  }

  /** The cache is consulted only for a terminated string that would start right
      after a terminated one (or at the start of an empty arena). */
  predicate UsesCache(a: Arena, nullTerm: bool)
    ensures UsesCache(a, nullTerm) <==>
              nullTerm && forall off :: 0 <= off < |a.data| ==> 0 in a.data[off..]
  {
    var d := a.data;
    assert d != [] ==> d[|d| - 1..] == [d[|d| - 1]];
    assert forall off :: 0 <= off < |d| ==> d[|d| - 1] == d[off..][|d| - 1 - off];
    nullTerm && (|d| == 0 || d[|d| - 1] == 0)
  }

  /** `CachingStringTable::addStr` on the bytes `s` it names. */
  function Intern(a: Arena, s: seq<byte>, nullTerm: bool): (r: Interned)
    ensures |a.data| <= |r.arena.data| && r.arena.data[..|a.data|] == a.data
    ensures r.off == |a.data| || (s in a.cache && r.off == a.cache[s] && r.arena == a)
    ensures forall k | k in a.cache :: k in r.arena.cache && r.arena.cache[k] == a.cache[k]
    ensures r.arena.cache.Keys <= a.cache.Keys + {s}
  {
    if !UsesCache(a, nullTerm) then
      Interned(Arena(Appended(a.data, s, nullTerm), a.cache), |a.data|)
    else if s in a.cache then
      Interned(a, a.cache[s])
    else
      Interned(Arena(Appended(a.data, s, true), a.cache[s := |a.data|]), |a.data|)
  }

  /** The empty arena with the empty cache (the result of `clear`) is valid. */
  lemma EmptyValid()
    ensures CacheValid(Arena([], map[]))
  {
  }

  /** Appending to the arena without touching the cache (plain `addStr`, `addTable`)
      keeps the cache valid. */
  lemma {:induction false} AppendKeepsCacheValid(a: Arena, t: seq<byte>)
    requires CacheValid(a)
    ensures CacheValid(Arena(a.data + t, a.cache))
  {
    forall k | k in a.cache
      ensures StoredAt(a.data + t, k, a.cache[k])
    {
      StoredAtAppend(a.data, t, k, a.cache[k]);
    }
  }

  /** Overwriting one byte outside every cached string and its terminator keeps the
      cache valid (`setChar` is not guarded by the caching table). */
  lemma {:induction false} SetCharKeepsCacheValid(a: Arena, off: nat, c: byte)
    requires CacheValid(a) && off < |a.data|
    requires forall k | k in a.cache :: off < a.cache[k] || a.cache[k] + |k| < off
    ensures CacheValid(Arena(a.data[off := c], a.cache))
  {
    var d := a.data[off := c];
    forall k | k in a.cache
      ensures StoredAt(d, k, a.cache[k])
    {
      var o := a.cache[k];
      assert StoredAt(a.data, k, o);
      assert d[o..o + |k|] == a.data[o..o + |k|];
    }
  }

  /** Interning keeps the cache valid, whichever branch it takes. */
  lemma {:induction false} InternKeepsCacheValid(a: Arena, s: seq<byte>, nullTerm: bool)
    requires CacheValid(a)
    ensures CacheValid(Intern(a, s, nullTerm).arena)
  {
    if !UsesCache(a, nullTerm) {
      AppendKeepsCacheValid(a, s + Terminator(nullTerm));
      assert Appended(a.data, s, nullTerm) == a.data + (s + Terminator(nullTerm));
    } else if s !in a.cache {
      var d := Appended(a.data, s, true);
      var c := a.cache[s := |a.data|];
      AppendKeepsCacheValid(a, s + [0]);
      assert d == a.data + (s + [0]);
      forall k1, k2 | k1 in c && k2 in c && k1 != k2
        ensures c[k1] != c[k2]
      {
        if k1 != s && k2 != s {
          assert c[k1] == a.cache[k1] && c[k2] == a.cache[k2];
        } else if k1 == s {
          assert c[k2] == a.cache[k2] < |a.data|;
        } else {
          assert c[k1] == a.cache[k1] < |a.data|;
        }
      }
    }
  }

  /** On the cache path the offset returned, in the new arena, holds the string
      followed by a 0 byte (a cache hit or a fresh copy alike). */
  lemma {:induction false} InternStores(a: Arena, s: seq<byte>)
    requires CacheValid(a) && UsesCache(a, true)
    ensures var r := Intern(a, s, true);
            r.off + |s| < |r.arena.data| &&
            r.arena.data[r.off..r.off + |s|] == s && r.arena.data[r.off + |s|] == 0
  {
  }

  /** Outside the cache path the caching table behaves exactly like the plain
      append and leaves the cache alone. */
  lemma BypassIsPlainAppend(a: Arena, s: seq<byte>, nullTerm: bool)
    requires !nullTerm || (|a.data| > 0 && a.data[|a.data| - 1] != 0)
    ensures Intern(a, s, nullTerm) == Interned(Arena(Appended(a.data, s, nullTerm), a.cache), |a.data|)
  {
  }

  /** A hit returns the cached offset and stores nothing; a miss appends the string
      with its terminator and records it under its contents. */
  lemma HitOrMiss(a: Arena, s: seq<byte>)
    requires UsesCache(a, true)
    ensures s in a.cache ==> Intern(a, s, true) == Interned(a, a.cache[s])
    ensures s !in a.cache ==>
              Intern(a, s, true).off == |a.data| &&
              Intern(a, s, true).arena.data == a.data + s + [0] &&
              Intern(a, s, true).arena.cache == a.cache[s := |a.data|]
  {
  }

  /** After a call on the cache path the next terminated call also uses the cache. */
  lemma {:induction false} CachePathStaysOpen(a: Arena, s: seq<byte>)
    requires CacheValid(a) && UsesCache(a, true)
    ensures UsesCache(Intern(a, s, true).arena, true)
    ensures s in Intern(a, s, true).arena.cache
    ensures Intern(a, s, true).arena.cache[s] == Intern(a, s, true).off
  {
    if s !in a.cache {
      var d := Appended(a.data, s, true);
      assert d[|d| - 1] == 0;
    }
  }

  /** Interning the same terminated string twice in a row returns the same offset,
      and the arena grows at most once. */
  lemma {:induction false} InternTwice(a: Arena, s: seq<byte>)
    requires CacheValid(a) && UsesCache(a, true)
    ensures var r1 := Intern(a, s, true);
            var r2 := Intern(r1.arena, s, true);
            r2.off == r1.off && r2.arena == r1.arena &&
            |r1.arena.data| == |a.data| + (if s in a.cache then 0 else |s| + 1)
  {
    CachePathStaysOpen(a, s);
  }

  /** Interning two different terminated strings one after the other yields two
      different offsets. */
  lemma {:induction false} InternDistinct(a: Arena, s1: seq<byte>, s2: seq<byte>)
    requires CacheValid(a) && UsesCache(a, true) && s1 != s2
    ensures var r1 := Intern(a, s1, true);
            Intern(r1.arena, s2, true).off != r1.off
  {
    var r1 := Intern(a, s1, true);
    CachePathStaysOpen(a, s1);
    InternKeepsCacheValid(a, s1, true);
    if s2 in r1.arena.cache {
      assert r1.arena.cache[s1] == r1.off;
    } else {
      assert r1.off + |s1| < |r1.arena.data|;
    }
  }

  // ---------------------------------------------------------------------------
  // `addTable` when the argument is the table itself

  /** `addTable` as written: the destination is grown by the argument's size read
      before the growth, but the copy length is the argument's size read after it.
      `aliased` says the argument is the table itself. The result is None when the
      copy would run past the end of the grown buffer. */
  function AddTableAsWritten(d: seq<byte>, other: seq<byte>, aliased: bool): (r: Option<seq<byte>>)
    requires aliased ==> other == d
    ensures !aliased ==> r == Some(d + other)
    ensures aliased && |d| > 0 ==> r.None?
  {
    var curr := |d|;
    if |other| == 0 then assert d + other == d; Some(d)
    else
      var grown := curr + |other|;
      var copyLen := if aliased then grown else |other|;
      if curr + copyLen > grown then None
      else assert other[..copyLen] == other; Some(d + other[..copyLen])
  }

  /** A one-byte table appended to itself overruns its buffer as written. */
  lemma SelfAddTableOverruns()
    ensures AddTableAsWritten([65], [65], true).None?
  {
  }
}
