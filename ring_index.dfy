/** The index arithmetic of RingBuffer, stated on values: where logical index `i`
    lives in backing storage of capacity `c` with write cursor `ptr` and logical
    length `len`, what the logical contents are, and what one `add` does to them. */
module RingIndex {

  function Min(a: nat, b: nat): nat {
    if a <= b then a else b
  }

  /** Cursor and length fit storage of capacity `c`. */
  predicate Fits(c: nat, ptr: nat, len: nat) {
    (if c == 0 then ptr == 0 else ptr < c) && len <= c
  }

  /** For 0 <= x < 2c, `x % c` is `x` or `x - c`. */
  lemma ModBelowTwice(x: nat, c: nat)
    requires 0 < c && x < 2 * c
    ensures x % c == if x < c then x else x - c
  {
    if x < c {
      assert x == 0 * c + x;
    } else {
      assert x == 1 * c + (x - c);
    }
  }

  /** The physical slot `(ptr + c - len + ind) % c` of logical index `ind`: it
      lies `len - ind` slots behind the write cursor, wrapping past slot 0. */
  function Slot(c: nat, ptr: nat, len: nat, ind: nat): (r: nat)
    requires c > 0 && Fits(c, ptr, len) && ind <= len
    ensures r < c
    ensures r == if len <= ptr + ind then ptr + ind - len else c + ptr + ind - len
  {
    ModBelowTwice(ptr + c - len + ind, c);
    (ptr + c - len + ind) % c
  }

  /** The logical contents: index 0 is the oldest retained element. */
  function Logical<T>(s: seq<T>, ptr: nat, len: nat): (r: seq<T>)
    requires Fits(|s|, ptr, len)
    ensures |r| == len
  {
    seq(len, i requires 0 <= i < len => s[Slot(|s|, ptr, len, i)])
  }

  /** The logical contents are the `len` slots just behind the write cursor: one
      segment when they do not wrap, otherwise the tail of the storage followed by
      its head. */
  lemma LogicalSegments<T>(s: seq<T>, ptr: nat, len: nat)
    requires Fits(|s|, ptr, len)
    ensures len <= ptr ==> Logical(s, ptr, len) == s[ptr - len..ptr]
    ensures ptr < len ==> Logical(s, ptr, len) == s[|s| - (len - ptr)..] + s[..ptr]
  {
    var r := Logical(s, ptr, len);
    if ptr < len {
      var t := s[|s| - (len - ptr)..] + s[..ptr];
      assert |t| == len;
      forall i | 0 <= i < len ensures r[i] == t[i] {
        if i < len - ptr {
          assert t[i] == s[|s| - (len - ptr) + i];
        } else {
          assert t[i] == s[i - (len - ptr)];
        }
      }
    }
  }

  /** The last `c` elements of `xs`, or all of them when there are fewer. */
  function Window<T>(xs: seq<T>, c: nat): (r: seq<T>)
    ensures |r| == Min(|xs|, c)
  {
    if |xs| <= c then xs else xs[|xs| - c..]
  }

  /** One `add` of `t`: the slot under the cursor is overwritten, the cursor
      advances modulo `c` and the length grows up to `c`. The logical contents
      become the old ones followed by `t`, the oldest dropped once full. */
  lemma {:induction false} AddStep<T>(s: seq<T>, ptr: nat, len: nat, t: T)
    requires |s| > 0 && Fits(|s|, ptr, len)
    ensures Fits(|s|, (ptr + 1) % |s|, Min(len + 1, |s|))
    ensures Logical(s[ptr := t], (ptr + 1) % |s|, Min(len + 1, |s|)) == Window(Logical(s, ptr, len) + [t], |s|)
  {
    var c := |s|;
    ModBelowTwice(ptr + 1, c);
    var ptr', len' := (ptr + 1) % c, Min(len + 1, c);
    var s' := s[ptr := t];
    var old_ := Logical(s, ptr, len);
    var new_ := Logical(s', ptr', len');
    var w := Window(old_ + [t], c);
    assert |new_| == |w|;
    forall i | 0 <= i < len' ensures new_[i] == w[i] {
      if len < c {
        // nothing is evicted: index i keeps its slot, the new element sits at `ptr`
        assert w == old_ + [t];
        if i < len {
          assert Slot(c, ptr', len', i) == Slot(c, ptr, len, i) != ptr;
        } else {
          assert Slot(c, ptr', len', i) == ptr;
        }
      } else {
        // full: index i now lives where index i + 1 lived, and the last index at `ptr`
        assert w == (old_ + [t])[1..];
        if i < c - 1 {
          assert Slot(c, ptr', len', i) == Slot(c, ptr, len, i + 1) != ptr;
        } else {
          assert Slot(c, ptr', len', i) == ptr;
        }
      }
    }
  }

  /** When the buffer is full, the index one past the end (accepted by `get`)
      names the same slot as index 0; in every case it names the cursor's slot. */
  lemma PastEndSlot(c: nat, ptr: nat, len: nat)
    requires c > 0 && Fits(c, ptr, len)
    ensures Slot(c, ptr, len, len) == ptr
    ensures len == c ==> Slot(c, ptr, len, len) == Slot(c, ptr, len, 0)
  {
  }

  /** The logical contents after adding the elements of `xs` one by one. */
  function Replay<T>(start: seq<T>, xs: seq<T>, c: nat): seq<T>
    decreases |xs|
  {
    if xs == [] then start else Replay(Window(start + [xs[0]], c), xs[1..], c)
  }

  /** Adding `xs` to contents `start` leaves the last `c` elements of `start ++ xs`. */
  lemma {:induction false} ReplayIsWindow<T>(start: seq<T>, xs: seq<T>, c: nat)
    requires |start| <= c
    ensures Replay(start, xs, c) == Window(start + xs, c)
    decreases |xs|
  {
    if xs == [] {
      assert start + xs == start;
    } else {
      var grown := start + [xs[0]];
      var w := Window(grown, c);
      assert Replay(start, xs, c) == Replay(w, xs[1..], c);
      assert Replay(w, xs[1..], c) == Window(grown + xs[1..], c) by {
        ReplayIsWindow(w, xs[1..], c);
        WindowOfWindowMany(grown, xs[1..], c);
      }
      assert grown + xs[1..] == start + xs;
    }
  }

  /** Trimming the front early does not change the final window. */
  lemma {:induction false} WindowOfWindowMany<T>(a: seq<T>, ys: seq<T>, c: nat)
    ensures Window(Window(a, c) + ys, c) == Window(a + ys, c)
  {
    if |a| > c {
      var w := a[|a| - c..];
      assert a + ys == a[..|a| - c] + (w + ys);
      assert (a + ys)[|a + ys| - Min(|a + ys|, c)..] == (w + ys)[|w + ys| - Min(|w + ys|, c)..];
    }
  }

  /** Starting from an empty buffer: as long as no more than `c` elements were added
      the contents are exactly those elements in order; after `c + k` adds the
      contents are the last `c`, so index 0 holds the `(k+1)`-th element added and
      index `c - 1` the latest. */
  lemma {:induction false} ReplayFromEmpty<T>(xs: seq<T>, c: nat)
    ensures |xs| <= c ==> Replay([], xs, c) == xs
    ensures c > 0 && |xs| >= c ==>
              |Replay([], xs, c)| == c &&
              Replay([], xs, c)[0] == xs[|xs| - c] &&
              Replay([], xs, c)[c - 1] == xs[|xs| - 1]
  {
    ReplayIsWindow([], xs, c);
    assert [] + xs == xs;
  }

  /** Capacity 3 with adds of 10, 20, 30, 40 retains 20, 30, 40. */
  lemma ReplayExample()
    ensures Replay([], [10, 20, 30, 40], 3) == [20, 30, 40]
  {
    ReplayFromEmpty([10, 20, 30, 40], 3);
  }

  /** Two equally long add sequences leave the same contents exactly when they
      agree on the retained part: a changed value breaks equality only while it
      is still among the last `c` added. */
  lemma {:induction false} ReplaySameIff<T>(xs: seq<T>, ys: seq<T>, c: nat)
    requires |xs| == |ys|
    ensures Replay([], xs, c) == Replay([], ys, c) <==>
              forall j :: |xs| - Min(|xs|, c) <= j < |xs| ==> xs[j] == ys[j]
  {
    ReplayIsWindow([], xs, c);
    ReplayIsWindow([], ys, c);
    assert [] + xs == xs && [] + ys == ys;
    var m := Min(|xs|, c);
    var wx, wy := Window(xs, c), Window(ys, c);
    if wx == wy {
      forall j | |xs| - m <= j < |xs| ensures xs[j] == ys[j] {
        assert xs[j] == wx[j - (|xs| - m)] && ys[j] == wy[j - (|xs| - m)];
      }
    }
  }
}
