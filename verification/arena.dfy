/**
 * The codec module's linear memory and the helpers the host uses on it:
 * the module exports `malloc` and `heap_reset`, and the host-side
 * `allocBytes`, `allocInts`, `readInts`, `readBytes` and `freeBytes`.
 *
 * Memory is seen through its live regions: each region is known by its start
 * address and holds its bytes. A byte outside every live region is never
 * read by a correct caller, so this model does not keep it; a read that
 * leaves the live regions is reported as such. The allocator is a cursor
 * that `heap_reset` moves back to the heap base and `malloc` advances.
 */
module LinearMemory {
  import opened Int32Words
  import opened Images

  /** The lowest address `malloc` hands out; address 0 stays the null pointer. */
  const HEAP_BASE: int := 8

  /** The bytes a region of `size` bytes occupies; an empty region still owns its address. */
  function Extent(size: nat): nat {
    if size == 0 then 1 else size
  }

  /** Two 4-byte words that share no byte. */
  predicate WordsApart(a: int, b: int) {
    a + 4 <= b || b + 4 <= a
  }

  /** `s` with the bytes from `off` on replaced by `b`. */
  function Splice(s: seq<byte>, off: nat, b: seq<byte>): (r: seq<byte>)
    requires off + |b| <= |s|
    ensures |r| == |s|
    ensures r[off .. off + |b|] == b
    ensures forall i :: 0 <= i < |s| && !(off <= i < off + |b|) ==> r[i] == s[i]
  {
    s[..off] + b + s[off + |b|..]
  }

  /** Splicing in no bytes changes nothing. */
  lemma SpliceNothing(s: seq<byte>, off: nat, b: seq<byte>)
    requires off <= |s| && b == []
    ensures Splice(s, off, b) == s
  {
    assert s[..off] + s[off..] == s;
  }

  /** A second update of the same key overrides the first. */
  lemma UpdateTwice(m: map<int, seq<byte>>, k: int, a: seq<byte>, b: seq<byte>)
    ensures m[k := a][k := b] == m[k := b]
  {
    assert m[k := a][k := b].Keys == m[k := b].Keys;
  }

  class Arena {
    /** The live regions: start address to the bytes the region holds. */
    var regions: map<int, seq<byte>>
    /** The allocator cursor: everything at or above it is unused. */
    var top: int

    /** Regions `p` and `q`, when both are live, share no address. */
    predicate Apart(p: int, q: int)
      reads this
    {
      p in regions && q in regions ==> p + Extent(|regions[p]|) <= q || q + Extent(|regions[q]|) <= p
    }

    /** Region `p`, when live, lies between the heap base and the cursor. */
    predicate Placed(p: int)
      reads this
    {
      p in regions ==> HEAP_BASE <= p && p + Extent(|regions[p]|) <= top
    }

    /** No live region is null, lies past the cursor, or overlaps another. */
    ghost predicate Valid()
      reads this
    {
      && HEAP_BASE <= top
      && (forall p {:trigger Placed(p)} :: Placed(p))
      && (forall p, q {:trigger Apart(p, q)} :: p != q ==> Apart(p, q))
    }

    constructor ()
      ensures Valid() && regions == map[]
    {
      regions := map[];
      top := HEAP_BASE;
    }

    /** The range [p, p + len) lies inside live region `q`. */
    predicate Within(q: int, p: int, len: int)
      reads this
    {
      q in regions && q <= p && 0 <= len && p + len <= q + |regions[q]|
    }

    /** A non-empty range lies inside at most one live region. */
    lemma WithinUnique(q1: int, q2: int, p: int, len: int)
      requires Valid() && Within(q1, p, len) && Within(q2, p, len) && 0 < len
      ensures q1 == q2
    {
      assert q1 == q2 || Apart(q1, q2);
    }

    /** The `len` bytes from address `p`, inside live region `q`. */
    function BytesAt(q: int, p: int, len: int): (r: seq<byte>)
      reads this
      requires Within(q, p, len)
      ensures |r| == len
    {
      regions[q][p - q .. p - q + len]
    }

    /** The `Int` stored at address `a`, inside live region `q`. */
    function WordAt(q: int, a: int): i32
      reads this
      requires Within(q, a, 4)
    {
      DecodeWord(BytesAt(q, a, 4))
    }

    /** Word `i` of a run of `n` words inside a live region is the word at `p + 4 * i`. */
    lemma WordsAt(q: int, p: int, n: nat)
      requires Within(q, p, 4 * n)
      ensures forall i :: 0 <= i < n ==> DecodeWords(BytesAt(q, p, 4 * n))[i] == WordAt(q, p + 4 * i)
    {
      forall i | 0 <= i < n
        ensures DecodeWords(BytesAt(q, p, 4 * n))[i] == WordAt(q, p + 4 * i)
      {
        assert Within(q, p + 4 * i, 4);
        var w := BytesAt(q, p, 4 * n)[4 * i .. 4 * i + 4];
        assert forall j :: 0 <= j < 4 ==> w[j] == regions[q][p - q + 4 * i + j];
        assert w == BytesAt(q, p + 4 * i, 4);
      }
    }

    /** The module reading the `len` bytes at `p`, inside live region `q`. */
    method Fetch(p: int, len: int, ghost q: int) returns (b: seq<byte>)
      requires Valid() && Within(q, p, len)
      ensures b == BytesAt(q, p, len)
    {
      var r :| r in regions && Within(r, p, len);
      assert Within(r, p, len);
      if 0 < len {
        WithinUnique(q, r, p, len);
      }
      b := BytesAt(r, p, len);
    }

    /** `heap_reset`: every allocation is forgotten at once. */
    method HeapReset()
      requires Valid()
      modifies this
      ensures Valid() && regions == map[]
    {
      top := HEAP_BASE;
      regions := map[];
    }

    /**
     * `malloc`: a new live region of `size` bytes, apart from every other live
     * region; what it holds is unspecified.
     */
    method Malloc(size: nat) returns (p: int)
      requires Valid()
      modifies this
      ensures Valid()
      ensures HEAP_BASE <= p && p !in old(regions)
      ensures p in regions && |regions[p]| == size && regions == old(regions)[p := regions[p]]
    {
      p := top;
      assert Placed(p);
      top := top + Extent(size);
      regions := regions[p := seq(size, _ => 0)];
      forall a
        ensures Placed(a)
      {
        assert old(Placed(a));
      }
      forall a, b | a != b
        ensures Apart(a, b)
      {
        assert old(Placed(a)) && old(Placed(b));
        if a != p && b != p {
          assert old(Apart(a, b));
        }
      }
    }

    /** The module writing `bytes` at `a`, inside live region `q`; no other byte changes. */
    method Store(a: int, bytes: seq<byte>, ghost q: int)
      requires Valid() && Within(q, a, |bytes|)
      modifies this
      ensures Valid() && top == old(top)
      ensures regions == old(regions)[q := Splice(old(regions[q]), a - q, bytes)]
    {
      var r :| r in regions && Within(r, a, |bytes|);
      assert Within(r, a, |bytes|);
      if 0 < |bytes| {
        WithinUnique(q, r, a, |bytes|);
        regions := regions[r := Splice(regions[r], a - r, bytes)];
        forall x
          ensures Placed(x)
        {
          assert old(Placed(x));
        }
        forall x, y | x != y
          ensures Apart(x, y)
        {
          assert old(Apart(x, y));
        }
      } else {
        SpliceNothing(regions[q], a - q, bytes);
        assert regions == regions[q := regions[q]];
      }
    }

    /** The module writing the `Int` `v` at `a`, inside live region `q`; other words of `q` keep their values. */
    method StoreWord(a: int, v: i32, ghost q: int)
      requires Valid() && Within(q, a, 4)
      modifies this
      ensures Valid() && top == old(top)
      ensures q in regions && |regions[q]| == |old(regions[q])| && regions == old(regions)[q := regions[q]]
      ensures WordAt(q, a) == v
      ensures forall x :: Within(q, x, 4) && WordsApart(a, x) ==> WordAt(q, x) == old(WordAt(q, x))
    {
      ghost var s := regions[q];
      Store(a, EncodeWord(v), q);
      DecodeEncodeWord(v);
      forall x | Within(q, x, 4) && WordsApart(a, x)
        ensures WordAt(q, x) == old(WordAt(q, x))
      {
        assert BytesAt(q, x, 4) == s[x - q .. x - q + 4];
      }
    }

    /** The module storing three `Int`s at three separate words of live region `q`. */
    method StoreWords3(xPtr: int, yPtr: int, zPtr: int, x: i32, y: i32, z: i32, ghost q: int)
      requires Valid() && Within(q, xPtr, 4) && Within(q, yPtr, 4) && Within(q, zPtr, 4)
      requires WordsApart(xPtr, yPtr) && WordsApart(xPtr, zPtr) && WordsApart(yPtr, zPtr)
      modifies this
      ensures Valid() && top == old(top)
      ensures q in regions && |regions[q]| == |old(regions[q])| && regions == old(regions)[q := regions[q]]
      ensures WordAt(q, xPtr) == x && WordAt(q, yPtr) == y && WordAt(q, zPtr) == z
    {
      ghost var r0 := regions;
      StoreWord(xPtr, x, q);
      ghost var r1 := regions;
      StoreWord(yPtr, y, q);
      UpdateTwice(r0, q, r1[q], regions[q]);
      ghost var r2 := regions;
      StoreWord(zPtr, z, q);
      UpdateTwice(r0, q, r2[q], regions[q]);
    }

    /** `allocBytes(bytes)`: a new live region holding a copy of `bytes`. */
    method AllocBytes(bytes: seq<byte>) returns (p: int)
      requires Valid()
      modifies this
      ensures Valid()
      ensures HEAP_BASE <= p && p !in old(regions) && regions == old(regions)[p := bytes]
    {
      p := Malloc(|bytes|);
      ghost var blank := regions[p];
      Store(p, bytes, p);
      assert Splice(blank, 0, bytes) == bytes;
    }

    /** `allocBytes(size)`: a new live region of `size` bytes whose contents are unspecified. */
    method AllocBytesOfSize(size: nat) returns (p: int)
      requires Valid()
      modifies this
      ensures Valid()
      ensures HEAP_BASE <= p && p !in old(regions)
      ensures p in regions && |regions[p]| == size && regions == old(regions)[p := regions[p]]
    {
      p := Malloc(size);
    }

    /** `allocInts(values)`: a new live region holding the words of `values`. */
    method AllocInts(values: seq<i32>) returns (p: int)
      requires Valid()
      modifies this
      ensures Valid()
      ensures HEAP_BASE <= p && p !in old(regions) && regions == old(regions)[p := EncodeWords(values)]
    {
      p := AllocBytes(EncodeWords(values));
    }

    /** `allocInts(count)`: a new live region of `count` words whose contents are unspecified. */
    method AllocIntsOfCount(count: nat) returns (p: int)
      requires Valid()
      modifies this
      ensures Valid()
      ensures HEAP_BASE <= p && p !in old(regions)
      ensures p in regions && |regions[p]| == 4 * count && regions == old(regions)[p := regions[p]]
    {
      p := Malloc(4 * count);
    }

    /**
     * `readInts(p, n)`: the `n` words from `p` on, or a boundary violation (`None`)
     * when they do not lie inside one live region. Stated for reads that start at
     * the start of a live region, the only reads the host makes.
     */
    method ReadInts(p: int, n: int) returns (r: Option<seq<i32>>)
      requires Valid()
      ensures p in regions ==> (r.Some? <==> 0 <= n && 4 * n <= |regions[p]|)
      ensures p in regions && r.Some? ==> Within(p, p, 4 * n) && r.value == DecodeWords(BytesAt(p, p, 4 * n))
    {
      if 0 <= n && exists q :: q in regions && Within(q, p, 4 * n) {
        var q :| q in regions && Within(q, p, 4 * n);
        assert Within(q, p, 4 * n);
        r := Some(DecodeWords(BytesAt(q, p, 4 * n)));
        if p in regions && 0 < n {
          assert q == p || Apart(q, p);
        }
      } else {
        r := None;
        if p in regions && 0 <= n {
          assert !Within(p, p, 4 * n);
        }
      }
    }

    /**
     * `readBytes(p, n)`: the `n` bytes from `p` on, or a boundary violation (`None`)
     * when they do not lie inside one live region. Stated for reads that start at
     * the start of a live region, the only reads the host makes.
     */
    method ReadBytes(p: int, n: int) returns (r: Option<seq<byte>>)
      requires Valid()
      ensures p in regions ==> (r.Some? <==> 0 <= n && n <= |regions[p]|)
      ensures p in regions && r.Some? ==> Within(p, p, n) && r.value == BytesAt(p, p, n)
    {
      if 0 <= n && exists q :: q in regions && Within(q, p, n) {
        var q :| q in regions && Within(q, p, n);
        assert Within(q, p, n);
        r := Some(BytesAt(q, p, n));
        if p in regions && 0 < n {
          assert q == p || Apart(q, p);
        }
      } else {
        r := None;
        if p in regions && 0 <= n {
          assert !Within(p, p, n);
        }
      }
    }

    /**
     * `freeBytes(ptrs...)`: each pointer must start a live region and none may
     * be given twice (a second `free` of the same block is not allowed); exactly
     * those regions stop being live.
     */
    method FreeBytes(ptrs: seq<int>)
      requires Valid()
      requires forall p :: p in ptrs ==> p in regions
      requires forall i, j :: 0 <= i < j < |ptrs| ==> ptrs[i] != ptrs[j]
      modifies this
      ensures Valid() && regions == old(regions) - (set p | p in ptrs)
    {
      regions := regions - (set p | p in ptrs);
      forall x
        ensures Placed(x)
      {
        assert old(Placed(x));
      }
      forall x, y | x != y
        ensures Apart(x, y)
      {
        assert old(Apart(x, y));
      }
    }
  }
}
