/** The byte ring between the application and the TCP send path (node_main/circular_buffer.cpp). */
module CircularBuffers {
  import opened Sequences

  /** memcpy between distinct buffers. */
  method Memcpy(dst: array<bv8>, d: nat, src: array<bv8>, s: nat, n: nat)
    requires dst != src && d + n <= dst.Length && s + n <= src.Length
    modifies dst
    ensures dst[..] == old(dst[..d]) + src[s..s + n] + old(dst[d + n..])
  {
    forall k | 0 <= k < n {
      dst[d + k] := src[s + k];
    }
  }

  /** What a ring of the given indices holds, oldest byte first. */
  function Window<T>(data: seq<T>, beg: nat, size: nat): (s: seq<T>)
    requires beg <= |data| && size <= |data|
    ensures |s| == size
  {
    if beg + size <= |data| then data[beg..beg + size] else data[beg..] + data[..beg + size - |data|]
  }

  /** An index moved n places round a ring of capacity cap. */
  function Wrapped(i: nat, n: nat, cap: nat): nat
    requires n <= cap
  {
    if i + n >= cap then i + n - cap else i + n
  }

  function Min(a: nat, b: nat): (m: nat) { if a < b then a else b }

  lemma WindowAt<T>(data: seq<T>, beg: nat, size: nat, j: nat)
    requires beg <= |data| && size <= |data| && j < size
    requires beg < |data|
    ensures Wrapped(beg, j, |data|) < |data|
    ensures Window(data, beg, size)[j] == data[Wrapped(beg, j, |data|)]
  {
  }

  /** data' is data with xs written from end on, going round at the end of the array. */
  ghost predicate WroteRound<T>(data: seq<T>, data': seq<T>, end: nat, xs: seq<T>)
    requires |data| == |data'| && end <= |data| && |xs| <= |data|
  {
    if end + |xs| <= |data| then data' == data[..end] + xs + data[end + |xs|..]
    else data' == xs[|data| - end..] + data[end + |xs| - |data|..end] + xs[..|data| - end]
  }

  lemma WroteAt<T>(data: seq<T>, data': seq<T>, end: nat, xs: seq<T>, p: nat)
    requires |data| == |data'| && end <= |data| && |xs| <= |data| && p < |data|
    requires WroteRound(data, data', end, xs)
    ensures data'[p] == if end <= p < end + |xs| then xs[p - end]
                        else if p + |data| < end + |xs| then xs[p + |data| - end]
                        else data[p]
  {
  }

  /** Storing xs after the window, across the end of the array if need be, appends them. */
  lemma WindowGrows<T>(data: seq<T>, data': seq<T>, beg: nat, size: nat, xs: seq<T>)
    requires beg <= |data| == |data'| && size + |xs| <= |data| && (beg < |data| || |data| == 0)
    requires WroteRound(data, data', Wrapped(beg, size, |data|), xs)
    ensures Window(data', beg, size + |xs|) == Window(data, beg, size) + xs
  {
    var w, w' := Window(data, beg, size) + xs, Window(data', beg, size + |xs|);
    forall j | 0 <= j < size + |xs| ensures w'[j] == w[j] {
      if j < size {
        OldStays(data, data', beg, size, xs, j);
      } else {
        NewThere(data, data', beg, size, xs, j - size);
      }
    }
  }

  lemma OldStays<T>(data: seq<T>, data': seq<T>, beg: nat, size: nat, xs: seq<T>, j: nat)
    requires beg < |data| == |data'| && size + |xs| <= |data| && j < size
    requires WroteRound(data, data', Wrapped(beg, size, |data|), xs)
    ensures Window(data', beg, size + |xs|)[j] == Window(data, beg, size)[j]
  {
    WindowAt(data', beg, size + |xs|, j);
    WroteAt(data, data', Wrapped(beg, size, |data|), xs, Wrapped(beg, j, |data|));
    WindowAt(data, beg, size, j);
  }

  lemma NewThere<T>(data: seq<T>, data': seq<T>, beg: nat, size: nat, xs: seq<T>, k: nat)
    requires beg < |data| == |data'| && size + |xs| <= |data| && k < |xs|
    requires WroteRound(data, data', Wrapped(beg, size, |data|), xs)
    ensures Window(data', beg, size + |xs|)[size + k] == xs[k]
  {
    var end, p := Wrapped(beg, size, |data|), Wrapped(beg, size + k, |data|);
    WindowAt(data', beg, size + |xs|, size + k);
    WroteAt(data, data', end, xs, p);
    assert p == if end + k < |data| then end + k else end + k - |data|;
  }

  /** Dropping the first n bytes of the window moves its start. */
  lemma WindowShrinks<T>(data: seq<T>, beg: nat, size: nat, n: nat)
    requires beg < |data| && n <= size <= |data|
    ensures Wrapped(beg, n, |data|) < |data| || n == |data|
    ensures Window(data, beg, size)[..n] == Window(data, beg, n)
    ensures Window(data, Wrapped(beg, n, |data|), size - n) == Window(data, beg, size)[n..]
  {
    var c := Wrapped(beg, n, |data|);
    forall j | 0 <= j < n ensures Window(data, beg, size)[j] == Window(data, beg, n)[j] {
      WindowAt(data, beg, size, j);
      WindowAt(data, beg, n, j);
    }
    var tail := Window(data, beg, size)[n..];
    forall j | 0 <= j < size - n ensures Window(data, c, size - n)[j] == tail[j] {
      WindowAt(data, c, size - n, j);
      WindowAt(data, beg, size, n + j);
    }
  }

  lemma TwoReads<T>(was: seq<T>, mid: seq<T>, now: seq<T>, x: seq<T>, y: seq<T>)
    requires |x| + |y| <= |was|
    requires mid == x + was[|x|..] && now == mid[..|x|] + y + mid[|x| + |y|..]
    ensures now == x + y + was[|x| + |y|..]
  {
    assert mid[..|x|] == x && mid[|x| + |y|..] == was[|x| + |y|..];
  }

  /** The two steps of a write round the end are one write round the end. */
  lemma TwoSteps<T>(data: seq<T>, mid: seq<T>, data': seq<T>, end: nat, xs: seq<T>)
    requires |data| == |mid| == |data'| && end <= |data| && |xs| <= |data| < end + |xs|
    requires mid == data[..end] + xs[..|data| - end]
    requires data' == xs[|data| - end..] + mid[end + |xs| - |data|..]
    ensures WroteRound(data, data', end, xs)
  {
  }

  lemma OneRead<T>(was: seq<T>, now: seq<T>, data: seq<T>, beg: nat, n: nat)
    requires beg + n <= |data| && n <= |was|
    requires now == was[..0] + data[beg..beg + n] + was[n..]
    ensures now == Window(data, beg, n) + was[n..]
  {
  }

  lemma RoundRead<T>(was: seq<T>, mid: seq<T>, now: seq<T>, data: seq<T>, beg: nat, n: nat)
    requires beg <= |data| < beg + n && n <= |data| && n <= |was| == |mid|
    requires var k := |data| - beg;
             && mid == was[..0] + data[beg..] + was[k..]
             && now == mid[..k] + data[..n - k] + mid[n..]
    ensures now == Window(data, beg, n) + was[n..]
  {
    assert was[..0] + data[beg..] == data[beg..];
    TwoReads(was, mid, now, data[beg..], data[..beg + n - |data|]);
  }

  lemma WrapTwice(i: nat, m: nat, n: nat, cap: nat)
    requires m + n <= cap && (i < cap || i == cap == 0)
    ensures Wrapped(Wrapped(i, m, cap), n, cap) == Wrapped(i, m + n, cap)
  {
  }

  class CircularBuffer {
    var begIndex: nat
    var endIndex: nat
    var size: nat
    const capacity: nat
    const data: array<bv8>

    ghost predicate Valid()
      reads this
    {
      && data.Length == capacity
      && size <= capacity
      && (if capacity == 0 then begIndex == 0 else begIndex < capacity)
      && endIndex == Wrapped(begIndex, size, capacity)
    }

    ghost function Contents(): (s: seq<bv8>)
      requires Valid()
      reads this, data
      ensures |s| == size
    {
      Window(data[..], begIndex, size)
    }

    constructor (capacity: nat)
      ensures Valid() && fresh(data) && this.capacity == capacity && Contents() == []
    {
      begIndex, endIndex, size := 0, 0, 0;
      this.capacity := capacity;
      data := new bv8[capacity];
    }

    /** memcpy into the ring at its end, in one step or two. */
    method CopyIn(src: array<bv8>, n: nat)
      requires data.Length == capacity && endIndex <= capacity && n <= capacity && n <= src.Length && src != data
      modifies this`endIndex, data
      ensures endIndex == Wrapped(old(endIndex), n, capacity)
      ensures WroteRound(old(data[..]), data[..], old(endIndex), src[..n])
    {
      ghost var was, xs := data[..], src[..n];
      if n <= capacity - endIndex {
        Memcpy(data, endIndex, src, 0, n);
        assert src[0..0 + n] == xs;
        endIndex := endIndex + n;
        if endIndex == capacity {
          endIndex := 0;
        }
      } else {
        var size1 := capacity - endIndex;
        Memcpy(data, endIndex, src, 0, size1);
        ghost var mid := data[..];
        var size2 := n - size1;
        Memcpy(data, 0, src, size1, size2);
        assert src[0..0 + size1] == xs[..size1] && src[size1..size1 + size2] == xs[size1..];
        TwoSteps(was, mid, data[..], endIndex, xs);
        endIndex := size2;
      }
    }

    /** memcpy out of the ring from its beginning, in one step or two. */
    method CopyOut(dst: array<bv8>, n: nat)
      requires data.Length == capacity && begIndex <= capacity && n <= capacity && n <= dst.Length && dst != data
      modifies this`begIndex, dst
      ensures begIndex == Wrapped(old(begIndex), n, capacity)
      ensures dst[..] == Window(data[..], old(begIndex), n) + old(dst[n..])
    {
      ghost var was, held, beg := dst[..], data[..], begIndex;
      if n <= capacity - begIndex {
        Memcpy(dst, 0, data, begIndex, n);
        assert data[..] == held;
        OneRead(was, dst[..], held, beg, n);
        begIndex := begIndex + n;
        if begIndex == capacity {
          begIndex := 0;
        }
      } else {
        var size1 := capacity - begIndex;
        Memcpy(dst, 0, data, begIndex, size1);
        assert data[..] == held && data[beg..beg + size1] == held[beg..];
        ghost var mid := dst[..];
        var size2 := n - size1;
        Memcpy(dst, size1, data, 0, size2);
        assert data[..] == held && data[0..0 + size2] == held[..size2];
        RoundRead(was, mid, dst[..], held, beg, n);
        begIndex := size2;
      }
    }

    /** Stores bytes there is room for. */
    method Append(src: array<bv8>, n: nat)
      requires Valid() && n <= capacity - size && n <= src.Length && src != data
      modifies this`endIndex, this`size, data
      ensures Valid() && size == old(size) + n
      ensures Contents() == old(Contents()) + src[..n]
    {
      ghost var was, xs := data[..], src[..n];
      WrapTwice(begIndex, size, n, capacity);
      CopyIn(src, n);
      WindowGrows(was, data[..], begIndex, size, xs);
      size := size + n;
    }

    /** Stores as many of the bytes as there is room for, and says how many. */
    method Write(src: array<bv8>, bytes: nat) returns (n: nat)
      requires Valid() && bytes <= src.Length && src != data
      modifies this`endIndex, this`size, data
      ensures Valid() && n == Min(bytes, capacity - old(size))
      ensures Contents() == old(Contents()) + src[..n]
    {
      if bytes == 0 {
        NothingAfter(Contents());
        return 0;
      }
      n := if bytes < capacity - size then bytes else capacity - size;
      Append(src, n);
    }

    /** Takes as many bytes as asked for and held, oldest first, and says how many. */
    method Read(dst: array<bv8>, bytes: nat) returns (n: nat)
      requires Valid() && bytes <= dst.Length && dst != data
      modifies this`begIndex, this`size, dst
      ensures Valid() && n == Min(bytes, old(size))
      ensures dst[..] == old(Contents())[..n] + old(dst[n..])
      ensures Contents() == old(Contents())[n..]
    {
      if bytes == 0 {
        return 0;
      }
      n := if bytes < size then bytes else size;
      if capacity > 0 {
        WindowShrinks(data[..], begIndex, size, n);
      }
      WrapTwice(begIndex, n, size - n, capacity);
      CopyOut(dst, n);
      size := size - n;
    }
  }
}
