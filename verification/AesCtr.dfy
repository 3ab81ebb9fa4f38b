/**
 * The counter mode of node_main/polarssl/aes.c (section 6.5 of NIST SP 800-38A), which
 * keeps an offset, the next counter block and the current key stream block between calls.
 */
module AesCtr {
  import opened AesTables
  import opened Aes
  import opened AesModes
  import opened Sequences

  // ----- the counter block as a number

  /** The bytes of a block read as one big-endian number. */
  function BigEndian(b: seq<bv8>): nat {
    if b == [] then 0 else 256 * BigEndian(b[..|b| - 1]) + b[|b| - 1] as int
  }

  function Pow256(n: nat): (p: nat)
    ensures p > 0
  {
    if n == 0 then 1 else 256 * Pow256(n - 1)
  }

  lemma {:induction false} BigEndianBound(b: seq<bv8>)
    ensures BigEndian(b) < Pow256(|b|)
  {
    if b != [] { BigEndianBound(b[..|b| - 1]); }
  }

  lemma {:induction false} BigEndianInjective(a: seq<bv8>, b: seq<bv8>)
    requires |a| == |b| && BigEndian(a) == BigEndian(b)
    ensures a == b
  {
    if a != [] {
      var x, y := a[|a| - 1], b[|b| - 1];
      SameDigits(BigEndian(a[..|a| - 1]), BigEndian(b[..|b| - 1]), x as int, y as int);
      IndexOfByte(x);
      IndexOfByte(y);
      BigEndianInjective(a[..|a| - 1], b[..|b| - 1]);
      LastOff(a);
      LastOff(b);
    }
  }

  lemma SameDigits(u: int, v: int, x: int, y: int)
    requires 0 <= x < 256 && 0 <= y < 256 && 256 * u + x == 256 * v + y
    ensures u == v && x == y
  {
  }

  /** One more, with carries, dropping the last carry out. */
  function Increment(b: seq<bv8>): (r: seq<bv8>)
    ensures |r| == |b|
  {
    if b == [] then []
    else if b[|b| - 1] + 1 != 0 then b[..|b| - 1] + [b[|b| - 1] + 1]
    else Increment(b[..|b| - 1]) + [0]
  }

  lemma BelowModulus(v: nat, p: nat)
    requires v < p
    ensures v % p == v
  {
  }

  lemma NoCarry(v: nat, x: nat, p: nat)
    requires v < p && x < 255
    ensures (256 * v + x + 1) % (256 * p) == 256 * v + (x + 1)
  {
    assert 256 * (v + 1) <= 256 * p;
    BelowModulus(256 * v + x + 1, 256 * p);
  }

  lemma Carry(v: nat, p: nat)
    requires v < p
    ensures (256 * v + 255 + 1) % (256 * p) == 256 * ((v + 1) % p)
  {
    if v + 1 < p {
      BelowModulus(v + 1, p);
      BelowModulus(256 * (v + 1), 256 * p);
    } else {
      assert (v + 1) % p == 0;
      assert 256 * v + 255 + 1 == 256 * p;
      assert (256 * p) % (256 * p) == 0;
    }
  }

  /** The counter advances by one modulo 2^(8 * length). */
  lemma {:induction false} IncrementAdds(b: seq<bv8>)
    ensures BigEndian(Increment(b)) == (BigEndian(b) + 1) % Pow256(|b|)
  {
    if b != [] {
      var front, x := b[..|b| - 1], b[|b| - 1];
      var v, p := BigEndian(front), Pow256(|front|);
      LastOff(b);
      BigEndianBound(front);
      if x + 1 != 0 {
        BigEndianSnoc(front, x);
        BigEndianSnoc(front, x + 1);
        ByteUp(x);
        NoCarry(v, x as int, p);
      } else {
        BigEndianSnoc(front, x);
        BigEndianSnoc(Increment(front), 0);
        ByteUp(x);
        IncrementAdds(front);
        Carry(v, p);
      }
    }
  }

  lemma BigEndianSnoc(b: seq<bv8>, x: bv8)
    ensures BigEndian(b + [x]) == 256 * BigEndian(b) + x as int
  {
    assert (b + [x])[..|b|] == b;
  }

  /** The source's increment loop: from the last byte up, until one does not wrap. */
  method BumpCounter(a: array<bv8>)
    modifies a
    ensures a[..] == Increment(old(a[..]))
  {
    ghost var was := a[..];
    var i := a.Length;
    assert was[..i] == was && a[i..] == [];
    while i > 0
      invariant 0 <= i <= a.Length
      invariant a[..i] == was[..i]
      invariant Increment(was) == Increment(was[..i]) + a[i..]
    {
      ghost var front := was[..i];
      assert front[..i - 1] == was[..i - 1] && front[i - 1] == was[i - 1] == a[i - 1];
      ghost var tail := a[i..];
      a[i - 1] := a[i - 1] + 1;
      assert a[i - 1..] == [a[i - 1]] + tail;
      if a[i - 1] != 0 {
        assert a[..] == a[..i - 1] + a[i - 1..];
        return;
      }
      i := i - 1;
    }
    assert a[..] == a[0..];
  }

  // ----- the stream

  /** The offset into the key stream block, the next counter block, and the block in use. */
  datatype Stream = Stream(n: nat, counter: Block, block: Block)

  ghost predicate InStream(s: Stream) { s.n < 16 }

  /** The state with its block ready for the next byte: a new block at the start of each. */
  function Primed(e: Block -> Block, s: Stream): (s': Stream)
    ensures s'.n == s.n
  {
    if s.n == 0 then Stream(0, Increment(s.counter), e(s.counter)) else s
  }

  function CtrByte(e: Block -> Block, s: Stream, x: bv8): bv8
    requires InStream(s)
  {
    x ^ Primed(e, s).block[s.n]
  }

  function CtrNext(e: Block -> Block, s: Stream): (s': Stream)
    requires InStream(s)
    ensures InStream(s')
  {
    Primed(e, s).(n := (s.n + 1) % 16)
  }

  function CtrState(e: Block -> Block, s: Stream, length: nat): (s': Stream)
    requires InStream(s)
    ensures InStream(s')
  {
    if length == 0 then s else CtrNext(e, CtrState(e, s, length - 1))
  }

  function CtrOut(e: Block -> Block, s: Stream, xs: seq<bv8>): (ys: seq<bv8>)
    requires InStream(s)
    ensures |ys| == |xs|
  {
    if xs == [] then []
    else CtrOut(e, s, xs[..|xs| - 1]) + [CtrByte(e, CtrState(e, s, |xs| - 1), xs[|xs| - 1])]
  }

  /** State and output after the bytes xs. */
  ghost predicate CtrDone(e: Block -> Block, s: Stream, xs: seq<bv8>, st: Stream, ys: seq<bv8>)
    requires InStream(s)
  {
    st == CtrState(e, s, |xs|) && ys == CtrOut(e, s, xs)
  }

  lemma CtrOneMore(e: Block -> Block, s: Stream, xs: seq<bv8>, x: bv8, st: Stream, ys: seq<bv8>)
    requires InStream(s) && InStream(st) && CtrDone(e, s, xs, st, ys)
    ensures CtrDone(e, s, xs + [x], CtrNext(e, st), ys + [CtrByte(e, st, x)])
  {
    assert (xs + [x])[..|xs|] == xs;
  }

  /** The last byte of what is done, with the state before it. */
  lemma CtrLast(e: Block -> Block, s: Stream, xs: seq<bv8>, st: Stream, ys: seq<bv8>)
    returns (st0: Stream, ys0: seq<bv8>)
    requires InStream(s) && xs != [] && CtrDone(e, s, xs, st, ys)
    ensures InStream(st0) && CtrDone(e, s, xs[..|xs| - 1], st0, ys0)
    ensures st == CtrNext(e, st0) && ys == ys0 + [CtrByte(e, st0, xs[|xs| - 1])]
  {
    st0, ys0 := CtrState(e, s, |xs| - 1), CtrOut(e, s, xs[..|xs| - 1]);
  }

  lemma {:induction false} CtrJoins(e: Block -> Block, s: Stream, xs: seq<bv8>, ys: seq<bv8>,
                                    st: Stream, us: seq<bv8>, st': Stream, vs: seq<bv8>)
    requires InStream(s) && InStream(st) && CtrDone(e, s, xs, st, us) && CtrDone(e, st, ys, st', vs)
    ensures CtrDone(e, s, xs + ys, st', us + vs)
    decreases |ys|
  {
    if ys == [] {
      assert vs == [];
      NothingAfter(xs);
      NothingAfter(us);
    } else {
      var front, y := ys[..|ys| - 1], ys[|ys| - 1];
      var st1, vs1 := CtrLast(e, st, ys, st', vs);
      CtrJoins(e, s, xs, front, st, us, st1, vs1);
      CtrOneMore(e, s, xs + front, y, st1, us + vs1);
      Regroup(us, vs1, [CtrByte(e, st1, y)]);
      Regroup(xs, front, [y]);
      LastOff(ys);
    }
  }

  /** Cutting a message into two calls changes neither the output nor the final state. */
  lemma CtrSplits(e: Block -> Block, s: Stream, xs: seq<bv8>, ys: seq<bv8>)
    requires InStream(s)
    ensures CtrState(e, s, |xs + ys|) == CtrState(e, CtrState(e, s, |xs|), |ys|)
    ensures CtrOut(e, s, xs + ys) == CtrOut(e, s, xs) + CtrOut(e, CtrState(e, s, |xs|), ys)
  {
    var st := CtrState(e, s, |xs|);
    CtrJoins(e, s, xs, ys, st, CtrOut(e, s, xs), CtrState(e, st, |ys|), CtrOut(e, st, ys));
  }

  function CtrCalls(e: Block -> Block, s: Stream, pieces: seq<seq<bv8>>): (r: (Stream, seq<bv8>))
    requires InStream(s)
    ensures InStream(r.0)
  {
    if pieces == [] then (s, [])
    else
      var (s1, ys) := CtrCalls(e, s, pieces[..|pieces| - 1]);
      (CtrState(e, s1, |pieces[|pieces| - 1]|), ys + CtrOut(e, s1, pieces[|pieces| - 1]))
  }

  /** Any split of a message into calls gives the output and final state of one call. */
  lemma {:induction false} CtrAnySplit(e: Block -> Block, s: Stream, pieces: seq<seq<bv8>>)
    requires InStream(s)
    ensures CtrCalls(e, s, pieces) == (CtrState(e, s, |Joined(pieces)|), CtrOut(e, s, Joined(pieces)))
  {
    if pieces != [] {
      CtrAnySplit(e, s, pieces[..|pieces| - 1]);
      CtrSplits(e, s, Joined(pieces[..|pieces| - 1]), pieces[|pieces| - 1]);
    }
  }

  lemma XorBack(x: bv8, y: bv8)
    ensures (x ^ y) ^ y == x
  {
  }

  lemma ByteUndone(e: Block -> Block, s: Stream, x: bv8)
    requires InStream(s)
    ensures CtrByte(e, s, CtrByte(e, s, x)) == x
  {
    XorBack(x, Primed(e, s).block[s.n]);
  }

  lemma {:induction false} CtrBack(e: Block -> Block, s: Stream, xs: seq<bv8>, st: Stream, ys: seq<bv8>)
    requires InStream(s) && CtrDone(e, s, xs, st, ys)
    ensures CtrDone(e, s, ys, st, xs)
    decreases |xs|
  {
    if xs != [] {
      var front, x := xs[..|xs| - 1], xs[|xs| - 1];
      var st0, ys0 := CtrLast(e, s, xs, st, ys);
      CtrBack(e, s, front, st0, ys0);
      CtrOneMore(e, s, ys0, CtrByte(e, st0, x), st0, front);
      ByteUndone(e, st0, x);
      LastOff(xs);
    }
  }

  /** Counter mode undoes itself, from the same state. */
  lemma CtrUndoesItself(e: Block -> Block, s: Stream, xs: seq<bv8>)
    requires InStream(s)
    ensures CtrOut(e, s, CtrOut(e, s, xs)) == xs
  {
    CtrBack(e, s, xs, CtrState(e, s, |xs|), CtrOut(e, s, xs));
  }

  // ----- the key stream

  /** The counter j blocks on. */
  function CounterAfter(c: seq<bv8>, j: nat): (r: seq<bv8>)
    ensures |r| == |c|
  {
    if j == 0 then c else Increment(CounterAfter(c, j - 1))
  }

  lemma ModStep(a: nat, p: nat)
    requires p > 0
    ensures (a % p + 1) % p == (a + 1) % p
  {
    var q := a / p;
    if a % p + 1 < p {
      BelowModulus(a % p + 1, p);
      Peel(a + 1, q, a % p + 1, p);
    } else {
      Peel(a + 1, q + 1, 0, p);
      assert (a % p + 1) % p == 0;
    }
  }

  lemma Peel(v: nat, q: nat, r: nat, p: nat)
    requires r < p && v == q * p + r
    ensures v % p == r
  {
    var q', r' := v / p, v % p;
    assert v == q' * p + r';
    var d := q - q';
    assert d * p == r' - r;
    if d >= 1 {} else if d <= -1 {}
  }

  /** The counter counts modulo 256 to the power of its length. */
  lemma CounterCounts(c: seq<bv8>, j: nat)
    ensures BigEndian(CounterAfter(c, j)) == (BigEndian(c) + j) % Pow256(|c|)
  {
    CountedTo(c, j, BigEndian(c), Pow256(|c|), CounterAfter(c, j));
  }

  lemma {:induction false} CountedTo(c: seq<bv8>, j: nat, v: nat, p: nat, r: seq<bv8>)
    requires v == BigEndian(c) && p == Pow256(|c|) && r == CounterAfter(c, j)
    ensures BigEndian(r) == (v + j) % p
    decreases j
  {
    if j == 0 {
      BigEndianBound(c);
      BelowModulus(v, p);
    } else {
      var r0 := CounterAfter(c, j - 1);
      CountedTo(c, j - 1, v, p, r0);
      IncrementAdds(r0);
      OneOn(v + j - 1, p, BigEndian(r0), BigEndian(r));
    }
  }

  lemma OneOn(a: nat, p: nat, x: int, y: int)
    requires p > 0 && x == a % p && y == (x + 1) % p
    ensures y == (a + 1) % p
  {
    ModStep(a, p);
  }

  /** How many blocks are begun in length bytes from offset n. */
  function BlocksBegun(n: nat, length: nat): nat {
    (n + length + 15) / 16 - (n + 15) / 16
  }

  lemma CeilStep(u: nat)
    ensures (u + 16) / 16 == (u + 15) / 16 + (if u % 16 == 0 then 1 else 0)
    ensures (u % 16 + 1) % 16 == (u + 1) % 16
  {
    var q, r := u / 16, u % 16;
    assert u == 16 * q + r;
    assert (u + 16) / 16 == q + 1;
    if r == 0 {
      assert (u + 15) / 16 == q;
    } else {
      assert (u + 15) / 16 == q + 1;
    }
  }

  lemma BegunStep(n: nat, length: nat)
    requires length > 0
    ensures BlocksBegun(n, length) == BlocksBegun(n, length - 1) + (if (n + length - 1) % 16 == 0 then 1 else 0)
    ensures ((n + length - 1) % 16 + 1) % 16 == (n + length) % 16
  {
    CeilStep(n + length - 1);
  }

  /** The offset is the byte count modulo 16, and the counter has advanced once per block begun. */
  lemma {:induction false} CtrAdvances(e: Block -> Block, s: Stream, length: nat)
    requires InStream(s)
    ensures CtrState(e, s, length).n == (s.n + length) % 16
    ensures CtrState(e, s, length).counter == CounterAfter(s.counter, BlocksBegun(s.n, length))
  {
    if length > 0 {
      CtrAdvances(e, s, length - 1);
      BegunStep(s.n, length);
    }
  }

  /** The counter block after a call, as a number modulo 2^128. */
  lemma CtrCounter(e: Block -> Block, s: Stream, length: nat)
    requires InStream(s)
    ensures BigEndian(CtrState(e, s, length).counter)
            == (BigEndian(s.counter) + BlocksBegun(s.n, length)) % Pow256(|s.counter|)
  {
    CtrAdvances(e, s, length);
    CounterCounts(s.counter, BlocksBegun(s.n, length));
  }

  /** The key stream block in use for byte k: what is left of the current one, or the
      encryption of the counter as many blocks on as have been begun before it. */
  function BlockInUse(e: Block -> Block, s: Stream, k: nat): Block
    requires InStream(s)
  {
    if s.n != 0 && s.n + k < 16 then s.block
    else e(CounterAfter(s.counter, (s.n + k) / 16 - (if s.n == 0 then 0 else 1)))
  }

  lemma {:induction false} CtrBlockAt(e: Block -> Block, s: Stream, k: nat)
    requires InStream(s)
    ensures Primed(e, CtrState(e, s, k)).block == BlockInUse(e, s, k)
  {
    CtrAdvances(e, s, k);
    if (s.n + k) % 16 == 0 {
      BegunBefore(s.n, k);
    } else if k > 0 {
      CtrBlockAt(e, s, k - 1);
      BlockKept(e, CtrState(e, s, k - 1));
      InUseKept(e, s, k);
    }
  }

  lemma BlockKept(e: Block -> Block, s: Stream)
    requires InStream(s) && CtrNext(e, s).n != 0
    ensures Primed(e, CtrNext(e, s)).block == Primed(e, s).block
  {
  }

  lemma InUseKept(e: Block -> Block, s: Stream, k: nat)
    requires InStream(s) && k > 0 && (s.n + k) % 16 != 0
    ensures BlockInUse(e, s, k) == BlockInUse(e, s, k - 1)
  {
    SameBlock(s.n + k);
  }

  lemma BegunBefore(n: nat, k: nat)
    requires n < 16 && (n + k) % 16 == 0
    ensures BlocksBegun(n, k) == (n + k) / 16 - (if n == 0 then 0 else 1)
  {
  }

  lemma SameBlock(u: nat)
    requires u % 16 != 0
    ensures (u - 1) / 16 == u / 16
  {
  }

  /** Byte k of the output is the input byte plus byte (n + k) % 16 of the block in use, from
      any offset n (section 6.5). */
  lemma {:induction false} CtrKeyStream(e: Block -> Block, s: Stream, xs: seq<bv8>, k: nat)
    requires InStream(s) && k < |xs|
    ensures CtrOut(e, s, xs)[k] == xs[k] ^ BlockInUse(e, s, k)[(s.n + k) % 16]
  {
    if k < |xs| - 1 {
      CtrKeyStream(e, s, xs[..|xs| - 1], k);
    } else {
      CtrAdvances(e, s, k);
      CtrBlockAt(e, s, k);
    }
  }

  // ----- aes_crypt_ctr

  /** A key stream block from the counter, which then moves on. */
  method NextStreamBlock(t: Tables, ctx: AesContext, counter: array<bv8>, block: array<bv8>, ghost e: Block -> Block)
    requires Good(t) && ctx.Ready() && ctx.Computes(e)
    requires counter.Length == 16 && block.Length == 16 && counter != block
    modifies counter, block
    ensures block[..] == e(old(counter[..])) && counter[..] == Increment(old(counter[..]))
  {
    EncryptTo(t, ctx, counter, block, e);
    BumpCounter(counter);
  }

  /** One byte of aes_crypt_ctr. */
  method CtrStep(t: Tables, ctx: AesContext, n0: nat, counter: array<bv8>, block: array<bv8>, x: bv8,
                 output: array<bv8>, p: nat, ghost e: Block -> Block, ghost st: Stream) returns (n: nat)
    requires Good(t) && ctx.Ready() && ctx.Computes(e) && n0 < 16 && p < output.Length
    requires counter.Length == 16 && block.Length == 16 && counter != block && output != counter && output != block
    requires st == Stream(n0, counter[..], block[..])
    modifies counter, block, output
    ensures Stream(n, counter[..], block[..]) == CtrNext(e, st)
    ensures output[..] == old(output[..])[p := CtrByte(e, st, x)]
  {
    n := n0;
    if n == 0 {
      NextStreamBlock(t, ctx, counter, block, e);
    }
    output[p] := x ^ block[n];
    n := (n + 1) % 16;
  }

  lemma CtrNoneYet(e: Block -> Block, s: Stream, xs: seq<bv8>)
    requires InStream(s)
    ensures CtrDone(e, s, xs[..0], s, [])
  {
    assert xs[..0] == [];
  }

  lemma CtrOneMoreOf(e: Block -> Block, s: Stream, xs: seq<bv8>, k: nat, st: Stream, ys: seq<bv8>)
    requires InStream(s) && InStream(st) && k < |xs| && CtrDone(e, s, xs[..k], st, ys)
    ensures CtrDone(e, s, xs[..k + 1], CtrNext(e, st), ys + [CtrByte(e, st, xs[k])])
  {
    CtrOneMore(e, s, xs[..k], xs[k], st, ys);
    assert xs[..k + 1] == xs[..k] + [xs[k]];
  }

  /** One byte of the stream from input to output. */
  method CtrTurn(t: Tables, ctx: AesContext, n0: nat, counter: array<bv8>, block: array<bv8>, input: array<bv8>, i: nat,
                 output: array<bv8>, o: nat, k: nat, ghost e: Block -> Block, ghost was: seq<bv8>, ghost xs: seq<bv8>,
                 ghost st: Stream, ghost ys: seq<bv8>) returns (n: nat)
    requires Good(t) && ctx.Ready() && ctx.Computes(e)
    requires counter.Length == 16 && block.Length == 16 && counter != block
    requires output != counter && output != block && input != counter && input != block
    requires i + |xs| <= input.Length && o + |xs| <= output.Length == |was| && k < |xs|
    requires Streamable(input, i, output, o)
    requires InStream(st) && st == Stream(n0, counter[..], block[..])
    requires Streamed(input[..], i, output[..], o, was, xs, k, ys)
    modifies counter, block, output
    ensures Stream(n, counter[..], block[..]) == CtrNext(e, st)
    ensures Streamed(input[..], i, output[..], o, was, xs, k + 1, ys + [CtrByte(e, st, xs[k])])
  {
    ghost var in0, out0, y := input[..], output[..], CtrByte(e, st, xs[k]);
    StreamedHead(in0, i, out0, o, was, xs, k, ys);
    n := CtrStep(t, ctx, n0, counter, block, input[i + k], output, o + k, e, st);
    ghost var in1, out1 := input[..], output[..];
    assert out1 == out0[o + k := y];
    if input == output {
      assert in1 == out1 && in0 == out0;
    } else {
      assert in1 == in0;
    }
    StreamedOn(in0, i, out0, o, was, xs, k, ys, y, in1);
  }

  /** One turn of its loop. */
  method CtrOn(t: Tables, ctx: AesContext, n0: nat, counter: array<bv8>, block: array<bv8>, input: array<bv8>, i: nat,
               output: array<bv8>, o: nat, k: nat, ghost e: Block -> Block, ghost was: seq<bv8>, ghost xs: seq<bv8>,
               ghost s: Stream, ghost st: Stream, ghost ys: seq<bv8>)
    returns (n: nat, ghost st': Stream, ghost ys': seq<bv8>)
    requires Good(t) && ctx.Ready() && ctx.Computes(e) && InStream(s)
    requires counter.Length == 16 && block.Length == 16 && counter != block
    requires output != counter && output != block && input != counter && input != block
    requires i + |xs| <= input.Length && o + |xs| <= output.Length == |was| && k < |xs|
    requires Streamable(input, i, output, o)
    requires InStream(st) && st == Stream(n0, counter[..], block[..]) && CtrDone(e, s, xs[..k], st, ys)
    requires Streamed(input[..], i, output[..], o, was, xs, k, ys)
    modifies counter, block, output
    ensures ctx.Computes(e) && InStream(st') && st' == Stream(n, counter[..], block[..])
    ensures CtrDone(e, s, xs[..k + 1], st', ys') && Streamed(input[..], i, output[..], o, was, xs, k + 1, ys')
  {
    st', ys' := CtrNext(e, st), ys + [CtrByte(e, st, xs[k])];
    CtrOneMoreOf(e, s, xs, k, st, ys);
    n := CtrTurn(t, ctx, n0, counter, block, input, i, output, o, k, e, was, xs, st, ys);
    assert unchanged(ctx, ctx.buf);
  }

  /** aes_crypt_ctr: output, counter, stream block and offset are those of the byte stream. */
  method CryptCtr(t: Tables, ctx: AesContext, length: nat, ncOff: nat, counter: array<bv8>, block: array<bv8>,
                  input: array<bv8>, i: nat, output: array<bv8>, o: nat, ghost e: Block -> Block) returns (n: nat)
    requires Good(t) && ctx.Ready() && ctx.Computes(e) && ncOff < 16
    requires counter.Length == 16 && block.Length == 16 && counter != block
    requires output != counter && output != block && input != counter && input != block
    requires i + length <= input.Length && o + length <= output.Length && Streamable(input, i, output, o)
    modifies counter, block, output
    ensures n < 16
    ensures Stream(n, counter[..], block[..]) == CtrState(e, Stream(ncOff, old(counter[..]), old(block[..])), length)
    ensures output[..] == old(output[..o])
                          + CtrOut(e, Stream(ncOff, old(counter[..]), old(block[..])), old(input[i..i + length]))
                          + old(output[o + length..])
  {
    ghost var xs, was := input[i..i + length], output[..];
    StreamedFirst(input[..], i, was, o, xs);
    ghost var ys;
    n, ys := CtrLoop(t, ctx, length, ncOff, counter, block, input, i, output, o, e, was, xs);
    StreamedLast(input[..], i, output[..], o, was, xs, ys);
  }

  /** Its loop. */
  method CtrLoop(t: Tables, ctx: AesContext, length: nat, ncOff: nat, counter: array<bv8>, block: array<bv8>,
                 input: array<bv8>, i: nat, output: array<bv8>, o: nat, ghost e: Block -> Block, ghost was: seq<bv8>,
                 ghost xs: seq<bv8>)
    returns (n: nat, ghost ys: seq<bv8>)
    requires Good(t) && ctx.Ready() && ctx.Computes(e) && ncOff < 16 && length == |xs|
    requires counter.Length == 16 && block.Length == 16 && counter != block
    requires output != counter && output != block && input != counter && input != block
    requires i + |xs| <= input.Length && o + |xs| <= output.Length == |was| && Streamable(input, i, output, o)
    requires Streamed(input[..], i, output[..], o, was, xs, 0, [])
    modifies counter, block, output
    ensures n < 16
    ensures CtrDone(e, Stream(ncOff, old(counter[..]), old(block[..])), xs, Stream(n, counter[..], block[..]), ys)
    ensures Streamed(input[..], i, output[..], o, was, xs, length, ys)
  {
    ghost var s := Stream(ncOff, counter[..], block[..]);
    ghost var st := s;
    ys := [];
    n := ncOff;
    CtrNoneYet(e, s, xs);
    for k := 0 to length
      invariant ctx.Computes(e)
      invariant InStream(st) && st == Stream(n, counter[..], block[..])
      invariant CtrDone(e, s, xs[..k], st, ys)
      invariant Streamed(input[..], i, output[..], o, was, xs, k, ys)
    {
      n, st, ys := CtrOn(t, ctx, n, counter, block, input, i, output, o, k, e, was, xs, s, st, ys);
    }
    assert xs[..length] == xs;
  }
}
