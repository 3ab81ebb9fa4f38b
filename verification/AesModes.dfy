/**
 * The two streaming modes of node_main/polarssl/aes.c, CFB128 and CTR (sections 6.3 and
 * 6.5 of NIST SP 800-38A), which keep an offset into the current block between calls.
 */
module AesModes {
  import opened AesTables
  import opened Aes
  import opened Sequences

  // ----- CFB128: the stream state and one byte of it

  /** The offset into the feedback block and the block itself. */
  datatype Feedback = Feedback(n: nat, iv: Block)

  ghost predicate InBlock(s: Feedback) { s.n < 16 }

  /** The block in use for the next byte: a fresh one at the start of each block. */
  function Fed(e: Block -> Block, s: Feedback): Block {
    if s.n == 0 then e(s.iv) else s.iv
  }

  function CfbByte(e: Block -> Block, s: Feedback, x: bv8): bv8
    requires InBlock(s)
  {
    Fed(e, s)[s.n] ^ x
  }

  /** The ciphertext byte is fed back, whichever side it is on. */
  function CfbNext(e: Block -> Block, mode: Mode, s: Feedback, x: bv8): (s': Feedback)
    requires InBlock(s)
    ensures InBlock(s')
  {
    var c := if mode == Encrypt then CfbByte(e, s, x) else x;
    Feedback((s.n + 1) % 16, Fed(e, s)[s.n := c])
  }

  function CfbState(e: Block -> Block, mode: Mode, s: Feedback, xs: seq<bv8>): (s': Feedback)
    requires InBlock(s)
    ensures InBlock(s')
  {
    if xs == [] then s
    else CfbNext(e, mode, CfbState(e, mode, s, xs[..|xs| - 1]), xs[|xs| - 1])
  }

  function CfbOut(e: Block -> Block, mode: Mode, s: Feedback, xs: seq<bv8>): (ys: seq<bv8>)
    requires InBlock(s)
    ensures |ys| == |xs|
  {
    if xs == [] then []
    else CfbOut(e, mode, s, xs[..|xs| - 1]) + [CfbByte(e, CfbState(e, mode, s, xs[..|xs| - 1]), xs[|xs| - 1])]
  }

  /** State and output after the bytes xs. */
  ghost predicate CfbDone(e: Block -> Block, mode: Mode, s: Feedback, xs: seq<bv8>, st: Feedback, ys: seq<bv8>)
    requires InBlock(s)
  {
    st == CfbState(e, mode, s, xs) && ys == CfbOut(e, mode, s, xs)
  }

  lemma CfbOneMore(e: Block -> Block, mode: Mode, s: Feedback, xs: seq<bv8>, x: bv8, st: Feedback, ys: seq<bv8>)
    requires InBlock(s) && InBlock(st) && CfbDone(e, mode, s, xs, st, ys)
    ensures CfbDone(e, mode, s, xs + [x], CfbNext(e, mode, st, x), ys + [CfbByte(e, st, x)])
  {
    assert (xs + [x])[..|xs|] == xs;
  }

  /** The last byte of what is done, with the state before it. */
  lemma CfbLast(e: Block -> Block, mode: Mode, s: Feedback, xs: seq<bv8>, st: Feedback, ys: seq<bv8>)
    returns (st0: Feedback, ys0: seq<bv8>)
    requires InBlock(s) && xs != [] && CfbDone(e, mode, s, xs, st, ys)
    ensures InBlock(st0) && CfbDone(e, mode, s, xs[..|xs| - 1], st0, ys0)
    ensures st == CfbNext(e, mode, st0, xs[|xs| - 1]) && ys == ys0 + [CfbByte(e, st0, xs[|xs| - 1])]
  {
    st0, ys0 := CfbState(e, mode, s, xs[..|xs| - 1]), CfbOut(e, mode, s, xs[..|xs| - 1]);
  }

  lemma {:induction false} CfbJoins(e: Block -> Block, mode: Mode, s: Feedback, xs: seq<bv8>, ys: seq<bv8>,
                                    st: Feedback, us: seq<bv8>, st': Feedback, vs: seq<bv8>)
    requires InBlock(s) && InBlock(st) && CfbDone(e, mode, s, xs, st, us) && CfbDone(e, mode, st, ys, st', vs)
    ensures CfbDone(e, mode, s, xs + ys, st', us + vs)
    decreases |ys|
  {
    if ys == [] {
      assert vs == [];
      NothingAfter(xs);
      NothingAfter(us);
    } else {
      var front, y := ys[..|ys| - 1], ys[|ys| - 1];
      var st1, vs1 := CfbLast(e, mode, st, ys, st', vs);
      CfbJoins(e, mode, s, xs, front, st, us, st1, vs1);
      CfbOneMore(e, mode, s, xs + front, y, st1, us + vs1);
      Regroup(us, vs1, [CfbByte(e, st1, y)]);
      Regroup(xs, front, [y]);
      LastOff(ys);
    }
  }

  /** Cutting a message into two calls changes neither the output nor the final state. */
  lemma CfbSplits(e: Block -> Block, mode: Mode, s: Feedback, xs: seq<bv8>, ys: seq<bv8>)
    requires InBlock(s)
    ensures CfbState(e, mode, s, xs + ys) == CfbState(e, mode, CfbState(e, mode, s, xs), ys)
    ensures CfbOut(e, mode, s, xs + ys) == CfbOut(e, mode, s, xs) + CfbOut(e, mode, CfbState(e, mode, s, xs), ys)
  {
    var st := CfbState(e, mode, s, xs);
    CfbJoins(e, mode, s, xs, ys, st, CfbOut(e, mode, s, xs), CfbState(e, mode, st, ys), CfbOut(e, mode, st, ys));
  }

  /** A message given in pieces. */
  function Joined(pieces: seq<seq<bv8>>): seq<bv8> {
    if pieces == [] then [] else Joined(pieces[..|pieces| - 1]) + pieces[|pieces| - 1]
  }

  /** State after, and output of, one call per piece. */
  function CfbCalls(e: Block -> Block, mode: Mode, s: Feedback, pieces: seq<seq<bv8>>): (r: (Feedback, seq<bv8>))
    requires InBlock(s)
    ensures InBlock(r.0)
  {
    if pieces == [] then (s, [])
    else
      var (s1, ys) := CfbCalls(e, mode, s, pieces[..|pieces| - 1]);
      (CfbState(e, mode, s1, pieces[|pieces| - 1]), ys + CfbOut(e, mode, s1, pieces[|pieces| - 1]))
  }

  /** Any split of a message into calls gives the output and final iv and offset of one call. */
  lemma {:induction false} CfbAnySplit(e: Block -> Block, mode: Mode, s: Feedback, pieces: seq<seq<bv8>>)
    requires InBlock(s)
    ensures CfbCalls(e, mode, s, pieces) == (CfbState(e, mode, s, Joined(pieces)), CfbOut(e, mode, s, Joined(pieces)))
  {
    if pieces != [] {
      CfbAnySplit(e, mode, s, pieces[..|pieces| - 1]);
      CfbSplits(e, mode, s, Joined(pieces[..|pieces| - 1]), pieces[|pieces| - 1]);
    }
  }

  lemma XorTwice(x: bv8, y: bv8)
    ensures x ^ (x ^ y) == y
  {
  }

  /** The decrypting side recovers the byte and feeds back the same one. */
  lemma ByteBack(e: Block -> Block, s: Feedback, x: bv8)
    requires InBlock(s)
    ensures CfbByte(e, s, CfbByte(e, s, x)) == x
    ensures CfbNext(e, Decrypt, s, CfbByte(e, s, x)) == CfbNext(e, Encrypt, s, x)
  {
    XorTwice(Fed(e, s)[s.n], x);
  }

  lemma {:induction false} CfbBack(e: Block -> Block, s: Feedback, xs: seq<bv8>, st: Feedback, ys: seq<bv8>)
    requires InBlock(s) && CfbDone(e, Encrypt, s, xs, st, ys)
    ensures CfbDone(e, Decrypt, s, ys, st, xs)
    decreases |xs|
  {
    if xs != [] {
      var front, x := xs[..|xs| - 1], xs[|xs| - 1];
      var st0, ys0 := CfbLast(e, Encrypt, s, xs, st, ys);
      CfbBack(e, s, front, st0, ys0);
      CfbOneMore(e, Decrypt, s, ys0, CfbByte(e, st0, x), st0, front);
      ByteBack(e, st0, x);
      LastOff(xs);
    }
  }

  /** Decrypting from the same state undoes encrypting and ends in the same state. */
  lemma CfbRoundTrip(e: Block -> Block, s: Feedback, xs: seq<bv8>)
    requires InBlock(s)
    ensures CfbOut(e, Decrypt, s, CfbOut(e, Encrypt, s, xs)) == xs
    ensures CfbState(e, Decrypt, s, CfbOut(e, Encrypt, s, xs)) == CfbState(e, Encrypt, s, xs)
  {
    CfbBack(e, s, xs, CfbState(e, Encrypt, s, xs), CfbOut(e, Encrypt, s, xs));
  }

  // ----- CFB128 by blocks

  /** The bytes xs plus as many bytes of a block. */
  function XorWith(k: Block, xs: seq<bv8>): (ys: seq<bv8>)
    requires |xs| <= 16
    ensures |ys| == |xs|
  {
    if xs == [] then [] else XorWith(k, xs[..|xs| - 1]) + [k[|xs| - 1] ^ xs[|xs| - 1]]
  }

  lemma {:induction false} XorWithAt(k: Block, xs: seq<bv8>, j: nat)
    requires j < |xs| <= 16
    ensures XorWith(k, xs)[j] == k[j] ^ xs[j]
  {
    if j < |xs| - 1 { XorWithAt(k, xs[..|xs| - 1], j); }
  }

  /** What has happened once the bytes xs of a block that began at offset 0 are through. */
  ghost predicate Partway(e: Block -> Block, mode: Mode, iv: Block, xs: seq<bv8>, s: Feedback, ys: seq<bv8>)
    requires |xs| == |ys| <= 16
  {
    && s == Feedback(|xs| % 16, (if mode == Encrypt then ys else xs) + e(iv)[|xs|..])
    && ys == XorWith(e(iv), xs)
  }

  lemma {:induction false} CfbPartial(e: Block -> Block, mode: Mode, iv: Block, xs: seq<bv8>, st: Feedback,
                                      ys: seq<bv8>)
    requires 0 < |xs| == |ys| <= 16 && CfbDone(e, mode, Feedback(0, iv), xs, st, ys)
    ensures Partway(e, mode, iv, xs, st, ys)
    decreases |xs|
  {
    var front, x := xs[..|xs| - 1], xs[|xs| - 1];
    var st0, ys0 := CfbLast(e, mode, Feedback(0, iv), xs, st, ys);
    LastOff(xs);
    if front == [] {
      PartwayFirst(e, mode, iv, x);
    } else {
      CfbPartial(e, mode, iv, front, st0, ys0);
      PartwayNext(e, mode, iv, front, x, st0, ys0);
    }
  }

  lemma PartwayFirst(e: Block -> Block, mode: Mode, iv: Block, x: bv8)
    ensures var s := Feedback(0, iv); Partway(e, mode, iv, [x], CfbNext(e, mode, s, x), [CfbByte(e, s, x)])
  {
    FedIn(e(iv), [], x);
  }

  lemma PartwayNext(e: Block -> Block, mode: Mode, iv: Block, xs: seq<bv8>, x: bv8, s: Feedback, ys: seq<bv8>)
    requires 0 < |xs| == |ys| < 16 && Partway(e, mode, iv, xs, s, ys)
    ensures Partway(e, mode, iv, xs + [x], CfbNext(e, mode, s, x), ys + [CfbByte(e, s, x)])
  {
    var k, y := e(iv), CfbByte(e, s, x);
    if mode == Encrypt {
      FedBack(e, mode, k, ys, s, x, y);
    } else {
      FedBack(e, mode, k, xs, s, x, x);
    }
    XorWithSnoc(k, xs, x);
    PartwaySnoc(e, mode, iv, xs, x, CfbNext(e, mode, s, x), ys, y);
  }

  lemma PartwaySnoc(e: Block -> Block, mode: Mode, iv: Block, xs: seq<bv8>, x: bv8, s: Feedback, ys: seq<bv8>, y: bv8)
    requires |xs| == |ys| < 16 && XorWith(e(iv), xs + [x]) == ys + [y]
    requires s == Feedback((|xs| + 1) % 16, (if mode == Encrypt then ys + [y] else xs + [x]) + e(iv)[|xs| + 1..])
    ensures Partway(e, mode, iv, xs + [x], s, ys + [y])
  {
  }

  /** Inside a block: the byte out, and the state after it. */
  lemma FedBack(e: Block -> Block, mode: Mode, k: Block, front: seq<bv8>, s: Feedback, x: bv8, c: bv8)
    requires 0 < |front| < 16 && s == Feedback(|front|, front + k[|front|..])
    requires c == if mode == Encrypt then CfbByte(e, s, x) else x
    ensures CfbByte(e, s, x) == k[|front|] ^ x
    ensures CfbNext(e, mode, s, x) == Feedback((|front| + 1) % 16, (front + [c]) + k[|front| + 1..])
  {
    FedIn(k, front, c);
  }

  lemma XorWithSnoc(k: Block, xs: seq<bv8>, x: bv8)
    requires |xs| < 16
    ensures XorWith(k, xs + [x]) == XorWith(k, xs) + [k[|xs|] ^ x]
  {
    assert (xs + [x])[..|xs|] == xs;
  }

  /** Feeding one byte back into a block partly replaced. */
  lemma FedIn<T>(k: seq<T>, front: seq<T>, c: T)
    requires |front| < |k|
    ensures (front + k[|front|..])[|front| := c] == (front + [c]) + k[|front| + 1..]
    ensures (front + k[|front|..])[|front|] == k[|front|]
  {
  }

  /** One whole block is one step of section 6.3: the output is the input plus the
      encryption of the previous ciphertext block, which the ciphertext then replaces. */
  lemma CfbBlock(e: Block -> Block, mode: Mode, iv: Block, x: Block, st: Feedback, y: seq<bv8>)
    requires CfbDone(e, mode, Feedback(0, iv), x, st, y)
    ensures y == XorWith(e(iv), x)
    ensures st == Feedback(0, if mode == Encrypt then y else x)
  {
    CfbPartial(e, mode, iv, x, st, y);
    NothingAfter(y);
    NothingAfter(x);
  }

  /** Whole blocks joined are whole blocks. */
  lemma SumOfBlocks(m: nat, n: nat)
    requires m % 16 == 0 && n % 16 == 0
    ensures (m + n) % 16 == 0
  {
  }

  // ----- aes_crypt_cfb128

  /** What a call to aes_crypt_cfb128 or aes_crypt_ctr may overlap: different buffers, or
      writing no further on than reading. */
  predicate Streamable(input: array<bv8>, i: nat, output: array<bv8>, o: nat) {
    input != output || o <= i
  }

  /** aes_crypt_ecb in encrypt mode as an application of e. */
  method Encipher(t: Tables, ctx: AesContext, src: array<bv8>, i: nat, dst: array<bv8>, o: nat, ghost e: Block -> Block)
    requires Good(t) && ctx.Ready() && i + 16 <= src.Length && o + 16 <= dst.Length && ctx.Computes(e)
    modifies dst
    ensures dst[o..o + 16] == e(old(src[i..i + 16]))
  {
    assert ctx.ComputesAt(e, src[i..i + 16]);
    ctx.CryptEcb(t, Encrypt, src, i, dst, o);
  }

  /** The same of a whole buffer of one block, which may be onto itself. */
  method EncryptTo(t: Tables, ctx: AesContext, src: array<bv8>, dst: array<bv8>, ghost e: Block -> Block)
    requires Good(t) && ctx.Ready() && src.Length == 16 && dst.Length == 16 && ctx.Computes(e)
    modifies dst
    ensures dst[..] == e(old(src[..]))
  {
    assert src[..] == src[0..16];
    Encipher(t, ctx, src, 0, dst, 0, e);
    assert dst[..] == dst[0..16];
  }

  /** The buffers after k of the bytes xs: ys written from o on, the rest as in was. */
  ghost predicate Streamed(input: seq<bv8>, i: nat, output: seq<bv8>, o: nat, was: seq<bv8>, xs: seq<bv8>, k: nat,
                           ys: seq<bv8>)
    requires i + |xs| <= |input| && o + |xs| <= |output| == |was| && k <= |xs|
  {
    && input[i + k..i + |xs|] == xs[k..]
    && |ys| == k
    && output == was[..o] + ys + was[o + k..]
  }

  lemma StreamedFirst(input: seq<bv8>, i: nat, output: seq<bv8>, o: nat, xs: seq<bv8>)
    requires i + |xs| <= |input| && o + |xs| <= |output| && xs == input[i..i + |xs|]
    ensures Streamed(input, i, output, o, output, xs, 0, [])
    ensures xs[..0] == []
  {
  }

  lemma StreamedLast(input: seq<bv8>, i: nat, output: seq<bv8>, o: nat, was: seq<bv8>, xs: seq<bv8>, ys: seq<bv8>)
    requires i + |xs| <= |input| && o + |xs| <= |output| == |was| && Streamed(input, i, output, o, was, xs, |xs|, ys)
    ensures output == was[..o] + ys + was[o + |xs|..]
    ensures xs[..|xs|] == xs
  {
  }

  lemma StreamedHead(input: seq<bv8>, i: nat, output: seq<bv8>, o: nat, was: seq<bv8>, xs: seq<bv8>, k: nat,
                     ys: seq<bv8>)
    requires i + |xs| <= |input| && o + |xs| <= |output| == |was| && k < |xs|
    requires Streamed(input, i, output, o, was, xs, k, ys)
    ensures input[i + k] == xs[k]
  {
    assert input[i + k..i + |xs|][0] == xs[k..][0];
  }

  /** Writing the next byte at o + k, in a buffer that may be the input's. */
  lemma StreamedOn(input: seq<bv8>, i: nat, output: seq<bv8>, o: nat, was: seq<bv8>, xs: seq<bv8>, k: nat,
                   ys: seq<bv8>, y: bv8, input': seq<bv8>)
    requires i + |xs| <= |input| && o + |xs| <= |output| == |was| && k < |xs|
    requires Streamed(input, i, output, o, was, xs, k, ys)
    requires input' == input || (o <= i && input == output && input' == input[o + k := y])
    ensures Streamed(input', i, output[o + k := y], o, was, xs, k + 1, ys + [y])
  {
    forall q | k + 1 <= q < |xs| ensures input'[i + q] == xs[q] {
      assert input[i + k..i + |xs|][q - k] == xs[k..][q - k];
    }
  }

  /** aes_crypt_cfb128 in either mode: output, iv and offset are those of the byte stream. */
  method CryptCfb128(t: Tables, ctx: AesContext, mode: Mode, length: nat, ivOff: nat, iv: array<bv8>,
                     input: array<bv8>, i: nat, output: array<bv8>, o: nat, ghost e: Block -> Block) returns (n: nat)
    requires Good(t) && ctx.Ready() && ctx.Computes(e) && iv.Length == 16 && ivOff < 16
    requires i + length <= input.Length && o + length <= output.Length
    requires iv != input && iv != output && Streamable(input, i, output, o)
    modifies iv, output
    ensures n < 16 && Feedback(n, iv[..]) == CfbState(e, mode, Feedback(ivOff, old(iv[..])), old(input[i..i + length]))
    ensures output[..] == old(output[..o]) + CfbOut(e, mode, Feedback(ivOff, old(iv[..])), old(input[i..i + length]))
            + old(output[o + length..])
  {
    ghost var xs, was := input[i..i + length], output[..];
    StreamedFirst(input[..], i, was, o, xs);
    ghost var ys;
    n, ys := CfbLoop(t, ctx, mode, length, ivOff, iv, input, i, output, o, e, was, xs);
    StreamedLast(input[..], i, output[..], o, was, xs, ys);
  }

  /** aes_crypt_cfb128 of a whole buffer onto itself. */
  method CfbWholeBuffer(t: Tables, ctx: AesContext, mode: Mode, ivOff: nat, iv: array<bv8>, data: array<bv8>,
                        ghost e: Block -> Block)
    returns (n: nat)
    requires Good(t) && ctx.Ready() && ctx.Computes(e) && iv.Length == 16 && ivOff < 16 && iv != data
    modifies iv, data
    ensures n < 16 && Feedback(n, iv[..]) == CfbState(e, mode, Feedback(ivOff, old(iv[..])), old(data[..]))
    ensures data[..] == CfbOut(e, mode, Feedback(ivOff, old(iv[..])), old(data[..]))
  {
    ghost var fb, p := Feedback(ivOff, iv[..]), data[..];
    assert data[0..data.Length] == p && data[..0] == [] && data[data.Length..] == [];
    n := CryptCfb128(t, ctx, mode, data.Length, ivOff, iv, data, 0, data, 0, e);
    assert data[..] == [] + CfbOut(e, mode, fb, p) + [];
  }

  /** Its loop. */
  method CfbLoop(t: Tables, ctx: AesContext, mode: Mode, length: nat, ivOff: nat, iv: array<bv8>, input: array<bv8>,
                 i: nat, output: array<bv8>, o: nat, ghost e: Block -> Block, ghost was: seq<bv8>, ghost xs: seq<bv8>)
    returns (n: nat, ghost ys: seq<bv8>)
    requires Good(t) && ctx.Ready() && ctx.Computes(e) && iv.Length == 16 && ivOff < 16 && length == |xs|
    requires i + |xs| <= input.Length && o + |xs| <= output.Length == |was|
    requires iv != input && iv != output && Streamable(input, i, output, o)
    requires Streamed(input[..], i, output[..], o, was, xs, 0, [])
    modifies iv, output
    ensures n < 16 && CfbDone(e, mode, Feedback(ivOff, old(iv[..])), xs, Feedback(n, iv[..]), ys)
    ensures Streamed(input[..], i, output[..], o, was, xs, length, ys)
  {
    ghost var s := Feedback(ivOff, iv[..]);
    ghost var st := s;
    ys := [];
    n := ivOff;
    CfbNoneYet(e, mode, s, xs);
    for k := 0 to length
      invariant ctx.Computes(e)
      invariant InBlock(st) && st == Feedback(n, iv[..])
      invariant CfbDone(e, mode, s, xs[..k], st, ys)
      invariant Streamed(input[..], i, output[..], o, was, xs, k, ys)
    {
      n, st, ys := CfbOn(t, ctx, mode, n, iv, input, i, output, o, k, e, was, xs, s, st, ys);
    }
    assert xs[..length] == xs;
  }

  /** One byte of the stream from input to output. */
  method CfbTurn(t: Tables, ctx: AesContext, mode: Mode, n0: nat, iv: array<bv8>, input: array<bv8>, i: nat,
                 output: array<bv8>, o: nat, k: nat, ghost e: Block -> Block, ghost was: seq<bv8>, ghost xs: seq<bv8>,
                 ghost st: Feedback, ghost ys: seq<bv8>) returns (n: nat)
    requires Good(t) && ctx.Ready() && ctx.Computes(e) && iv.Length == 16
    requires i + |xs| <= input.Length && o + |xs| <= output.Length == |was| && k < |xs|
    requires iv != input && iv != output && Streamable(input, i, output, o)
    requires InBlock(st) && st == Feedback(n0, iv[..]) && Streamed(input[..], i, output[..], o, was, xs, k, ys)
    modifies iv, output
    ensures Feedback(n, iv[..]) == CfbNext(e, mode, st, xs[k])
    ensures Streamed(input[..], i, output[..], o, was, xs, k + 1, ys + [CfbByte(e, st, xs[k])])
  {
    ghost var in0, out0, y := input[..], output[..], CfbByte(e, st, xs[k]);
    StreamedHead(in0, i, out0, o, was, xs, k, ys);
    n := CfbStep(t, ctx, mode, n0, iv, input[i + k], output, o + k, e, st);
    ghost var in1, out1 := input[..], output[..];
    assert out1 == out0[o + k := y];
    if input == output {
      assert in1 == out1 && in0 == out0;
    } else {
      assert in1 == in0;
    }
    StreamedOn(in0, i, out0, o, was, xs, k, ys, y, in1);
  }

  /** One turn of its loop. */
  method CfbOn(t: Tables, ctx: AesContext, mode: Mode, n0: nat, iv: array<bv8>, input: array<bv8>, i: nat,
               output: array<bv8>, o: nat, k: nat, ghost e: Block -> Block, ghost was: seq<bv8>, ghost xs: seq<bv8>,
               ghost s: Feedback, ghost st: Feedback, ghost ys: seq<bv8>)
    returns (n: nat, ghost st': Feedback, ghost ys': seq<bv8>)
    requires Good(t) && ctx.Ready() && ctx.Computes(e) && iv.Length == 16 && InBlock(s)
    requires i + |xs| <= input.Length && o + |xs| <= output.Length == |was| && k < |xs|
    requires iv != input && iv != output && Streamable(input, i, output, o)
    requires InBlock(st) && st == Feedback(n0, iv[..]) && CfbDone(e, mode, s, xs[..k], st, ys)
    requires Streamed(input[..], i, output[..], o, was, xs, k, ys)
    modifies iv, output
    ensures ctx.Computes(e) && InBlock(st') && st' == Feedback(n, iv[..])
    ensures CfbDone(e, mode, s, xs[..k + 1], st', ys') && Streamed(input[..], i, output[..], o, was, xs, k + 1, ys')
  {
    st', ys' := CfbNext(e, mode, st, xs[k]), ys + [CfbByte(e, st, xs[k])];
    CfbOneMoreOf(e, mode, s, xs, k, st, ys);
    n := CfbTurn(t, ctx, mode, n0, iv, input, i, output, o, k, e, was, xs, st, ys);
    assert unchanged(ctx, ctx.buf);
  }

  lemma CfbNoneYet(e: Block -> Block, mode: Mode, s: Feedback, xs: seq<bv8>)
    requires InBlock(s)
    ensures CfbDone(e, mode, s, xs[..0], s, [])
  {
    assert xs[..0] == [];
  }

  lemma CfbOneMoreOf(e: Block -> Block, mode: Mode, s: Feedback, xs: seq<bv8>, k: nat, st: Feedback, ys: seq<bv8>)
    requires InBlock(s) && InBlock(st) && k < |xs| && CfbDone(e, mode, s, xs[..k], st, ys)
    ensures CfbDone(e, mode, s, xs[..k + 1], CfbNext(e, mode, st, xs[k]), ys + [CfbByte(e, st, xs[k])])
  {
    CfbOneMore(e, mode, s, xs[..k], xs[k], st, ys);
    assert xs[..k + 1] == xs[..k] + [xs[k]];
  }

  /** A new block at the start of each. */
  method PrimeBlock(t: Tables, ctx: AesContext, n: nat, iv: array<bv8>, ghost e: Block -> Block)
    requires Good(t) && ctx.Ready() && iv.Length == 16 && n < 16 && ctx.Computes(e)
    modifies iv
    ensures iv[..] == Fed(e, Feedback(n, old(iv[..])))
  {
    if n == 0 {
      EncryptTo(t, ctx, iv, iv, e);
    }
  }

  /** The byte out, and the ciphertext byte into the block. */
  method FeedByte(mode: Mode, n: nat, iv: array<bv8>, x: bv8, output: array<bv8>, p: nat)
    requires iv.Length == 16 && n < 16 && p < output.Length && iv != output
    modifies iv, output
    ensures var y := old(iv[n]) ^ x;
            output[..] == old(output[..])[p := y] && iv[..] == old(iv[..])[n := if mode == Encrypt then y else x]
  {
    if mode == Decrypt {
      output[p] := iv[n] ^ x;
      iv[n] := x;
    } else {
      iv[n] := iv[n] ^ x;
      output[p] := iv[n];
    }
  }

  /** One byte of aes_crypt_cfb128. */
  method CfbStep(t: Tables, ctx: AesContext, mode: Mode, n0: nat, iv: array<bv8>, x: bv8, output: array<bv8>, p: nat,
                 ghost e: Block -> Block, ghost st: Feedback) returns (n: nat)
    requires Good(t) && ctx.Ready() && iv.Length == 16 && n0 < 16 && ctx.Computes(e)
    requires p < output.Length && iv != output && st == Feedback(n0, iv[..])
    modifies iv, output
    ensures Feedback(n, iv[..]) == CfbNext(e, mode, st, x)
    ensures output[..] == old(output[..])[p := CfbByte(e, st, x)]
  {
    n := n0;
    PrimeBlock(t, ctx, n, iv, e);
    FeedByte(mode, n, iv, x, output, p);
    n := (n + 1) % 16;
  }
}
