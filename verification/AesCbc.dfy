/** The chaining mode of node_main/polarssl/aes.c (section 6.2 of NIST SP 800-38A). */
module AesCbc {
  import opened AesRounds
  import opened AesTables
  import opened Aes
  import opened AesModes
  import opened Sequences

  // ----- the mode on whole blocks

  /** The last block of a text of whole blocks. */
  function LastBlock(x: seq<bv8>): Block
    requires |x| >= 16
  {
    x[|x| - 16..]
  }

  function FrontBlocks(x: seq<bv8>): seq<bv8>
    requires |x| >= 16
  {
    x[..|x| - 16]
  }

  predicate WholeBlocks(x: seq<bv8>) { |x| % 16 == 0 }

  /** What the next block is chained with: the ciphertext before it. */
  function Chain(iv: Block, cipher: seq<bv8>): Block
    requires WholeBlocks(cipher)
  {
    if cipher == [] then iv else LastBlock(cipher)
  }

  function CbcEncrypt(e: Block -> Block, iv: Block, x: seq<bv8>): (y: seq<bv8>)
    requires WholeBlocks(x)
    ensures |y| == |x|
  {
    if x == [] then []
    else
      var front := CbcEncrypt(e, iv, FrontBlocks(x));
      front + e(XorWith(LastBlock(x), Chain(iv, front)))
  }

  function CbcDecrypt(d: Block -> Block, iv: Block, y: seq<bv8>): (x: seq<bv8>)
    requires WholeBlocks(y)
    ensures |x| == |y|
  {
    if y == [] then []
    else CbcDecrypt(d, iv, FrontBlocks(y)) + XorWith(d(LastBlock(y)), Chain(iv, FrontBlocks(y)))
  }

  lemma XorTwiceBack(a: Block, b: Block)
    ensures XorWith(XorWith(a, b), b) == a
  {
    var x := XorWith(a, b);
    forall j: nat | j < 16 ensures XorWith(x, b)[j] == a[j] {
      XorWithAt(a, b, j);
      XorWithAt(x, b, j);
      ByteTwice(a[j], b[j]);
    }
  }

  lemma ByteTwice(x: bv8, y: bv8)
    ensures (x ^ y) ^ y == x
  {
  }

  /** Decrypting with the inverse block function undoes encrypting. */
  lemma {:induction false} CbcRoundTrip(e: Block -> Block, d: Block -> Block, iv: Block, x: seq<bv8>)
    requires WholeBlocks(x) && forall b: Block :: d(e(b)) == b
    ensures CbcDecrypt(d, iv, CbcEncrypt(e, iv, x)) == x
  {
    if x != [] {
      var front := CbcEncrypt(e, iv, FrontBlocks(x));
      var p, chain := LastBlock(x), Chain(iv, front);
      CbcRoundTrip(e, d, iv, FrontBlocks(x));
      var y := CbcEncrypt(e, iv, x);
      assert FrontBlocks(y) == front && LastBlock(y) == e(XorWith(p, chain));
      XorTwiceBack(p, chain);
      SplitAt(x, |x| - 16);
    }
  }

  lemma JoinBlocks(x: seq<bv8>, z: seq<bv8>)
    requires WholeBlocks(x) && WholeBlocks(z)
    ensures WholeBlocks(x + z)
    ensures z != [] ==> |z| >= 16 && FrontBlocks(x + z) == x + FrontBlocks(z) && LastBlock(x + z) == LastBlock(z)
  {
    SumOfBlocks(|x|, |z|);
    if z != [] {
      AtLeastOne(|z|);
      assert FrontBlocks(x + z) == x + z[..|z| - 16];
      assert LastBlock(x + z) == z[|z| - 16..];
    }
  }

  lemma AtLeastOne(n: nat)
    requires n % 16 == 0 && n > 0
    ensures n >= 16
  {
  }

  /** The result of a call in either mode. */
  function CbcOut(f: Block -> Block, mode: Mode, iv: Block, x: seq<bv8>): (y: seq<bv8>)
    requires WholeBlocks(x)
    ensures |y| == |x|
  {
    if mode == Encrypt then CbcEncrypt(f, iv, x) else CbcDecrypt(f, iv, x)
  }

  /** The chaining block after a call. */
  function CbcIv(f: Block -> Block, mode: Mode, iv: Block, x: seq<bv8>): Block
    requires WholeBlocks(x)
  {
    Chain(iv, if mode == Encrypt then CbcEncrypt(f, iv, x) else x)
  }

  /** Block k of a text. */
  function BlockAt(x: seq<bv8>, k: nat): Block
    requires 16 * k + 16 <= |x|
  {
    x[16 * k..16 * k + 16]
  }

  lemma FrontAt(x: seq<bv8>, k: nat)
    requires WholeBlocks(x) && 16 * k + 32 <= |x|
    ensures BlockAt(FrontBlocks(x), k) == BlockAt(x, k)
  {
  }

  lemma LastAt(x: seq<bv8>, k: nat)
    requires WholeBlocks(x) && 16 * k + 16 <= |x| < 16 * k + 32
    ensures |x| == 16 * k + 16 && BlockAt(x, k) == LastBlock(x) && |FrontBlocks(x)| == 16 * k
  {
  }

  /** Encrypting: each block is added to the ciphertext block before it and then enciphered. */
  lemma {:induction false} CbcEncryptAt(e: Block -> Block, iv: Block, x: seq<bv8>, k: nat)
    requires WholeBlocks(x) && 16 * k + 16 <= |x|
    ensures var y := CbcEncrypt(e, iv, x);
            BlockAt(y, k) == e(XorWith(BlockAt(x, k), if k == 0 then iv else BlockAt(y, k - 1)))
    decreases |x|
  {
    var y, front := CbcEncrypt(e, iv, x), CbcEncrypt(e, iv, FrontBlocks(x));
    assert FrontBlocks(y) == front;
    if 16 * k + 32 <= |x| {
      CbcEncryptAt(e, iv, FrontBlocks(x), k);
      FrontAt(x, k);
      FrontAt(y, k);
      if k > 0 { FrontAt(y, k - 1); }
    } else {
      LastAt(x, k);
      LastAt(y, k);
      if k > 0 {
        FrontAt(y, k - 1);
        LastAt(front, k - 1);
      }
    }
  }

  /** Decrypting: each block is deciphered and then added to the ciphertext block before it. */
  lemma {:induction false} CbcDecryptAt(d: Block -> Block, iv: Block, y: seq<bv8>, k: nat)
    requires WholeBlocks(y) && 16 * k + 16 <= |y|
    ensures BlockAt(CbcDecrypt(d, iv, y), k)
         == XorWith(d(BlockAt(y, k)), if k == 0 then iv else BlockAt(y, k - 1))
    decreases |y|
  {
    var x, front := CbcDecrypt(d, iv, y), FrontBlocks(y);
    assert FrontBlocks(x) == CbcDecrypt(d, iv, front);
    if 16 * k + 32 <= |y| {
      CbcDecryptAt(d, iv, front, k);
      FrontAt(x, k);
      FrontAt(y, k);
      if k > 0 { FrontAt(y, k - 1); }
    } else {
      LastAt(x, k);
      LastAt(y, k);
      if k > 0 {
        FrontAt(y, k - 1);
        LastAt(front, k - 1);
      }
    }
  }

  /** A call leaves the last ciphertext block for the next one. */
  lemma CbcIvIs(f: Block -> Block, mode: Mode, iv: Block, x: seq<bv8>)
    requires WholeBlocks(x) && |x| >= 16
    ensures mode == Encrypt ==> CbcIv(f, mode, iv, x) == CbcEncrypt(f, iv, x)[|x| - 16..]
    ensures mode == Decrypt ==> CbcIv(f, mode, iv, x) == x[|x| - 16..]
  {
  }

  /** One block of output. */
  function CbcBlock(f: Block -> Block, mode: Mode, chain: Block, b: Block): Block {
    if mode == Encrypt then f(XorWith(b, chain)) else XorWith(f(b), chain)
  }

  /** What the block after b is chained with, if b became y. */
  function NextChain(mode: Mode, b: Block, y: Block): Block {
    if mode == Encrypt then y else b
  }

  /** Chaining block and output after the whole blocks x. */
  ghost predicate CbcDone(f: Block -> Block, mode: Mode, iv: Block, x: seq<bv8>, chain: Block, ys: seq<bv8>) {
    WholeBlocks(x) && chain == CbcIv(f, mode, iv, x) && ys == CbcOut(f, mode, iv, x)
  }

  lemma OneMoreBlock(f: Block -> Block, mode: Mode, iv: Block, x: seq<bv8>, b: Block, chain: Block, ys: seq<bv8>,
                     y: Block)
    requires CbcDone(f, mode, iv, x, chain, ys) && y == CbcBlock(f, mode, chain, b)
    ensures CbcDone(f, mode, iv, x + b, NextChain(mode, b, y), ys + y)
  {
    JoinBlocks(x, b);
    JoinBlocks(ys, y);
    assert FrontBlocks(x + b) == x && LastBlock(x + b) == b;
  }

  lemma CbcLast(f: Block -> Block, mode: Mode, iv: Block, x: seq<bv8>, chain: Block, ys: seq<bv8>)
    returns (chain0: Block, ys0: seq<bv8>, y: Block)
    requires x != [] && |x| >= 16 && CbcDone(f, mode, iv, x, chain, ys)
    ensures CbcDone(f, mode, iv, FrontBlocks(x), chain0, ys0) && y == CbcBlock(f, mode, chain0, LastBlock(x))
    ensures chain == NextChain(mode, LastBlock(x), y) && ys == ys0 + y
  {
    var front := FrontBlocks(x);
    chain0, ys0 := CbcIv(f, mode, iv, front), CbcOut(f, mode, iv, front);
    y := CbcBlock(f, mode, chain0, LastBlock(x));
    OneMoreBlock(f, mode, iv, front, LastBlock(x), chain0, ys0, y);
    SplitAt(x, |x| - 16);
  }

  lemma {:induction false} CbcJoins(f: Block -> Block, mode: Mode, iv: Block, x: seq<bv8>, z: seq<bv8>,
                                    c: Block, us: seq<bv8>, c': Block, vs: seq<bv8>)
    requires CbcDone(f, mode, iv, x, c, us) && CbcDone(f, mode, c, z, c', vs)
    ensures CbcDone(f, mode, iv, x + z, c', us + vs)
    decreases |z|
  {
    if z == [] {
      assert vs == [];
      NothingAfter(x);
      NothingAfter(us);
    } else {
      AtLeastOne(|z|);
      var front, b := FrontBlocks(z), LastBlock(z);
      var c1, vs1, y := CbcLast(f, mode, c, z, c', vs);
      CbcJoins(f, mode, iv, x, front, c, us, c1, vs1);
      OneMoreBlock(f, mode, iv, x + front, b, c1, us + vs1, y);
      Regroup(us, vs1, y);
      Regroup(x, front, b);
      SplitAt(z, |z| - 16);
    }
  }

  /** In either mode two calls, each of whole blocks, are one call on the joined message: the
      chain carries over in the initialisation vector. */
  lemma CbcSplits(f: Block -> Block, mode: Mode, iv: Block, x: seq<bv8>, z: seq<bv8>)
    requires WholeBlocks(x) && WholeBlocks(z)
    ensures WholeBlocks(x + z)
    ensures CbcOut(f, mode, iv, x + z) == CbcOut(f, mode, iv, x) + CbcOut(f, mode, CbcIv(f, mode, iv, x), z)
    ensures CbcIv(f, mode, iv, x + z) == CbcIv(f, mode, CbcIv(f, mode, iv, x), z)
  {
    var c := CbcIv(f, mode, iv, x);
    CbcJoins(f, mode, iv, x, z, c, CbcOut(f, mode, iv, x), CbcIv(f, mode, c, z), CbcOut(f, mode, c, z));
  }

  // ----- aes_crypt_cbc

  /** f is the block function of the context in a mode. */
  ghost predicate Does(ctx: AesContext, mode: Mode, f: Block -> Block)
    requires ctx.Ready()
    reads ctx, ctx.buf
  {
    forall b: Block :: DoesAt(ctx, mode, f, b)
  }

  ghost predicate DoesAt(ctx: AesContext, mode: Mode, f: Block -> Block, b: Block)
    requires ctx.Ready()
    reads ctx, ctx.buf
  {
    f(b) == ctx.Transform(mode, b)
  }

  /** Sixteen bytes of one buffer plus sixteen of another, written at output + o. */
  method XorBytes(a: array<bv8>, i: nat, b: array<bv8>, output: array<bv8>, o: nat)
    requires i + 16 <= a.Length && b.Length == 16 && o + 16 <= output.Length
    requires b != output && (a != output || o <= i)
    modifies output
    ensures output[o..o + 16] == XorWith(old(a[i..i + 16]), old(b[..]))
    ensures output[..o] == old(output[..o]) && output[o + 16..] == old(output[o + 16..])
  {
    ghost var x, y := a[i..i + 16], b[..];
    for k := 0 to 16
      invariant forall j :: k <= j < 16 ==> a[i + j] == x[j]
      invariant forall j :: 0 <= j < k ==> output[o + j] == x[j] ^ y[j]
      invariant output[..o] == old(output[..o]) && output[o + 16..] == old(output[o + 16..])
      invariant b[..] == y
    {
      output[o + k] := a[i + k] ^ b[k];
    }
    forall j: nat | j < 16 ensures output[o..o + 16][j] == XorWith(x, y)[j] {
      XorWithAt(x, y, j);
    }
  }

  method CopyBlock(dst: array<bv8>, src: array<bv8>, s: nat)
    requires dst.Length == 16 && s + 16 <= src.Length && dst != src
    modifies dst
    ensures dst[..] == src[s..s + 16]
  {
    forall k | 0 <= k < 16 {
      dst[k] := src[s + k];
    }
  }

  /** aes_crypt_ecb as an application of f. */
  method Apply(t: Tables, ctx: AesContext, mode: Mode, input: array<bv8>, i: nat, output: array<bv8>, o: nat,
               ghost f: Block -> Block)
    requires Good(t) && ctx.Ready() && Does(ctx, mode, f) && i + 16 <= input.Length && o + 16 <= output.Length
    modifies output
    ensures output[o..o + 16] == f(old(input[i..i + 16]))
    ensures output[..o] == old(output[..o]) && output[o + 16..] == old(output[o + 16..])
  {
    assert DoesAt(ctx, mode, f, input[i..i + 16]);
    ctx.CryptEcb(t, mode, input, i, output, o);
  }

  /** One block of encryption. */
  method EncryptOne(t: Tables, ctx: AesContext, iv: array<bv8>, input: array<bv8>, i: nat, output: array<bv8>, o: nat,
                    ghost f: Block -> Block)
    requires Good(t) && ctx.Ready() && Does(ctx, Encrypt, f) && iv.Length == 16
    requires i + 16 <= input.Length && o + 16 <= output.Length && iv != input && iv != output
    requires Streamable(input, i, output, o)
    modifies iv, output
    ensures output[o..o + 16] == f(XorWith(old(input[i..i + 16]), old(iv[..]))) == iv[..]
    ensures output[..o] == old(output[..o]) && output[o + 16..] == old(output[o + 16..])
  {
    ghost var b, v, out0 := input[i..i + 16], iv[..], output[..];
    XorBytes(input, i, iv, output, o);
    assert output[o..o + 16] == XorWith(b, v) && unchanged(ctx, ctx.buf);
    Apply(t, ctx, Encrypt, output, o, output, o, f);
    assert output[o..o + 16] == f(XorWith(b, v));
    CopyBlock(iv, output, o);
  }

  /** One block of decryption. */
  method DecryptOne(t: Tables, ctx: AesContext, iv: array<bv8>, input: array<bv8>, i: nat, output: array<bv8>, o: nat,
                    ghost f: Block -> Block)
    requires Good(t) && ctx.Ready() && Does(ctx, Decrypt, f) && iv.Length == 16
    requires i + 16 <= input.Length && o + 16 <= output.Length && iv != input && iv != output
    modifies iv, output
    ensures output[o..o + 16] == XorWith(f(old(input[i..i + 16])), old(iv[..])) && iv[..] == old(input[i..i + 16])
    ensures output[..o] == old(output[..o]) && output[o + 16..] == old(output[o + 16..])
  {
    ghost var c, v, out0 := input[i..i + 16], iv[..], output[..];
    var temp := new bv8[16];
    CopyBlock(temp, input, i);
    assert temp[0..16] == c && unchanged(ctx, ctx.buf);
    Apply(t, ctx, Decrypt, input, i, output, o, f);
    assert output[o..o + 16] == f(c) && output[..o] == out0[..o] && output[o + 16..] == out0[o + 16..];
    assert iv[..] == v && temp[0..16] == c;
    XorBytes(output, o, iv, output, o);
    assert temp[0..16] == c;
    CopyBlock(iv, temp, 0);
  }

  /** Writing a block at o + k, in a buffer that may be the input's. */
  lemma StreamedBlock(input: seq<bv8>, i: nat, output: seq<bv8>, o: nat, was: seq<bv8>, xs: seq<bv8>, k: nat,
                      ys: seq<bv8>, y: Block, input': seq<bv8>, output': seq<bv8>)
    requires i + |xs| <= |input| == |input'| && o + |xs| <= |output| == |was| == |output'| && k + 16 <= |xs|
    requires Streamed(input, i, output, o, was, xs, k, ys)
    requires output'[o + k..o + k + 16] == y && output'[..o + k] == output[..o + k]
    requires output'[o + k + 16..] == output[o + k + 16..]
    requires input' == input || (o <= i && input == output && input' == output')
    ensures input[i + k..i + k + 16] == xs[k..k + 16]
    ensures Streamed(input', i, output', o, was, xs, k + 16, ys + y)
  {
    BlockRead(input, i, xs, k);
    BlockTail(input, i, xs, k, input', if input' == input then i + k else o + k);
    BlockWritten(output, o, was, k, ys, y, output');
  }

  lemma BlockRead(input: seq<bv8>, i: nat, xs: seq<bv8>, k: nat)
    requires i + |xs| <= |input| && k + 16 <= |xs| && input[i + k..i + |xs|] == xs[k..]
    ensures input[i + k..i + k + 16] == xs[k..k + 16]
  {
    assert input[i + k..i + k + 16] == input[i + k..i + |xs|][..16] && xs[k..k + 16] == xs[k..][..16];
  }

  lemma BlockTail(input: seq<bv8>, i: nat, xs: seq<bv8>, k: nat, input': seq<bv8>, p: nat)
    requires i + |xs| <= |input| == |input'| && k + 16 <= |xs| && input[i + k..i + |xs|] == xs[k..]
    requires p <= i + k && input'[p + 16..] == input[p + 16..]
    ensures input'[i + k + 16..i + |xs|] == xs[k + 16..]
  {
    var m := i + k - p;
    assert input'[i + k + 16..i + |xs|] == input'[p + 16..][m..i + |xs| - p - 16];
    assert input[i + k + 16..i + |xs|] == input[p + 16..][m..i + |xs| - p - 16];
    assert input[i + k + 16..i + |xs|] == input[i + k..i + |xs|][16..];
  }

  lemma BlockWritten(output: seq<bv8>, o: nat, was: seq<bv8>, k: nat, ys: seq<bv8>, y: Block, output': seq<bv8>)
    requires o + k + 16 <= |output| == |was| == |output'| && |ys| == k && output == was[..o] + ys + was[o + k..]
    requires output'[o + k..o + k + 16] == y && output'[..o + k] == output[..o + k]
    requires output'[o + k + 16..] == output[o + k + 16..]
    ensures output' == was[..o] + (ys + y) + was[o + k + 16..]
  {
    assert output[..o + k] == was[..o] + ys && output[o + k + 16..] == was[o + k + 16..];
    assert output' == output'[..o + k] + output'[o + k..o + k + 16] + output'[o + k + 16..];
  }

  /** One block in either mode. */
  method OneBlock(t: Tables, ctx: AesContext, mode: Mode, iv: array<bv8>, input: array<bv8>, i: nat,
                  output: array<bv8>, o: nat, ghost f: Block -> Block, ghost chain: Block, ghost b: Block)
    requires Good(t) && ctx.Ready() && Does(ctx, mode, f) && iv.Length == 16
    requires i + 16 <= input.Length && o + 16 <= output.Length
    requires iv != input && iv != output && Streamable(input, i, output, o)
    requires iv[..] == chain && input[i..i + 16] == b
    modifies iv, output
    ensures var y := CbcBlock(f, mode, chain, b); output[o..o + 16] == y && iv[..] == NextChain(mode, b, y)
    ensures output[..o] == old(output[..o]) && output[o + 16..] == old(output[o + 16..])
  {
    if mode == Decrypt {
      DecryptOne(t, ctx, iv, input, i, output, o, f);
    } else {
      EncryptOne(t, ctx, iv, input, i, output, o, f);
    }
  }

  /** One block of the message from input to output. */
  method CbcTurn(t: Tables, ctx: AesContext, mode: Mode, iv: array<bv8>, input: array<bv8>, i: nat,
                 output: array<bv8>, o: nat, k: nat, ghost f: Block -> Block, ghost was: seq<bv8>, ghost xs: seq<bv8>,
                 ghost chain: Block, ghost b: Block, ghost ys: seq<bv8>, ghost y: Block)
    requires Good(t) && ctx.Ready() && Does(ctx, mode, f) && iv.Length == 16
    requires i + |xs| <= input.Length && o + |xs| <= output.Length == |was| && k + 16 <= |xs|
    requires iv != input && iv != output && Streamable(input, i, output, o)
    requires iv[..] == chain && b == xs[k..k + 16] && y == CbcBlock(f, mode, chain, b)
    requires Streamed(input[..], i, output[..], o, was, xs, k, ys)
    modifies iv, output
    ensures iv[..] == NextChain(mode, b, y)
    ensures Streamed(input[..], i, output[..], o, was, xs, k + 16, ys + y)
  {
    ghost var in0, out0 := input[..], output[..];
    BlockRead(in0, i, xs, k);
    OneBlock(t, ctx, mode, iv, input, i + k, output, o + k, f, chain, b);
    ghost var in1, out1 := input[..], output[..];
    if input == output {
      assert in1 == out1 && in0 == out0;
    } else {
      assert in1 == in0;
    }
    StreamedBlock(in0, i, out0, o, was, xs, k, ys, y, in1, out1);
  }

  /** One turn of the loop in either mode. */
  method CbcOn(t: Tables, ctx: AesContext, mode: Mode, iv: array<bv8>, input: array<bv8>, i: nat,
               output: array<bv8>, o: nat, k: nat, ghost f: Block -> Block, ghost was: seq<bv8>, ghost xs: seq<bv8>,
               ghost iv0: Block, ghost ys: seq<bv8>) returns (ghost ys': seq<bv8>)
    requires Good(t) && ctx.Ready() && Does(ctx, mode, f) && iv.Length == 16
    requires i + |xs| <= input.Length && o + |xs| <= output.Length == |was| && k + 16 <= |xs|
    requires iv != input && iv != output && Streamable(input, i, output, o)
    requires CbcDone(f, mode, iv0, xs[..k], iv[..], ys) && Streamed(input[..], i, output[..], o, was, xs, k, ys)
    modifies iv, output
    ensures Does(ctx, mode, f)
    ensures CbcDone(f, mode, iv0, xs[..k + 16], iv[..], ys')
    ensures Streamed(input[..], i, output[..], o, was, xs, k + 16, ys')
  {
    ghost var chain: Block, b: Block := iv[..], xs[k..k + 16];
    ghost var y := CbcBlock(f, mode, chain, b);
    ys' := ys + y;
    OneMoreBlock(f, mode, iv0, xs[..k], b, chain, ys, y);
    TakeTwice(xs, k, k + 16);
    CbcTurn(t, ctx, mode, iv, input, i, output, o, k, f, was, xs, chain, b, ys, y);
    assert unchanged(ctx, ctx.buf);
  }

  /** aes_crypt_cbc: refuses a length that is not of whole blocks. */
  method CryptCbc(t: Tables, ctx: AesContext, mode: Mode, length: nat, iv: array<bv8>, input: array<bv8>, i: nat,
                  output: array<bv8>, o: nat, ghost f: Block -> Block) returns (ret: int)
    requires Good(t) && ctx.Ready() && Does(ctx, mode, f) && iv.Length == 16
    requires i + length <= input.Length && o + length <= output.Length
    requires iv != input && iv != output && Streamable(input, i, output, o)
    modifies iv, output
    ensures ret == if length % 16 == 0 then 0 else ERR_INVALID_INPUT_LENGTH
    ensures length % 16 != 0 ==> iv[..] == old(iv[..]) && output[..] == old(output[..])
    ensures length % 16 == 0 ==> iv[..] == CbcIv(f, mode, old(iv[..]), old(input[i..i + length]))
    ensures length % 16 == 0 ==>
              output[..] == old(output[..o]) + CbcOut(f, mode, old(iv[..]), old(input[i..i + length]))
                + old(output[o + length..])
  {
    if length % 16 != 0 {
      return ERR_INVALID_INPUT_LENGTH;
    }
    ghost var xs, was := input[i..i + length], output[..];
    StreamedFirst(input[..], i, was, o, xs);
    ghost var ys := CbcLoop(t, ctx, mode, length, iv, input, i, output, o, f, was, xs);
    StreamedLast(input[..], i, output[..], o, was, xs, ys);
    ret := 0;
  }

  /** Its loop. */
  method CbcLoop(t: Tables, ctx: AesContext, mode: Mode, length: nat, iv: array<bv8>, input: array<bv8>, i: nat,
                 output: array<bv8>, o: nat, ghost f: Block -> Block, ghost was: seq<bv8>, ghost xs: seq<bv8>)
    returns (ghost ys: seq<bv8>)
    requires Good(t) && ctx.Ready() && Does(ctx, mode, f) && iv.Length == 16
    requires length == |xs| && length % 16 == 0
    requires i + |xs| <= input.Length && o + |xs| <= output.Length == |was|
    requires iv != input && iv != output && Streamable(input, i, output, o)
    requires Streamed(input[..], i, output[..], o, was, xs, 0, [])
    modifies iv, output
    ensures CbcDone(f, mode, old(iv[..]), xs, iv[..], ys)
    ensures Streamed(input[..], i, output[..], o, was, xs, length, ys)
  {
    ghost var iv0: Block := iv[..];
    var k := 0;
    ys := [];
    assert xs[..0] == [];
    while k < length
      invariant k % 16 == 0 && k <= length && Does(ctx, mode, f)
      invariant CbcDone(f, mode, iv0, xs[..k], iv[..], ys)
      invariant Streamed(input[..], i, output[..], o, was, xs, k, ys)
    {
      ys := CbcOn(t, ctx, mode, iv, input, i, output, o, k, f, was, xs, iv0, ys);
      k := k + 16;
    }
    assert xs[..k] == xs;
  }

  // ----- two contexts with one key

  /** The block functions of two contexts, the second undoing the first. */
  ghost predicate Inverses(enc: AesContext, dec: AesContext, e: Block -> Block, d: Block -> Block)
    requires enc.Ready() && dec.Ready()
    reads enc, enc.buf, dec, dec.buf
  {
    Does(enc, Encrypt, e) && Does(dec, Decrypt, d) && Undoes(d, e)
  }

  ghost predicate Undoes(d: Block -> Block, e: Block -> Block) {
    forall b: Block :: d(e(b)) == b
  }

  lemma InverseContexts(enc: AesContext, dec: AesContext) returns (e: Block -> Block, d: Block -> Block)
    requires enc.Ready() && dec.Ready() && InverseSchedule(Layer(), enc.Keys(), dec.Keys())
    ensures Inverses(enc, dec, e, d)
  {
    var rk, dk := enc.Keys(), dec.Keys();
    e := (b: Block) => EncryptBlock(rk, b);
    d := (b: Block) => DecryptBlock(dk, b);
    forall b: Block ensures DoesAt(enc, Encrypt, e, b) {}
    forall b: Block ensures DoesAt(dec, Decrypt, d, b) {}
    forall b: Block ensures d(e(b)) == b {
      DecryptUndoesEncrypt(rk, dk, b);
    }
  }

  /** A block encrypted in place under one context and decrypted in place under the other. */
  method EcbTwice(t: Tables, enc: AesContext, dec: AesContext, data: array<bv8>, i: nat,
                  ghost e: Block -> Block, ghost d: Block -> Block)
    requires Good(t) && enc.Ready() && dec.Ready() && Inverses(enc, dec, e, d) && i + 16 <= data.Length
    modifies data
    ensures data[..] == old(data[..])
  {
    ghost var was := data[..];
    Apply(t, enc, Encrypt, data, i, data, i, e);
    assert unchanged(dec, dec.buf) && Does(dec, Decrypt, d);
    Apply(t, dec, Decrypt, data, i, data, i, d);
    assert data[i..i + 16] == was[i..i + 16];
    BlockBack(was, data[..], i);
  }

  lemma BlockBack<T>(was: seq<T>, now: seq<T>, i: nat)
    requires i + 16 <= |was| == |now|
    requires now[..i] == was[..i] && now[i + 16..] == was[i + 16..] && now[i..i + 16] == was[i..i + 16]
    ensures now == was
  {
    assert was == was[..i] + was[i..i + 16] + was[i + 16..];
    assert now == now[..i] + now[i..i + 16] + now[i + 16..];
  }

  /** Two contexts set up with one key, for encryption and for decryption: a block encrypted
      under the one and decrypted under the other comes back. */
  method EcbThereAndBack(t: Tables, enc: AesContext, dec: AesContext, key: seq<bv8>, keysize: nat, data: array<bv8>,
                         i: nat)
    requires Good(t) && enc.Valid() && dec.Valid() && enc != dec && enc.buf != dec.buf
    requires ValidKeySize(keysize) && keysize <= 8 * |key| && i + 16 <= data.Length
    modifies enc`nr, enc.buf, dec`nr, dec.buf, data
    ensures data[..] == old(data[..])
  {
    SetBothKeys(t, enc, dec, key, keysize);
    ghost var e, d := InverseContexts(enc, dec);
    EcbTwice(t, enc, dec, data, i, e, d);
  }

  /** A message of whole blocks encrypted in place under one context and decrypted in place
      under the other, from two copies of one initialisation vector. */
  method CbcTwice(t: Tables, enc: AesContext, dec: AesContext, data: array<bv8>, iv: array<bv8>, iv2: array<bv8>,
                  ghost e: Block -> Block, ghost d: Block -> Block)
    requires Good(t) && enc.Ready() && dec.Ready() && Inverses(enc, dec, e, d) && data.Length % 16 == 0
    requires iv.Length == iv2.Length == 16 && iv != iv2 && iv != data && iv2 != data && iv[..] == iv2[..]
    modifies iv, iv2, data
    ensures data[..] == old(data[..]) && iv[..] == iv2[..]
  {
    ghost var v: Block, x := iv[..], data[..];
    CbcWholeBuffer(t, enc, Encrypt, iv, data, e);
    assert unchanged(dec, dec.buf) && Does(dec, Decrypt, d);
    CbcWholeBuffer(t, dec, Decrypt, iv2, data, d);
    CbcRoundTrip(e, d, v, x);
  }

  /** aes_crypt_cbc of a whole buffer onto itself. */
  method CbcWholeBuffer(t: Tables, ctx: AesContext, mode: Mode, iv: array<bv8>, data: array<bv8>,
                        ghost f: Block -> Block)
    requires Good(t) && ctx.Ready() && Does(ctx, mode, f) && iv.Length == 16 && iv != data && data.Length % 16 == 0
    modifies iv, data
    ensures iv[..] == CbcIv(f, mode, old(iv[..]), old(data[..]))
    ensures data[..] == CbcOut(f, mode, old(iv[..]), old(data[..]))
  {
    ghost var v: Block, x := iv[..], data[..];
    assert data[0..data.Length] == x && data[..0] == [] && data[data.Length..] == [];
    var ret := CryptCbc(t, ctx, mode, data.Length, iv, data, 0, data, 0, f);
    assert data[..] == [] + CbcOut(f, mode, v, x) + [];
  }

  /** The same of contexts set up with one key: the message comes back, and the two chaining
      blocks agree afterwards. */
  method CbcThereAndBack(t: Tables, enc: AesContext, dec: AesContext, key: seq<bv8>, keysize: nat,
                         data: array<bv8>, iv: array<bv8>, iv2: array<bv8>)
    requires Good(t) && enc.Valid() && dec.Valid() && enc != dec && enc.buf != dec.buf
    requires ValidKeySize(keysize) && keysize <= 8 * |key| && data.Length % 16 == 0
    requires iv.Length == iv2.Length == 16 && iv != iv2 && iv != data && iv2 != data && iv[..] == iv2[..]
    modifies enc`nr, enc.buf, dec`nr, dec.buf, data, iv, iv2
    ensures data[..] == old(data[..]) && iv[..] == iv2[..]
  {
    SetBothKeys(t, enc, dec, key, keysize);
    ghost var e, d := InverseContexts(enc, dec);
    CbcTwice(t, enc, dec, data, iv, iv2, e, d);
  }
}
