/**
 * The encrypted uplink: bytes enter the node's ring, are flushed zero-padded through
 * CFB128, cross the TCP stream, and are decrypted, unpadded and cut into CRLF lines by the
 * server (node_main/network.cpp, server.py). A run is any interleaving of writes, flushes
 * and 16-byte reads.
 */
module Uplink {
  import opened Aes
  import opened AesModes
  import opened Sequences

  const CR: bv8 := 13
  const LF: bv8 := 10

  // ----- padding

  ghost predicate NulFree(s: seq<bv8>) {
    forall i :: 0 <= i < |s| ==> s[i] != 0
  }

  function Zeros(n: nat): (z: seq<bv8>)
    ensures |z| == n && forall i :: 0 <= i < n ==> z[i] == 0
  {
    seq(n, _ => 0)
  }

  /** Zero bytes up to a multiple of the block size. */
  function Pad(s: seq<bv8>): (p: seq<bv8>)
    ensures |p| % 16 == 0 && |s| <= |p| < |s| + 16
  {
    if |s| % 16 == 0 then s else s + Zeros(16 - |s| % 16)
  }

  /** rstrip of NUL bytes. */
  function RStrip(s: seq<bv8>): (r: seq<bv8>)
    ensures |r| <= |s|
  {
    if s != [] && s[|s| - 1] == 0 then RStrip(s[..|s| - 1]) else s
  }

  /** Padding adds zeros, and no whole block of them. */
  lemma PadExact(s: seq<bv8>)
    ensures s <= Pad(s) && |Pad(s)| % 16 == 0 && |Pad(s)| < |s| + 16
    ensures forall i :: |s| <= i < |Pad(s)| ==> Pad(s)[i] == 0
  {
  }

  /** What is left ends in a nonzero byte, and what is gone is zeros. */
  lemma {:induction false} RStripExact(s: seq<bv8>)
    ensures RStrip(s) <= s && (RStrip(s) == [] || RStrip(s)[|RStrip(s)| - 1] != 0)
    ensures forall i :: |RStrip(s)| <= i < |s| ==> s[i] == 0
    decreases |s|
  {
    if s != [] && s[|s| - 1] == 0 { RStripExact(s[..|s| - 1]); }
  }

  lemma {:induction false} RStripZeros(s: seq<bv8>, n: nat)
    requires s == [] || s[|s| - 1] != 0
    ensures RStrip(s + Zeros(n)) == s
  {
    if n == 0 {
      assert s + Zeros(0) == s;
    } else {
      var t := s + Zeros(n);
      assert t[..|t| - 1] == s + Zeros(n - 1);
      RStripZeros(s, n - 1);
    }
  }

  /** What the server makes of a plaintext, block by block. */
  function Unpadded(p: seq<bv8>): seq<bv8>
    requires |p| % 16 == 0
  {
    if p == [] then [] else Unpadded(p[..|p| - 16]) + RStrip(p[|p| - 16..])
  }

  lemma UnpaddedLast(p: seq<bv8>, b: seq<bv8>)
    requires |p| % 16 == 0 && |b| == 16
    ensures |p + b| % 16 == 0 && Unpadded(p + b) == Unpadded(p) + RStrip(b)
  {
    SumOfBlocks(|p|, |b|);
    SlicesOfSum(p, b, 0);
    NothingAfter(p);
    assert (p + b)[..|p + b| - 16] == p && (p + b)[|p + b| - 16..] == b;
  }

  lemma {:induction false} UnpaddedJoins(p: seq<bv8>, q: seq<bv8>)
    requires |p| % 16 == 0 && |q| % 16 == 0
    ensures |p + q| % 16 == 0 && Unpadded(p + q) == Unpadded(p) + Unpadded(q)
    decreases |q|
  {
    if q == [] {
      NothingAfter(p);
      NothingAfter(Unpadded(p));
    } else {
      var front, b := q[..|q| - 16], q[|q| - 16..];
      UnpaddedJoins(p, front);
      SplitAt(q, |q| - 16);
      Regroup(p, front, b);
      UnpaddedLast(p + front, b);
      Regroup(Unpadded(p), Unpadded(front), RStrip(b));
    }
  }

  /** No 16-byte block of a chunk ends in a NUL, counting its last, shorter one. */
  ghost predicate CleanEnds(c: seq<bv8>)
    decreases |c|
  {
    c == [] || (c[|c| - 1] != 0 && CleanEnds(c[..LastStart(|c|)]))
  }

  lemma {:induction false} NulFreeIsClean(c: seq<bv8>)
    requires NulFree(c)
    ensures CleanEnds(c)
    decreases |c|
  {
    if c != [] { NulFreeIsClean(c[..LastStart(|c|)]); }
  }

  /** Where the last block of a chunk of n bytes begins. */
  function LastStart(n: nat): (k: nat)
    requires n > 0
    ensures k % 16 == 0 && k < n <= k + 16
  {
    (n - 1) / 16 * 16
  }

  /** The last block of a chunk, after padding. */
  lemma PadSplits(c: seq<bv8>)
    requires c != []
    ensures var k := LastStart(|c|);
            && c == c[..k] + c[k..] && c[k..][|c| - k - 1] == c[|c| - 1]
            && Pad(c) == c[..k] + Pad(c[k..]) && |Pad(c[k..])| == 16
  {
    var k := LastStart(|c|);
    LastLength(|c|);
    SplitAt(c, k);
  }

  lemma LastLength(n: nat)
    requires n > 0
    ensures (n - LastStart(n)) % 16 == n % 16
  {
  }

  lemma {:induction false} UnpaddedShorter(p: seq<bv8>)
    requires |p| % 16 == 0
    ensures |Unpadded(p)| <= |p|
    decreases |p|
  {
    if p != [] { UnpaddedShorter(p[..|p| - 16]); }
  }

  lemma {:induction false} LastBlockOfPad(d: seq<bv8>)
    requires 0 < |d| <= 16
    ensures d[|d| - 1] != 0 ==> RStrip(Pad(d)) == d
    ensures d[|d| - 1] == 0 ==> |RStrip(Pad(d))| < |d|
  {
    if d[|d| - 1] != 0 {
      RStripZeros(d, 16 - |d|);
      assert Pad(d) == d + Zeros(16 - |d|);
    } else {
      assert Pad(d) == d + Zeros(16 - |d|);
      RStripDrops(d, 16 - |d|);
    }
  }

  lemma {:induction false} RStripDrops(d: seq<bv8>, n: nat)
    requires d != [] && d[|d| - 1] == 0
    ensures |RStrip(d + Zeros(n))| < |d|
  {
    var t := d + Zeros(n);
    if n == 0 {
      assert t == d;
    } else {
      assert t[..|t| - 1] == d + Zeros(n - 1);
      RStripDrops(d, n - 1);
    }
  }

  /** A flushed chunk comes through padding and unpadding exactly when its blocks do not
      end in NULs. */
  lemma {:induction false} PadRoundTrip(c: seq<bv8>)
    ensures Unpadded(Pad(c)) == c <==> CleanEnds(c)
    decreases |c|
  {
    if c != [] {
      var k := LastStart(|c|);
      var front, d := c[..k], c[k..];
      PadRoundTrip(front);
      PadSplits(c);
      PadChunk(front, d, c);
    }
  }

  lemma PadChunk(front: seq<bv8>, d: seq<bv8>, c: seq<bv8>)
    requires |front| % 16 == 0 && 0 < |d| <= 16 && c == front + d && Pad(c) == front + Pad(d) && |Pad(d)| == 16
    ensures Unpadded(Pad(c)) == c <==> d[|d| - 1] != 0 && Unpadded(Pad(front)) == front
  {
    assert Pad(front) == front;
    UnpaddedJoins(front, Pad(d));
    UnpaddedOne(Pad(d));
    LastBlockOfPad(d);
    UnpaddedShorter(front);
    SameSplit(Unpadded(front), RStrip(Pad(d)), front, d);
  }

  /** Unpadding never makes a chunk longer. */
  lemma {:induction false} UnpadNoLonger(c: seq<bv8>)
    ensures |Unpadded(Pad(c))| <= |c|
    decreases |c|
  {
    if c != [] {
      var k := LastStart(|c|);
      PadSplits(c);
      assert Pad(c[..k]) == c[..k];
      UnpadNoLonger(c[..k]);
      LastBlockNoLonger(c[..k], c[k..]);
    }
  }

  lemma LastBlockNoLonger(front: seq<bv8>, d: seq<bv8>)
    requires |front| % 16 == 0 && 0 < |d| <= 16 && |Pad(d)| == 16
    ensures |Unpadded(front + Pad(d))| <= |Unpadded(front)| + |d|
  {
    UnpaddedJoins(front, Pad(d));
    UnpaddedOne(Pad(d));
    LastBlockOfPad(d);
  }

  lemma SameSplit(a: seq<bv8>, b: seq<bv8>, c: seq<bv8>, d: seq<bv8>)
    requires |a| <= |c| && |b| <= |d|
    ensures a + b == c + d <==> a == c && b == d
  {
    if a + b == c + d {
      assert |a| + |b| == |c| + |d|;
      assert a == (a + b)[..|a|] && c == (c + d)[..|c|];
      assert b == (a + b)[|a|..] && d == (c + d)[|c|..];
    }
  }

  lemma UnpaddedOne(p: seq<bv8>)
    requires |p| == 16
    ensures Unpadded(p) == RStrip(p)
  {
    assert p[..0] == [] && p[0..] == p;
    assert Unpadded(p[..0]) == [];
  }

  // ----- the chunks of several flushes

  /** What entered with these chunks. */
  function Flat(cs: seq<seq<bv8>>): seq<bv8> {
    if cs == [] then [] else Flat(cs[..|cs| - 1]) + cs[|cs| - 1]
  }

  /** The plaintext their flushes encrypt. */
  function Plain(cs: seq<seq<bv8>>): (p: seq<bv8>)
    ensures |p| % 16 == 0
  {
    if cs == [] then []
    else
      SumOfBlocks(|Plain(cs[..|cs| - 1])|, |Pad(cs[|cs| - 1])|);
      Plain(cs[..|cs| - 1]) + Pad(cs[|cs| - 1])
  }

  /** What unpadding makes of each chunk on its own. */
  function Recovered(cs: seq<seq<bv8>>): seq<bv8> {
    if cs == [] then [] else Recovered(cs[..|cs| - 1]) + Unpadded(Pad(cs[|cs| - 1]))
  }

  ghost predicate AllClean(cs: seq<seq<bv8>>) {
    forall i :: 0 <= i < |cs| ==> CleanEnds(cs[i])
  }

  /** The server's block by block unpadding is chunk by chunk. */
  lemma {:induction false} PlainRecovers(cs: seq<seq<bv8>>)
    ensures Unpadded(Plain(cs)) == Recovered(cs)
  {
    if cs != [] {
      var front := cs[..|cs| - 1];
      PlainRecovers(front);
      UnpaddedJoins(Plain(front), Pad(cs[|cs| - 1]));
    }
  }

  lemma {:induction false} RecoveredNoLonger(cs: seq<seq<bv8>>)
    ensures |Recovered(cs)| <= |Flat(cs)|
  {
    if cs != [] {
      RecoveredNoLonger(cs[..|cs| - 1]);
      UnpadNoLonger(cs[|cs| - 1]);
    }
  }

  /** The chunks come through together exactly when each of them does. */
  lemma {:induction false} RecoveredExactly(cs: seq<seq<bv8>>)
    ensures Recovered(cs) == Flat(cs) <==> AllClean(cs)
  {
    if cs != [] {
      var front, c := cs[..|cs| - 1], cs[|cs| - 1];
      RecoveredExactly(front);
      RecoveredNoLonger(front);
      UnpadNoLonger(c);
      PadRoundTrip(c);
      SameSplit(Recovered(front), Unpadded(Pad(c)), Flat(front), c);
      CleanSplits(cs);
    }
  }

  lemma CleanSplits(cs: seq<seq<bv8>>)
    requires cs != []
    ensures AllClean(cs) <==> AllClean(cs[..|cs| - 1]) && CleanEnds(cs[|cs| - 1])
  {
    var front := cs[..|cs| - 1];
    if AllClean(front) && CleanEnds(cs[|cs| - 1]) {
      forall i | 0 <= i < |cs| ensures CleanEnds(cs[i]) {
        if i < |front| { assert CleanEnds(front[i]); }
      }
    }
    if AllClean(cs) {
      forall i | 0 <= i < |front| ensures CleanEnds(front[i]) {
        assert front[i] == cs[i];
      }
    }
  }

  lemma {:induction false} NulFreeChunks(cs: seq<seq<bv8>>)
    requires NulFree(Flat(cs))
    ensures AllClean(cs)
  {
    if cs != [] {
      var front, c := cs[..|cs| - 1], cs[|cs| - 1];
      NulFreeParts(Flat(front), c);
      NulFreeChunks(front);
      NulFreeIsClean(c);
      CleanSplits(cs);
    }
  }

  lemma NulFreeParts(a: seq<bv8>, b: seq<bv8>)
    requires NulFree(a + b)
    ensures NulFree(a) && NulFree(b)
  {
    forall i | 0 <= i < |a| ensures a[i] != 0 {
      assert (a + b)[i] == a[i];
    }
    forall i | 0 <= i < |b| ensures b[i] != 0 {
      assert (a + b)[|a| + i] == b[i];
    }
  }

  /** One flushed chunk that ends in a NUL loses it. */
  lemma NulLost()
    ensures Recovered([[1, 0]]) == [1] != Flat([[1, 0]])
  {
    var c: seq<bv8> := [1, 0];
    var cs := [c];
    assert cs[..0] == [] && Flat(cs) == [] + c && Recovered(cs) == [] + Unpadded(Pad(c));
    assert Pad(c) == [1] + Zeros(15);
    UnpaddedOne(Pad(c));
    RStripZeros([1], 15);
  }

  // ----- lines

  /** The index of the first CRLF, or -1. */
  function FindCrlf(s: seq<bv8>): (r: int)
    ensures -1 <= r && (r >= 0 ==> r + 2 <= |s|)
  {
    if |s| < 2 then -1
    else if s[0] == CR && s[1] == LF then 0
    else
      var r := FindCrlf(s[1..]);
      if r < 0 then -1 else r + 1
  }

  lemma {:induction false} FindCrlfFirst(s: seq<bv8>, i: nat)
    requires i + 2 <= |s|
    ensures FindCrlf(s) == i ==> s[i] == CR && s[i + 1] == LF
    ensures s[i] == CR && s[i + 1] == LF ==> 0 <= FindCrlf(s) <= i
  {
    if i > 0 { FindCrlfFirst(s[1..], i - 1); }
  }

  lemma {:induction false} FindCrlfStays(s: seq<bv8>, t: seq<bv8>)
    requires FindCrlf(s) >= 0
    ensures FindCrlf(s + t) == FindCrlf(s)
  {
    if !(s[0] == CR && s[1] == LF) {
      SlicesOfFirst(s, t, 1);
      FindCrlfStays(s[1..], t);
    }
  }

  /** strip("\r\n"): those two characters off both ends. */
  function Strip(s: seq<bv8>): seq<bv8>
    decreases |s|
  {
    if s == [] then []
    else if s[0] == CR || s[0] == LF then Strip(s[1..])
    else if s[|s| - 1] == CR || s[|s| - 1] == LF then Strip(s[..|s| - 1])
    else s
  }

  /** The complete lines of a text, each stripped. */
  function Lines(s: seq<bv8>): seq<seq<bv8>>
    decreases |s|
  {
    var i := FindCrlf(s);
    if i < 0 then [] else [Strip(s[..i + 2])] + Lines(s[i + 2..])
  }

  /** What follows the last complete line. */
  function Rest(s: seq<bv8>): seq<bv8>
    decreases |s|
  {
    var i := FindCrlf(s);
    if i < 0 then s else Rest(s[i + 2..])
  }

  /** Splitting can be done as the text comes in. */
  lemma {:induction false} LinesIncremental(s: seq<bv8>, t: seq<bv8>)
    ensures Lines(s + t) == Lines(s) + Lines(Rest(s) + t)
    ensures Rest(s + t) == Rest(Rest(s) + t)
    decreases |s|
  {
    var i := FindCrlf(s);
    if i >= 0 {
      FindCrlfStays(s, t);
      SlicesOfFirst(s, t, i + 2);
      LinesIncremental(s[i + 2..], t);
      Regroup([Strip(s[..i + 2])], Lines(s[i + 2..]), Lines(Rest(s) + t));
    }
  }

  // ----- the server's read loop

  /** Deliver lines until none is left, or until one cannot be decoded: the pieces handled
      and the text kept. */
  function Drain(bad: seq<bv8> -> bool, line: seq<bv8>): (r: (seq<seq<bv8>>, seq<bv8>))
    decreases |line|
  {
    var i := FindCrlf(line);
    if i < 0 then ([], line)
    else
      var piece := Strip(line[..i + 2]);
      if bad(piece) then ([piece], line[i + 2..])
      else
        var (hs, rest) := Drain(bad, line[i + 2..]);
        ([piece] + hs, rest)
  }

  /** Nothing is lost or reordered, and only an undecodable line leaves complete lines waiting. */
  lemma {:induction false} DrainSplits(bad: seq<bv8> -> bool, line: seq<bv8>)
    ensures var (hs, rest) := Drain(bad, line);
            && hs + Lines(rest) == Lines(line)
            && Rest(rest) == Rest(line)
            && (Lines(rest) != [] ==> hs != [] && bad(hs[|hs| - 1]))
    decreases |line|
  {
    var i := FindCrlf(line);
    if i >= 0 {
      var piece, tail := Strip(line[..i + 2]), line[i + 2..];
      if !bad(piece) {
        DrainSplits(bad, tail);
        var (hs, rest) := Drain(bad, tail);
        assert ([piece] + hs) + Lines(rest) == [piece] + (hs + Lines(rest));
      }
    }
  }

  /** Only the last piece handed on can be undecodable. */
  lemma {:induction false} DrainStops(bad: seq<bv8> -> bool, line: seq<bv8>, k: nat)
    requires k + 1 < |Drain(bad, line).0|
    ensures !bad(Drain(bad, line).0[k])
    decreases k
  {
    if k > 0 { DrainStops(bad, line[FindCrlf(line) + 2..], k - 1); }
  }

  /** The server's side of a connection. */
  datatype Reader = Reader(iv: Block, text: seq<bv8>, line: seq<bv8>, handled: seq<seq<bv8>>)

  /** One read of 16 bytes: decrypt, unpad, append, deliver. */
  function ReadBlock(e: Block -> Block, bad: seq<bv8> -> bool, r: Reader, c: Block): Reader {
    var m := RStrip(XorWith(e(r.iv), c));
    var (hs, rest) := Drain(bad, r.line + m);
    Reader(c, r.text + m, rest, r.handled + hs)
  }

  // ----- the node's send path

  /** Bytes waiting, whether a send is under way, and the stream cipher's position. */
  datatype Node = Node(ring: seq<bv8>, txing: bool, fb: Feedback)

  /** connection_tx_write_finish_cb: all that is waiting, padded and encrypted. */
  function Flush(e: Block -> Block, nd: Node): (r: (Node, seq<bv8>))
    requires InBlock(nd.fb)
    ensures InBlock(r.0.fb)
  {
    if nd.ring == [] then (nd.(txing := false), [])
    else
      var p := Pad(nd.ring);
      (Node([], true, CfbState(e, Encrypt, nd.fb, p)), CfbOut(e, Encrypt, nd.fb, p))
  }

  datatype Code = E_OK | E_FULL | E_NOT_READY

  /** Room in the ring, the flush threshold, the server's decoder and the cipher. */
  datatype Setup = Setup(e: Block -> Block, bad: seq<bv8> -> bool, capacity: nat, threshold: nat)

  /** network_puts, given whether the connection is kept alive, whether its TCP side is open,
      and whether the C string at data contains a CRLF. */
  function Puts(u: Setup, nd: Node, data: seq<bv8>, ready: bool, open: bool, crlf: bool): (r: (Code, Node, seq<bv8>))
    requires InBlock(nd.fb)
    ensures InBlock(r.1.fb)
  {
    if !ready then (E_NOT_READY, nd, [])
    else if !open then (E_OK, nd, [])
    else if |nd.ring| + |data| > u.capacity then (E_FULL, nd, [])
    else
      var written := nd.(ring := nd.ring + data);
      if (crlf || |written.ring| > u.threshold) && !nd.txing then
        var (flushed, sent) := Flush(u.e, written);
        (E_OK, flushed, sent)
      else (E_OK, written, [])
  }

  // ----- runs

  /** Node, network and server, with what has entered the ring and the chunks flushed so far. */
  datatype Link =
    Link(node: Node, entered: seq<bv8>, flushed: seq<seq<bv8>>, wire: seq<bv8>, pos: nat, reader: Reader)

  datatype Event =
    | Write(data: seq<bv8>, ready: bool, open: bool, crlf: bool)
    | Sent
    | Read

  /** Both sides start from the initialisation vector of the hello. */
  function Start(iv: Block): Link {
    Link(Node([], false, Feedback(0, iv)), [], [], [], 0, Reader(iv, [], [], []))
  }

  /** What a flush adds to the chunks: nothing, or all that is waiting. */
  function Chunk(ring: seq<bv8>): seq<seq<bv8>> {
    if ring == [] then [] else [ring]
  }

  function AfterFlush(u: Setup, l: Link): Link
    requires InBlock(l.node.fb)
  {
    var (nd, sent) := Flush(u.e, l.node);
    l.(node := nd, flushed := l.flushed + Chunk(l.node.ring), wire := l.wire + sent)
  }

  function AfterWrite(u: Setup, l: Link, ev: Event): Link
    requires InBlock(l.node.fb) && ev.Write?
  {
    var (code, nd, sent) := Puts(u, l.node, ev.data, ev.ready, ev.open, ev.crlf);
    var took := code == E_OK && ev.ready && ev.open;
    var ring := if took then l.node.ring + ev.data else l.node.ring;
    l.(node := nd,
       entered := if took then l.entered + ev.data else l.entered,
       flushed := l.flushed + if sent == [] then [] else [ring],
       wire := l.wire + sent)
  }

  function AfterRead(u: Setup, l: Link): Link {
    if l.pos + 16 <= |l.wire| then
      l.(reader := ReadBlock(u.e, u.bad, l.reader, l.wire[l.pos..l.pos + 16]), pos := l.pos + 16)
    else l
  }

  function Step(u: Setup, l: Link, ev: Event): (l': Link)
    requires InBlock(l.node.fb)
    ensures InBlock(l'.node.fb)
  {
    match ev
    case Write(_, _, _, _) => AfterWrite(u, l, ev)
    case Sent => AfterFlush(u, l)
    case Read => AfterRead(u, l)
  }

  function Run(u: Setup, iv: Block, evs: seq<Event>): (l: Link)
    ensures InBlock(l.node.fb)
  {
    if evs == [] then Start(iv) else Step(u, Run(u, iv, evs[..|evs| - 1]), evs[|evs| - 1])
  }

  ghost predicate NulFreeWrites(evs: seq<Event>) {
    forall i :: 0 <= i < |evs| && evs[i].Write? ==> NulFree(evs[i].data)
  }

  /** The wire is the encryption of the flushed chunks, and these followed by the ring are
      what entered. */
  ghost predicate NodeInv(u: Setup, iv: Block, l: Link) {
    && InBlock(l.node.fb)
    && l.wire == CfbOut(u.e, Encrypt, Feedback(0, iv), Plain(l.flushed))
    && l.node.fb == CfbState(u.e, Encrypt, Feedback(0, iv), Plain(l.flushed))
    && Flat(l.flushed) + l.node.ring == l.entered
  }

  /** The server has deciphered and unpadded the plaintext up to pos. */
  ghost predicate Deciphered(e: Block -> Block, iv: Block, wire: seq<bv8>, plain: seq<bv8>, pos: nat, r: Reader) {
    && pos % 16 == 0 && pos <= |plain| == |wire|
    && Feedback(0, r.iv) == CfbState(e, Decrypt, Feedback(0, iv), wire[..pos])
    && r.text == Unpadded(plain[..pos])
  }

  /** Handled lines and kept text are a split of the text received, and complete lines wait
      only behind one that could not be decoded. */
  ghost predicate Cut(bad: seq<bv8> -> bool, r: Reader) {
    && r.handled + Lines(r.line) == Lines(r.text)
    && Rest(r.line) == Rest(r.text)
    && (Lines(r.line) != [] ==> r.handled != [] && bad(r.handled[|r.handled| - 1]))
  }

  ghost predicate ReaderInv(u: Setup, iv: Block, l: Link) {
    Deciphered(u.e, iv, l.wire, Plain(l.flushed), l.pos, l.reader) && Cut(u.bad, l.reader)
  }

  lemma OneMoreChunk(cs: seq<seq<bv8>>, c: seq<bv8>)
    ensures Plain(cs + [c]) == Plain(cs) + Pad(c) && Flat(cs + [c]) == Flat(cs) + c
  {
    assert (cs + [c])[..|cs|] == cs;
  }

  /** A flush keeps the node's invariant. */
  lemma FlushKeeps(u: Setup, iv: Block, l: Link)
    requires NodeInv(u, iv, l)
    ensures NodeInv(u, iv, AfterFlush(u, l)) && Grown(l, AfterFlush(u, l))
  {
    NothingAfter(l.flushed);
    NothingAfter(l.wire);
    NothingAfter(l.entered);
    if l.node.ring != [] {
      OneMoreChunk(l.flushed, l.node.ring);
      FlushEncrypts(u.e, Feedback(0, iv), Plain(l.flushed), Pad(l.node.ring), l.node.fb, l.wire);
    }
  }

  lemma FlushEncrypts(e: Block -> Block, s: Feedback, plain: seq<bv8>, p: seq<bv8>, fb: Feedback, wire: seq<bv8>)
    requires InBlock(s) && InBlock(fb) && fb == CfbState(e, Encrypt, s, plain) && wire == CfbOut(e, Encrypt, s, plain)
    ensures CfbState(e, Encrypt, fb, p) == CfbState(e, Encrypt, s, plain + p)
    ensures wire + CfbOut(e, Encrypt, fb, p) == CfbOut(e, Encrypt, s, plain + p)
  {
    CfbSplits(e, Encrypt, s, plain, p);
  }

  /** More has been flushed and sent, and nothing has been read. */
  ghost predicate Grown(l: Link, l': Link) {
    && Plain(l.flushed) <= Plain(l'.flushed) && l.wire <= l'.wire
    && l'.pos == l.pos && l'.reader == l.reader
  }

  function Taken(l: Link, data: seq<bv8>): Link {
    l.(node := l.node.(ring := l.node.ring + data), entered := l.entered + data)
  }

  /** A write is refused, or takes the bytes, or takes them and flushes. */
  lemma WriteCases(u: Setup, l: Link, ev: Event)
    requires InBlock(l.node.fb) && ev.Write?
    ensures AfterWrite(u, l, ev) in {l, Taken(l, ev.data), AfterFlush(u, Taken(l, ev.data))}
  {
    var written := Taken(l, ev.data);
    NothingAfter(l.flushed);
    NothingAfter(l.wire);
    if !ev.ready || !ev.open || |l.node.ring| + |ev.data| > u.capacity {
      assert AfterWrite(u, l, ev) == l;
    } else if (ev.crlf || |written.node.ring| > u.threshold) && !l.node.txing {
      assert AfterWrite(u, l, ev) == AfterFlush(u, written);
    } else {
      assert AfterWrite(u, l, ev) == written;
    }
  }

  lemma TakenKeeps(u: Setup, iv: Block, l: Link, data: seq<bv8>)
    requires NodeInv(u, iv, l)
    ensures NodeInv(u, iv, Taken(l, data)) && Grown(l, Taken(l, data))
  {
    Regroup(Flat(l.flushed), l.node.ring, data);
  }

  lemma WriteKeeps(u: Setup, iv: Block, l: Link, ev: Event)
    requires NodeInv(u, iv, l) && ev.Write?
    ensures NodeInv(u, iv, AfterWrite(u, l, ev)) && Grown(l, AfterWrite(u, l, ev))
  {
    WriteCases(u, l, ev);
    TakenKeeps(u, iv, l, ev.data);
    FlushKeeps(u, iv, Taken(l, ev.data));
  }

  /** Growing the wire does not disturb what has been read. */
  lemma GrowthKeepsReader(u: Setup, iv: Block, l: Link, l': Link)
    requires ReaderInv(u, iv, l) && NodeInv(u, iv, l') && Grown(l, l')
    ensures ReaderInv(u, iv, l')
  {
    SamePrefix(Plain(l.flushed), Plain(l'.flushed), l.pos);
    SamePrefix(l.wire, l'.wire, l.pos);
  }

  /** One block decrypts to the block that was encrypted. */
  lemma BlockArrives(e: Block -> Block, iv: Block, wire: seq<bv8>, plain: seq<bv8>, pos: nat, r: Reader)
    requires wire == CfbOut(e, Encrypt, Feedback(0, iv), plain) && pos + 16 <= |wire|
    requires Deciphered(e, iv, wire, plain, pos, r)
    ensures XorWith(e(r.iv), wire[pos..pos + 16]) == plain[pos..pos + 16]
    ensures Feedback(0, wire[pos..pos + 16]) == CfbState(e, Decrypt, Feedback(0, iv), wire[..pos + 16])
  {
    var s, x, c := Feedback(0, iv), wire[..pos], wire[pos..pos + 16];
    PrefixDecrypts(e, s, plain, pos + 16);
    PrefixDecrypts(e, s, plain, pos);
    TakeTwice(wire, pos, pos + 16);
    TakeTwice(plain, pos, pos + 16);
    NextDecrypts(e, s, r.iv, x, c, plain[..pos], plain[pos..pos + 16], CfbState(e, Decrypt, s, x + c));
  }

  lemma NextDecrypts(e: Block -> Block, s: Feedback, iv: Block, x: seq<bv8>, c: Block, p: seq<bv8>, b: Block,
                     s': Feedback)
    requires InBlock(s) && CfbState(e, Decrypt, s, x) == Feedback(0, iv) && CfbState(e, Decrypt, s, x + c) == s'
    requires CfbOut(e, Decrypt, s, x) == p && CfbOut(e, Decrypt, s, x + c) == p + b
    ensures XorWith(e(iv), c) == b && s' == Feedback(0, c)
  {
    NextDone(e, s, iv, x, c, p, b, s');
    BlockDecrypts(e, iv, c, s', b);
  }

  lemma BlockDecrypts(e: Block -> Block, iv: Block, x: Block, s: Feedback, y: seq<bv8>)
    requires CfbDone(e, Decrypt, Feedback(0, iv), x, s, y)
    ensures s == Feedback(0, x) && y == XorWith(e(iv), x)
  {
    CfbBlock(e, Decrypt, iv, x, s, y);
  }

  lemma NextDone(e: Block -> Block, s: Feedback, iv: Block, x: seq<bv8>, c: Block, p: seq<bv8>, b: Block, s': Feedback)
    requires InBlock(s) && CfbState(e, Decrypt, s, x) == Feedback(0, iv) && CfbState(e, Decrypt, s, x + c) == s'
    requires CfbOut(e, Decrypt, s, x) == p && CfbOut(e, Decrypt, s, x + c) == p + b
    ensures CfbDone(e, Decrypt, Feedback(0, iv), c, s', b)
  {
    CfbSplits(e, Decrypt, s, x, c);
    SameTail(p, CfbOut(e, Decrypt, Feedback(0, iv), c), b);
  }

  /** Any prefix of the ciphertext decrypts to the same prefix of the plaintext. */
  lemma PrefixDecrypts(e: Block -> Block, s: Feedback, p: seq<bv8>, k: nat)
    requires InBlock(s) && k <= |p|
    ensures CfbOut(e, Decrypt, s, CfbOut(e, Encrypt, s, p)[..k]) == p[..k]
  {
    SplitAt(p, k);
    CfbSplits(e, Encrypt, s, p[..k], p[k..]);
    assert CfbOut(e, Encrypt, s, p)[..k] == CfbOut(e, Encrypt, s, p[..k]);
    CfbRoundTrip(e, s, p[..k]);
  }

  lemma ReadKeeps(u: Setup, iv: Block, l: Link)
    requires NodeInv(u, iv, l) && ReaderInv(u, iv, l)
    ensures NodeInv(u, iv, AfterRead(u, l)) && ReaderInv(u, iv, AfterRead(u, l))
  {
    if l.pos + 16 <= |l.wire| {
      var c := l.wire[l.pos..l.pos + 16];
      ReadDeciphers(u.e, u.bad, iv, l.wire, Plain(l.flushed), l.pos, l.reader, c);
      ReadCuts(u.e, u.bad, l.reader, c);
    }
  }

  lemma ReadDeciphers(e: Block -> Block, bad: seq<bv8> -> bool, iv: Block, wire: seq<bv8>, plain: seq<bv8>, pos: nat,
                      r: Reader, c: Block)
    requires wire == CfbOut(e, Encrypt, Feedback(0, iv), plain) && pos + 16 <= |wire| && c == wire[pos..pos + 16]
    requires Deciphered(e, iv, wire, plain, pos, r)
    ensures Deciphered(e, iv, wire, plain, pos + 16, ReadBlock(e, bad, r, c))
  {
    BlockArrives(e, iv, wire, plain, pos, r);
    UnpaddedNext(plain, pos);
  }

  /** Delivering from the kept text plus the new piece keeps the split of the whole text. */
  lemma ReadCuts(e: Block -> Block, bad: seq<bv8> -> bool, r: Reader, c: Block)
    requires Cut(bad, r)
    ensures Cut(bad, ReadBlock(e, bad, r, c))
  {
    var m := RStrip(XorWith(e(r.iv), c));
    LinesCarryOn(bad, r.text, r.handled, r.line, m);
    DrainSplits(bad, r.line + m);
  }

  lemma UnpaddedNext(p: seq<bv8>, k: nat)
    requires k % 16 == 0 && k + 16 <= |p|
    ensures (k + 16) % 16 == 0 && Unpadded(p[..k + 16]) == Unpadded(p[..k]) + RStrip(p[k..k + 16])
  {
    NextBlock(k, |p|);
    TakeTwice(p, k, k + 16);
    UnpaddedJoins(p[..k], p[k..k + 16]);
    UnpaddedOne(p[k..k + 16]);
  }

  lemma NextBlock(pos: nat, wire: nat)
    requires pos % 16 == 0 && pos + 16 <= wire
    ensures (pos + 16) % 16 == 0
  {
  }

  lemma LinesCarryOn(bad: seq<bv8> -> bool, text: seq<bv8>, handled: seq<seq<bv8>>, line: seq<bv8>, m: seq<bv8>)
    requires handled + Lines(line) == Lines(text) && Rest(line) == Rest(text)
    ensures var (hs, rest) := Drain(bad, line + m);
            (handled + hs) + Lines(rest) == Lines(text + m) && Rest(rest) == Rest(text + m)
  {
    var (hs, rest) := Drain(bad, line + m);
    DrainSplits(bad, line + m);
    LinesIncremental(text, m);
    LinesIncremental(line, m);
    Regrouped(handled, hs, Lines(rest), Lines(line), Lines(Rest(line) + m));
  }

  lemma Regrouped<T>(h: seq<T>, a: seq<T>, b: seq<T>, c: seq<T>, d: seq<T>)
    requires a + b == c + d
    ensures (h + a) + b == (h + c) + d
  {
    Regroup(h, a, b);
    Regroup(h, c, d);
  }

  /** Both invariants hold in every reachable state. */
  lemma {:induction false} RunKeeps(u: Setup, iv: Block, evs: seq<Event>)
    ensures NodeInv(u, iv, Run(u, iv, evs)) && ReaderInv(u, iv, Run(u, iv, evs))
  {
    if evs != [] {
      var front, ev := evs[..|evs| - 1], evs[|evs| - 1];
      RunKeeps(u, iv, front);
      StepKeeps(u, iv, Run(u, iv, front), ev);
    }
  }

  lemma StepKeeps(u: Setup, iv: Block, l: Link, ev: Event)
    requires NodeInv(u, iv, l) && ReaderInv(u, iv, l)
    ensures NodeInv(u, iv, Step(u, l, ev)) && ReaderInv(u, iv, Step(u, l, ev))
  {
    match ev
    case Write(_, _, _, _) =>
      WriteKeeps(u, iv, l, ev);
      GrowthKeepsReader(u, iv, l, AfterWrite(u, l, ev));
    case Sent =>
      FlushKeeps(u, iv, l);
      GrowthKeepsReader(u, iv, l, AfterFlush(u, l));
    case Read =>
      ReadKeeps(u, iv, l);
  }

  lemma RestOfBlocks(n: nat, k: nat)
    requires n % 16 == 0 && k % 16 == 0 && k <= n
    ensures (n - k) % 16 == 0
  {
  }

  lemma UnpaddedPrefix(p: seq<bv8>, k: nat)
    requires |p| % 16 == 0 && k % 16 == 0 && k <= |p|
    ensures Unpadded(p[..k]) <= Unpadded(p)
  {
    RestOfBlocks(|p|, k);
    SplitAt(p, k);
    UnpaddedJoins(p[..k], p[k..]);
  }

  /** Main result. Whatever is written, and whatever the interleaving of writes, flushes and
      reads, the text the server has is a prefix of the flushed chunks, each without the NULs
      its blocks end in, and all of that once nothing is in flight. With nothing waiting
      either, it is what entered if and only if no block of a flushed chunk ends in a NUL.
      The lines handled, with those still in the server's buffer, are the lines of that text
      split at once; complete lines are still in the buffer only when the last one handled
      could not be decoded. */
  lemma UplinkText(u: Setup, iv: Block, evs: seq<Event>)
    ensures var l := Run(u, iv, evs);
            && l.reader.text <= Recovered(l.flushed)
            && Flat(l.flushed) + l.node.ring == l.entered
            && (l.pos == |l.wire| ==> l.reader.text == Recovered(l.flushed))
            && (l.node.ring == [] && l.pos == |l.wire| ==> (l.reader.text == l.entered <==> AllClean(l.flushed)))
            && Cut(u.bad, l.reader)
  {
    RunKeeps(u, iv, evs);
    var l := Run(u, iv, evs);
    var plain := Plain(l.flushed);
    UnpaddedPrefix(plain, l.pos);
    PlainRecovers(l.flushed);
    RecoveredExactly(l.flushed);
    assert plain[..|plain|] == plain;
  }

  lemma {:induction false} EnteredNulFree(u: Setup, iv: Block, evs: seq<Event>)
    requires NulFreeWrites(evs)
    ensures NulFree(Run(u, iv, evs).entered)
  {
    if evs != [] {
      var front, ev := evs[..|evs| - 1], evs[|evs| - 1];
      EnteredNulFree(u, iv, front);
      if ev.Write? { assert NulFree(ev.data); }
    }
  }

  /** For writes without NULs nothing is ever lost: the text is a prefix of what entered, and
      all of it once nothing is waiting or in flight. */
  lemma UplinkSafe(u: Setup, iv: Block, evs: seq<Event>)
    requires NulFreeWrites(evs)
    ensures var l := Run(u, iv, evs);
            && l.reader.text <= l.entered
            && (l.node.ring == [] && l.pos == |l.wire| ==> l.reader.text == l.entered)
  {
    var l := Run(u, iv, evs);
    UplinkText(u, iv, evs);
    EnteredNulFree(u, iv, evs);
    NulFreeParts(Flat(l.flushed), l.node.ring);
    NulFreeChunks(l.flushed);
    RecoveredExactly(l.flushed);
  }

  function Reads(n: nat): (r: seq<Event>)
    ensures |r| == n && forall i :: 0 <= i < n ==> r[i] == Read
  {
    seq(n, _ => Read)
  }

  lemma RunStep(u: Setup, iv: Block, evs: seq<Event>, ev: Event)
    ensures Run(u, iv, evs + [ev]) == Step(u, Run(u, iv, evs), ev)
  {
    var more := evs + [ev];
    assert more[..|more| - 1] == evs;
  }

  /** n reads from a state. */
  function Caught(u: Setup, l: Link, n: nat): (l': Link)
    requires InBlock(l.node.fb)
    ensures InBlock(l'.node.fb)
  {
    if n == 0 then l else Step(u, Caught(u, l, n - 1), Read)
  }

  /** A read takes nothing from the node, the wire or the chunks. */
  ghost predicate OnlyRead(l: Link, l': Link) {
    l'.wire == l.wire && l'.node == l.node && l'.entered == l.entered && l'.flushed == l.flushed
  }

  lemma ReadOnlyReads(u: Setup, l: Link)
    requires InBlock(l.node.fb) && l.pos + 16 <= |l.wire|
    ensures Step(u, l, Read).pos == l.pos + 16 && OnlyRead(l, Step(u, l, Read))
  {
  }

  lemma {:induction false} CaughtUp(u: Setup, l: Link, n: nat)
    requires InBlock(l.node.fb) && l.pos + 16 * n <= |l.wire|
    ensures Caught(u, l, n).pos == l.pos + 16 * n && OnlyRead(l, Caught(u, l, n))
  {
    if n > 0 {
      CaughtUp(u, l, n - 1);
      ReadOnlyReads(u, Caught(u, l, n - 1));
    }
  }

  lemma {:induction false} RunReads(u: Setup, iv: Block, evs: seq<Event>, n: nat)
    ensures Run(u, iv, evs + Reads(n)) == Caught(u, Run(u, iv, evs), n)
  {
    if n == 0 {
      assert evs + Reads(0) == evs;
    } else {
      RunReads(u, iv, evs, n - 1);
      var before := evs + Reads(n - 1);
      assert evs + Reads(n) == before + [Read];
      RunStep(u, iv, before, Read);
    }
  }

  lemma SentEmpties(u: Setup, iv: Block, evs: seq<Event>)
    ensures Run(u, iv, evs + [Sent]).node.ring == [] && Run(u, iv, evs + [Sent]).entered == Run(u, iv, evs).entered
  {
    RunStep(u, iv, evs, Sent);
  }

  lemma AllArrived(u: Setup, iv: Block, evs: seq<Event>)
    requires var l := Run(u, iv, evs); l.node.ring == [] && l.pos == |l.wire|
    ensures var l := Run(u, iv, evs);
            && l.reader.text == Recovered(l.flushed) && Flat(l.flushed) == l.entered
            && (l.reader.text == l.entered <==> AllClean(l.flushed))
  {
    UplinkText(u, iv, evs);
    NothingAfter(Flat(Run(u, iv, evs).flushed));
  }

  lemma WireOrder(u: Setup, iv: Block, evs: seq<Event>)
    ensures var l := Run(u, iv, evs); l.pos % 16 == 0 && |l.wire| % 16 == 0 && l.pos <= |l.wire|
  {
    RunKeeps(u, iv, evs);
  }

  /** Some number of reads empties the wire. */
  lemma ReadsLeft(u: Setup, iv: Block, evs: seq<Event>) returns (n: nat)
    ensures var l, l' := Run(u, iv, evs), Run(u, iv, evs + Reads(n)); l'.pos == |l.wire| && OnlyRead(l, l')
  {
    WireOrder(u, iv, evs);
    var l := Run(u, iv, evs);
    n := (|l.wire| - l.pos) / 16;
    WholeBlocks(l.pos, |l.wire|);
    RunReads(u, iv, evs, n);
    CaughtUp(u, l, n);
  }

  /** From any reachable state, one completed send and enough reads deliver every chunk, and
      so every byte that entered exactly when no block of a chunk ends in a NUL. */
  lemma UplinkDelivers(u: Setup, iv: Block, evs: seq<Event>) returns (n: nat)
    ensures var l := Run(u, iv, evs + [Sent] + Reads(n));
            && l.reader.text == Recovered(l.flushed)
            && Flat(l.flushed) == Run(u, iv, evs).entered
            && (l.reader.text == Run(u, iv, evs).entered <==> AllClean(l.flushed))
  {
    SentEmpties(u, iv, evs);
    n := ReadsLeft(u, iv, evs + [Sent]);
    AllArrived(u, iv, evs + [Sent] + Reads(n));
  }

  lemma WholeBlocks(pos: nat, wire: nat)
    requires pos % 16 == 0 && wire % 16 == 0 && pos <= wire
    ensures pos + 16 * ((wire - pos) / 16) == wire
  {
  }
}
