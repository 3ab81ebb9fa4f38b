/**
 * The two ends of the uplink as they run: the node's globals for one connection
 * (node_main/network.cpp) and the server's reading loop (server.py), each method stated by
 * the step of module Uplink that it carries out.
 */
module UplinkDevices {
  import opened AesTables
  import opened Aes
  import opened AesModes
  import opened CircularBuffers
  import opened Uplink

  /** tx buffer, txing, iv_d, iv_offset_d and aes_ctx_d of one connection. */
  class TxPath {
    const ring: CircularBuffer
    const ctx: AesContext
    const iv: array<bv8>
    const threshold: nat
    var txing: bool
    var ivOffset: nat

    ghost predicate Valid()
      reads this, ring, ctx
    {
      && ring.Valid() && ctx.Ready()
      && iv.Length == 16 && ivOffset < 16
      && iv != ring.data
    }

    /** Where the connection's cipher stands. */
    ghost function Cipher(): (fb: Feedback)
      requires iv.Length == 16
      reads this`ivOffset, iv
    {
      Feedback(ivOffset, iv[..])
    }

    ghost function State(): (nd: Node)
      requires Valid()
      reads this, ring, ring.data, ctx, iv
      ensures InBlock(nd.fb)
    {
      Node(ring.Contents(), txing, Cipher())
    }

    constructor (ring: CircularBuffer, ctx: AesContext, iv: array<bv8>, threshold: nat)
      requires ring.Valid() && ctx.Ready() && iv.Length == 16 && iv != ring.data
      ensures Valid() && State() == Node(ring.Contents(), false, Feedback(0, iv[..]))
      ensures this.ring == ring && this.ctx == ctx && this.iv == iv && this.threshold == threshold
    {
      this.ring, this.ctx, this.iv, this.threshold := ring, ctx, iv, threshold;
      txing, ivOffset := false, 0;
    }

    /** All that is waiting, in a zeroed buffer of whole blocks. */
    method TakePadded(size: nat, ghost e: Block -> Block) returns (data: array<bv8>)
      requires Valid() && size == ring.size && ctx.Computes(e)
      modifies ring
      ensures fresh(data) && data[..] == Pad(old(ring.Contents()))
      ensures Valid() && ring.Contents() == [] && ctx.Computes(e)
    {
      var size2 := if size % 16 == 0 then size else size + (16 - size % 16);
      data := new bv8[size2](_ => 0);
      ghost var held := ring.Contents();
      var got := ring.Read(data, size);
      assert held[..size] == held;
      assert data[..] == Pad(held);
      assert unchanged(ctx, ctx.buf);
    }

    /** Encrypts a buffer in place, moving the connection's cipher on. */
    method EncryptAll(t: Tables, data: array<bv8>, ghost e: Block -> Block)
      requires Good(t) && ctx.Ready() && ctx.Computes(e) && iv.Length == 16 && InBlock(Cipher()) && data != iv
      modifies this`ivOffset, iv, data
      ensures ctx.Computes(e) && InBlock(Cipher())
      ensures Cipher() == CfbState(e, Encrypt, old(Cipher()), old(data[..]))
      ensures data[..] == CfbOut(e, Encrypt, old(Cipher()), old(data[..]))
    {
      ivOffset := CfbWholeBuffer(t, ctx, Encrypt, ivOffset, iv, data, e);
      assert unchanged(ctx, ctx.buf);
    }

    /** Sends all that is waiting. */
    method SendWaiting(t: Tables, ghost e: Block -> Block) returns (sent: seq<bv8>)
      requires Good(t) && Valid() && ctx.Computes(e)
      modifies this`txing, this`ivOffset, ring, iv
      ensures Valid() && ctx.Computes(e)
      ensures var nd, p := old(State()), Pad(old(State().ring));
              State() == Node([], true, CfbState(e, Encrypt, nd.fb, p)) && sent == CfbOut(e, Encrypt, nd.fb, p)
    {
      var data := TakePadded(ring.size, e);
      txing := true;
      EncryptAll(t, data, e);
      assert ring.Valid() && ring.Contents() == [];
      sent := data[..];
    }

    /** connection_tx_write_finish_cb: what is handed to espconn_send, if anything. */
    method WriteFinishCb(t: Tables, ghost e: Block -> Block) returns (sent: seq<bv8>)
      requires Good(t) && Valid() && ctx.Computes(e)
      modifies this`txing, this`ivOffset, ring, iv
      ensures Valid() && ctx.Computes(e) && (State(), sent) == Flush(e, old(State()))
    {
      if ring.size > 0 {
        sent := SendWaiting(t, e);
      } else {
        txing := false;
        sent := [];
      }
    }

    /** network_puts. */
    method NetworkPuts(t: Tables, data: array<bv8>, len: nat, ready: bool, open: bool, crlf: bool, ghost u: Setup)
      returns (code: Code, sent: seq<bv8>)
      requires Good(t) && Valid() && ctx.Computes(u.e) && u.capacity == ring.capacity && u.threshold == threshold
      requires len <= data.Length && data != ring.data && data != iv
      modifies this`txing, this`ivOffset, ring, ring.data, iv
      ensures Valid() && ctx.Computes(u.e)
      ensures (code, State(), sent) == Puts(u, old(State()), old(data[..len]), ready, open, crlf)
    {
      sent := [];
      if !ready {
        return E_NOT_READY, [];
      }
      if open {
        var room := ring.capacity - ring.size;
        if len > room {
          return E_FULL, [];
        }
        var n := ring.Write(data, len);
        assert unchanged(ctx, ctx.buf, iv);
        assert Valid() && ctx.Computes(u.e);
        var sizeNow := ring.size;
        if (crlf || sizeNow > threshold) && !txing {
          sent := WriteFinishCb(t, u.e);
        }
      }
      code := E_OK;
    }
  }

  /** The reading loop of a server connection: cipher_up, the text not yet cut, and the
      lines handed on. */
  class LineReader {
    var iv: Block
    var line: seq<bv8>
    var handled: seq<seq<bv8>>
    ghost var text: seq<bv8>

    ghost function State(): Reader
      reads this
    {
      Reader(iv, text, line, handled)
    }

    constructor (iv: Block)
      ensures State() == Reader(iv, [], [], [])
    {
      this.iv, line, handled, text := iv, [], [], [];
    }

    /** Hands on the complete lines: one that cannot be decoded ends the pass, leaving what
        follows it for the next one. */
    method Deliver(bad: seq<bv8> -> bool)
      modifies this`line, this`handled
      ensures line == Drain(bad, old(line)).1 && handled == old(handled) + Drain(bad, old(line)).0
    {
      ghost var all, before := line, handled;
      ghost var hs := [];
      assert [] + Drain(bad, line).0 == Drain(bad, line).0;
      while FindCrlf(line) >= 0
        invariant handled == before + hs
        invariant Drain(bad, all) == (hs + Drain(bad, line).0, Drain(bad, line).1)
        decreases |line|
      {
        var index := FindCrlf(line);
        var piece := line[..index + 2];
        ghost var was := line;
        line := line[index + 2..];
        piece := Strip(piece);
        handled := handled + [piece];
        DrainOne(bad, was, hs);
        hs := hs + [piece];
        if bad(piece) {
          return;
        }
      }
    }

    /** One pass of _loop_reading_input with the 16 bytes read. */
    method OnRead(e: Block -> Block, bad: seq<bv8> -> bool, msg: Block)
      modifies this
      ensures State() == ReadBlock(e, bad, old(State()), msg)
    {
      var m := RStrip(XorWith(e(iv), msg));
      iv := msg;
      text := text + m;
      line := line + m;
      Deliver(bad);
    }
  }

  lemma DrainOne(bad: seq<bv8> -> bool, line: seq<bv8>, hs: seq<seq<bv8>>)
    requires FindCrlf(line) >= 0
    ensures var piece, tail := Strip(line[..FindCrlf(line) + 2]), line[FindCrlf(line) + 2..];
            (hs + Drain(bad, line).0, Drain(bad, line).1)
            == if bad(piece) then (hs + [piece], tail) else ((hs + [piece]) + Drain(bad, tail).0, Drain(bad, tail).1)
  {
    var piece, tail := Strip(line[..FindCrlf(line) + 2]), line[FindCrlf(line) + 2..];
    assert hs + ([piece] + Drain(bad, tail).0) == (hs + [piece]) + Drain(bad, tail).0;
  }
}
