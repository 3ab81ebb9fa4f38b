/**
 * When the node sends what is written to it (node_main/network.cpp): which writes are taken,
 * which start a send, and how much can wait while none is under way.
 */
module UplinkWrites {
  import opened Sequences
  import opened Aes
  import opened AesModes
  import opened Uplink

  /** A write is taken when the connection is kept alive and open and the ring has room. */
  ghost predicate Fits(u: Setup, l: Link, ev: Event) {
    ev.Write? && ev.ready && ev.open && |l.node.ring| + |ev.data| <= u.capacity
  }

  /** A write that is not taken changes nothing. */
  lemma WriteRefused(u: Setup, iv: Block, evs: seq<Event>, ev: Event)
    requires ev.Write? && !Fits(u, Run(u, iv, evs), ev)
    ensures Run(u, iv, evs + [ev]) == Run(u, iv, evs)
  {
    var l := Run(u, iv, evs);
    RunStep(u, iv, evs, ev);
    NothingAfter(l.flushed);
    NothingAfter(l.wire);
  }

  /** One that is taken waits behind a send under way, or when it has no CRLF and leaves no
      more than the threshold waiting. */
  lemma WriteWaits(u: Setup, iv: Block, evs: seq<Event>, ev: Event)
    requires var l := Run(u, iv, evs);
             Fits(u, l, ev) && (l.node.txing || (!ev.crlf && |l.node.ring| + |ev.data| <= u.threshold))
    ensures var l, l' := Run(u, iv, evs), Run(u, iv, evs + [ev]);
            l' == l.(node := l.node.(ring := l.node.ring + ev.data), entered := l.entered + ev.data)
  {
    var l := Run(u, iv, evs);
    RunStep(u, iv, evs, ev);
    NothingAfter(l.flushed);
    NothingAfter(l.wire);
  }

  /** Any other is sent at once with all that waited before it. */
  lemma WriteSends(u: Setup, iv: Block, evs: seq<Event>, ev: Event)
    requires var l := Run(u, iv, evs);
             && Fits(u, l, ev) && !l.node.txing && l.node.ring + ev.data != []
             && (ev.crlf || |l.node.ring| + |ev.data| > u.threshold)
    ensures var l, l' := Run(u, iv, evs), Run(u, iv, evs + [ev]);
            && l'.node.ring == [] && l'.node.txing
            && l'.entered == l.entered + ev.data && l'.flushed == l.flushed + [l.node.ring + ev.data]
            && l'.pos == l.pos && l'.reader == l.reader
  {
    RunStep(u, iv, evs, ev);
    SomethingSent(u, Run(u, iv, evs), ev.data);
  }

  lemma SomethingSent(u: Setup, l: Link, data: seq<bv8>)
    requires InBlock(l.node.fb) && l.node.ring + data != []
    ensures Flush(u.e, l.node.(ring := l.node.ring + data)).1 != []
  {
    assert Pad(l.node.ring + data) != [];
  }

  /** The answer to a write. */
  lemma WriteAnswer(u: Setup, l: Link, ev: Event)
    requires InBlock(l.node.fb) && ev.Write?
    ensures var code := Puts(u, l.node, ev.data, ev.ready, ev.open, ev.crlf).0;
            && (code == E_NOT_READY <==> !ev.ready)
            && (code == E_FULL <==> ev.ready && ev.open && !Fits(u, l, ev))
  {
  }

  // ----- over runs

  ghost predicate Bounded(u: Setup, nd: Node) {
    && |nd.ring| <= u.capacity
    && (!nd.txing ==> |nd.ring| <= u.threshold)
  }

  lemma StepBounded(u: Setup, l: Link, ev: Event)
    requires InBlock(l.node.fb) && Bounded(u, l.node)
    ensures Bounded(u, Step(u, l, ev).node)
  {
  }

  /** In every reachable state no more waits than the ring holds, and while no send is under
      way no more than the threshold. */
  lemma {:induction false} AlwaysBounded(u: Setup, iv: Block, evs: seq<Event>)
    ensures var nd := Run(u, iv, evs).node;
            |nd.ring| <= u.capacity && (!nd.txing ==> |nd.ring| <= u.threshold)
  {
    if evs != [] {
      var front := evs[..|evs| - 1];
      AlwaysBounded(u, iv, front);
      StepBounded(u, Run(u, iv, front), evs[|evs| - 1]);
    }
  }

  ghost predicate WholeLines(evs: seq<Event>) {
    forall i :: 0 <= i < |evs| && evs[i].Write? ==> evs[i].crlf
  }

  lemma StepLeavesNone(u: Setup, l: Link, ev: Event)
    requires InBlock(l.node.fb) && (l.node.ring != [] ==> l.node.txing) && (ev.Write? ==> ev.crlf)
    ensures var nd := Step(u, l, ev).node; nd.ring != [] ==> nd.txing
  {
  }

  /** When every write ends a line, nothing ever waits without a send under way. */
  lemma {:induction false} NoneStranded(u: Setup, iv: Block, evs: seq<Event>)
    requires WholeLines(evs)
    ensures var nd := Run(u, iv, evs).node; nd.ring != [] ==> nd.txing
  {
    if evs != [] {
      var front := evs[..|evs| - 1];
      NoneStranded(u, iv, front);
      StepLeavesNone(u, Run(u, iv, front), evs[|evs| - 1]);
    }
  }
}
