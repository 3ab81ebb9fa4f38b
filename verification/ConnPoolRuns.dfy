/**
 * What each event does to the pool and to the connections in any reachable state of the
 * server (server.py): entry by entry, and which kills are announced.
 */
module ConnPoolRuns {
  import opened ConnPool

  /** A connection that waits for its hello. */
  predicate Waiting<C>(s: Server<C>, c: C) {
    c in s.conns && s.conns[c].sn == "" && !s.conns[c].killed && !s.conns[c].closed
  }

  lemma RunStep<C>(evs: seq<Event<C>>, ev: Event<C>)
    ensures Run(evs + [ev]) == Step(Run(evs), ev)
  {
    var more := evs + [ev];
    assert more[..|evs|] == evs;
  }

  /** The same connections, and those outside the set as they were. */
  ghost predicate OthersSame<C(!new)>(s: Server<C>, s': Server<C>, changed: set<C>) {
    && (forall d :: d in s'.conns <==> d in s.conns)
    && (forall d :: d in s.conns && d !in changed ==> s'.conns[d] == s.conns[d])
  }

  /** In any run a hello on a waiting connection makes it live under the serial it gives and
      the entry for that serial; no other entry and no other connection changes, except that an
      older connection of the serial is killed. */
  lemma HelloTakes<C(!new)>(evs: seq<Event<C>>, c: C, sn: Serial)
    requires Waiting(Run(evs), c) && sn != ""
    ensures var s, s' := Run(evs), Run(evs + [HelloFrom(c, sn)]);
            && Live(s', c) && s'.conns[c].sn == sn
            && sn in s'.pool && s'.pool[sn] == c
            && (forall x :: x != sn ==> (x in s'.pool <==> x in s.pool))
            && (forall x :: x != sn && x in s.pool ==> s'.pool[x] == s.pool[x])
            && OthersSame(s, s', {c} + if sn in s.pool then {s.pool[sn]} else {})
            && (sn in s.pool ==> s.pool[sn] != c && s.pool[sn] in s'.conns && s'.conns[s.pool[sn]].killed)
  {
    RunStep(evs, HelloFrom(c, sn));
    AlwaysConsistent(evs);
    assert EntryAt(Run(evs), sn);
  }

  /** Any other hello is ignored. */
  lemma HelloIgnored<C(!new)>(evs: seq<Event<C>>, c: C, sn: Serial)
    requires !Waiting(Run(evs), c) || sn == ""
    ensures Run(evs + [HelloFrom(c, sn)]) == Run(evs)
  {
    RunStep(evs, HelloFrom(c, sn));
  }

  /** A close takes out the connection's own entry alone. */
  lemma CloseTakes<C(!new)>(evs: seq<Event<C>>, c: C)
    requires c in Run(evs).conns && !Run(evs).conns[c].closed
    ensures var s, s' := Run(evs), Run(evs + [ClosedBack(c)]);
            && !Live(s', c) && c in s'.conns && s'.conns[c].closed
            && (forall x :: x in s'.pool <==> x in s.pool && s.pool[x] != c)
            && (forall x :: x in s'.pool ==> s'.pool[x] == s.pool[x])
            && OthersSame(s, s', {c})
  {
    RunStep(evs, ClosedBack(c));
    AlwaysConsistent(evs);
    forall x | x in Run(evs).pool && Run(evs).pool[x] == c ensures Run(evs).conns[c].sn == x {
      assert EntryAt(Run(evs), x);
    }
  }

  /** A kill ends the connection's life and changes nothing else; its entry stays until the
      close callback. */
  lemma KillTakes<C(!new)>(evs: seq<Event<C>>, c: C)
    ensures var s, s' := Run(evs), Run(evs + [Killed(c)]);
            !Live(s', c) && s'.pool == s.pool && OthersSame(s, s', {c})
  {
    RunStep(evs, Killed(c));
  }

  /** An accepted connection waits for its hello. */
  lemma AcceptTakes<C(!new)>(evs: seq<Event<C>>, c: C)
    requires c !in Run(evs).conns
    ensures var s, s' := Run(evs), Run(evs + [Accepted(c)]);
            && Waiting(s', c) && s'.pool == s.pool
            && forall d :: d != c ==> (d in s'.conns <==> d in s.conns) && (d in s.conns ==> s'.conns[d] == s.conns[d])
  {
    RunStep(evs, Accepted(c));
  }

  // ----- announcements

  ghost predicate JunkAt<C>(s: Server<C>, c: C) {
    c in s.conns && s.conns[c].junk ==> s.conns[c].killed
  }

  lemma StepJunk<C(!new)>(s: Server<C>, ev: Event<C>, c: C)
    requires Consistent(s) && JunkAt(s, c)
    ensures JunkAt(Step(s, ev), c)
  {
    match ev
    case HelloFrom(d, sn) => assert EntryAt(s, sn);
    case _ =>
  }

  lemma {:induction false} JunkIsKilled<C(!new)>(evs: seq<Event<C>>, c: C)
    ensures JunkAt(Run(evs), c)
  {
    if evs != [] {
      var front, ev := evs[..|evs| - 1], evs[|evs| - 1];
      JunkIsKilled(front, c);
      AlwaysConsistent(front);
      StepJunk(Run(front), ev, c);
    }
  }

  /** In every reachable state killing a connection announces its node as offline if and only
      if the connection is live. */
  lemma AnnouncedExactly<C(!new)>(evs: seq<Event<C>>, c: C)
    ensures Kill(Run(evs), c).1 <==> Live(Run(evs), c)
  {
    JunkIsKilled(evs, c);
  }

  /** The first hello of a node puts it into the pool. */
  lemma KnownRun()
    ensures Run([Accepted(1), HelloFrom(1, "A")]).pool == map["A" := 1]
  {
    var evs: seq<Event<int>> := [Accepted(1)];
    assert evs[..0] == [];
    assert Waiting(Run(evs), 1);
    assert evs + [HelloFrom(1, "A")] == [Accepted(1), HelloFrom(1, "A")];
    RunStep(evs, HelloFrom(1, "A"));
  }
}
