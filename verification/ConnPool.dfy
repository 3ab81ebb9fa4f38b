/**
 * The server's pool of device connections (server.py): hellos that replace an older
 * connection of the same serial number, kills, and close callbacks that come late.
 */
module ConnPool {

  type Serial = string

  /** What a connection knows of itself. An empty serial means no hello yet, or closed. */
  datatype Conn = Conn(sn: Serial, killed: bool, junk: bool, closed: bool)

  datatype Server<!C> = Server(pool: map<Serial, C>, conns: map<C, Conn>)

  /** An authenticated connection that is neither killed nor closed. */
  predicate Live<C>(s: Server<C>, c: C) {
    c in s.conns && s.conns[c].sn != "" && !s.conns[c].killed && !s.conns[c].closed
  }

  // ----- the steps

  /** kill_myself: once only, and of no effect once the stream has been let go; says whether
      the node is announced as offline. */
  function Kill<C>(s: Server<C>, c: C): (r: (Server<C>, bool)) {
    if c !in s.conns || s.conns[c].killed || s.conns[c].closed then (s, false)
    else (s.(conns := s.conns[c := s.conns[c].(killed := true)]), !s.conns[c].junk && s.conns[c].sn != "")
  }

  function KillJunk<C>(s: Server<C>, c: C): (r: (Server<C>, bool)) {
    if c !in s.conns then (s, false) else Kill(s.(conns := s.conns[c := s.conns[c].(junk := true)]), c)
  }

  /** A valid hello on a connection that waits for one: an older connection of the serial is
      killed as junk, and this one takes its place. */
  function Hello<C>(s: Server<C>, c: C, sn: Serial): (r: (Server<C>, bool)) {
    if sn == "" || c !in s.conns || s.conns[c].sn != "" || s.conns[c].killed || s.conns[c].closed then (s, false)
    else
      var named := s.(conns := s.conns[c := s.conns[c].(sn := sn)]);
      var (cleared, announced) := if sn in s.pool then KillJunk(named, s.pool[sn]) else (named, false);
      (cleared.(pool := cleared.pool[sn := c]), announced)
  }

  /** on_close, at most once: out of the pool only if it is still the entry. */
  function Close<C>(s: Server<C>, c: C): Server<C> {
    if c !in s.conns || s.conns[c].closed then s
    else
      var sn := s.conns[c].sn;
      Server(if sn in s.pool && s.pool[sn] == c then s.pool - {sn} else s.pool,
             s.conns[c := s.conns[c].(sn := "", closed := true)])
  }

  function Accept<C>(s: Server<C>, c: C): Server<C> {
    if c in s.conns then s else s.(conns := s.conns[c := Conn("", false, false, false)])
  }

  datatype Event<!C> = Accepted(c: C) | HelloFrom(c: C, sn: Serial) | Killed(c: C) | ClosedBack(c: C)

  function Step<C>(s: Server<C>, ev: Event<C>): Server<C> {
    match ev
    case Accepted(c) => Accept(s, c)
    case HelloFrom(c, sn) => Hello(s, c, sn).0
    case Killed(c) => Kill(s, c).0
    case ClosedBack(c) => Close(s, c)
  }

  function RunFrom<C>(s: Server<C>, evs: seq<Event<C>>): Server<C> {
    if evs == [] then s else Step(RunFrom(s, evs[..|evs| - 1]), evs[|evs| - 1])
  }

  /** A run of the server from its start. */
  function Run<C>(evs: seq<Event<C>>): Server<C> {
    RunFrom(Server(map[], map[]), evs)
  }

  // ----- what every run keeps

  ghost predicate EntryAt<C>(s: Server<C>, sn: Serial) {
    sn in s.pool ==> s.pool[sn] in s.conns && sn != "" && s.conns[s.pool[sn]].sn == sn && !s.conns[s.pool[sn]].closed
  }

  ghost predicate PooledAt<C>(s: Server<C>, c: C) {
    Live(s, c) ==> s.conns[c].sn in s.pool && s.pool[s.conns[c].sn] == c
  }

  /** Entries are open connections under their own serial, and every live connection is one. */
  ghost predicate Consistent<C(!new)>(s: Server<C>) {
    (forall sn: Serial :: EntryAt(s, sn)) && (forall c: C :: PooledAt(s, c))
  }

  lemma HelloKeeps<C(!new)>(s: Server<C>, c: C, sn: Serial)
    requires Consistent(s)
    ensures Consistent(Hello(s, c, sn).0)
  {
    var s' := Hello(s, c, sn).0;
    if s' != s {
      assert EntryAt(s, sn);
      forall x: Serial ensures EntryAt(s', x) {
        assert EntryAt(s, x);
      }
      forall d: C ensures PooledAt(s', d) {
        assert PooledAt(s, d);
      }
    }
  }

  lemma CloseKeeps<C(!new)>(s: Server<C>, c: C)
    requires Consistent(s)
    ensures Consistent(Close(s, c))
  {
    var s' := Close(s, c);
    forall x: Serial ensures EntryAt(s', x) {
      assert EntryAt(s, x);
    }
    forall d: C ensures PooledAt(s', d) {
      assert PooledAt(s, d);
    }
  }

  lemma SimpleKeeps<C(!new)>(s: Server<C>, c: C)
    requires Consistent(s)
    ensures Consistent(Kill(s, c).0) && Consistent(Accept(s, c))
  {
    var k, a := Kill(s, c).0, Accept(s, c);
    forall x: Serial ensures EntryAt(k, x) && EntryAt(a, x) {
      assert EntryAt(s, x);
    }
    forall d: C ensures PooledAt(k, d) && PooledAt(a, d) {
      assert PooledAt(s, d);
    }
  }

  lemma StepKeeps<C(!new)>(s: Server<C>, ev: Event<C>)
    requires Consistent(s)
    ensures Consistent(Step(s, ev))
  {
    match ev
    case Accepted(c) => SimpleKeeps(s, c);
    case HelloFrom(c, sn) => HelloKeeps(s, c, sn);
    case Killed(c) => SimpleKeeps(s, c);
    case ClosedBack(c) => CloseKeeps(s, c);
  }

  lemma {:induction false} RunKeeps<C(!new)>(s: Server<C>, evs: seq<Event<C>>)
    requires Consistent(s)
    ensures Consistent(RunFrom(s, evs))
  {
    if evs != [] {
      RunKeeps(s, evs[..|evs| - 1]);
      StepKeeps(RunFrom(s, evs[..|evs| - 1]), evs[|evs| - 1]);
    }
  }

  /** In every interleaving the pool holds exactly what it should. */
  lemma AlwaysConsistent<C(!new)>(evs: seq<Event<C>>)
    ensures Consistent(Run(evs))
  {
    RunKeeps(Server(map[], map[]), evs);
  }

  /** Each live connection is the entry for its serial, so there is at most one per serial. */
  lemma LiveIsPooled<C(!new)>(evs: seq<Event<C>>, c: C, d: C)
    ensures var s := Run(evs);
            && (Live(s, c) ==> s.conns[c].sn in s.pool && s.pool[s.conns[c].sn] == c)
            && (Live(s, c) && Live(s, d) && s.conns[c].sn == s.conns[d].sn ==> c == d)
  {
    AlwaysConsistent(evs);
    assert PooledAt(Run(evs), c) && PooledAt(Run(evs), d);
  }

  /** The close callback of a connection that has been replaced leaves the pool alone. */
  lemma LateCloseKeepsSuccessor<C(!new)>(evs: seq<Event<C>>, c: C, d: C)
    requires var s := Run(evs); Live(s, d) && c != d
    ensures var s, s' := Run(evs), Run(evs + [ClosedBack(c)]);
            Live(s', d) && s'.conns[d] == s.conns[d] && s.conns[d].sn in s'.pool && s'.pool[s.conns[d].sn] == d
  {
    var more := evs + [ClosedBack(c)];
    assert more[..|evs|] == evs;
    AlwaysConsistent(evs);
    AlwaysConsistent(more);
    assert PooledAt(Run(more), d);
  }

  /** The event cannot end the connection's life: not its own kill or close, nor a hello of
      the same serial elsewhere. */
  predicate Spares<C>(s: Server<C>, ev: Event<C>, d: C) {
    match ev
    case Killed(c) => c != d
    case ClosedBack(c) => c != d
    case HelloFrom(c, sn) => d in s.conns ==> sn != s.conns[d].sn
    case Accepted(_) => true
  }

  lemma SparedLives<C(!new)>(s: Server<C>, ev: Event<C>, d: C)
    requires Consistent(s) && Live(s, d) && Spares(s, ev, d)
    ensures Live(Step(s, ev), d) && Step(s, ev).conns[d] == s.conns[d]
  {
    match ev
    case HelloFrom(c, sn) => assert EntryAt(s, sn);
    case _ =>
  }

  ghost predicate SparedBy<C>(s: Server<C>, evs: seq<Event<C>>, d: C) {
    forall i :: 0 <= i < |evs| ==> Spares(RunFrom(s, evs[..i]), evs[i], d)
  }

  /** Over any run from any state that a run can reach, only its own kill or close or a newer
      hello takes a connection out of the pool: late callbacks and other serials never do. */
  lemma {:induction false} StaysPooled<C(!new)>(s: Server<C>, evs: seq<Event<C>>, d: C)
    requires Consistent(s) && Live(s, d) && SparedBy(s, evs, d)
    ensures var s' := RunFrom(s, evs);
            Live(s', d) && s'.conns[d] == s.conns[d] && s.conns[d].sn in s'.pool && s'.pool[s.conns[d].sn] == d
  {
    RunKeeps(s, evs);
    assert PooledAt(RunFrom(s, evs), d);
    if evs != [] {
      var n := |evs| - 1;
      var front := evs[..n];
      forall i | 0 <= i < n ensures Spares(RunFrom(s, front[..i]), front[i], d) {
        assert evs[..i] == front[..i];
      }
      StaysPooled(s, front, d);
      RunKeeps(s, front);
      SparedLives(RunFrom(s, front), evs[n], d);
    }
  }

  /** A hello kills the connection it replaces without announcing the node as offline. */
  lemma ReplacementIsQuiet<C(!new)>(s: Server<C>, c: C, sn: Serial)
    requires Consistent(s)
    ensures !Hello(s, c, sn).1
    ensures var s' := Hello(s, c, sn).0;
            sn in s.pool && s' != s ==> s.pool[sn] in s'.conns && s'.conns[s.pool[sn]].killed && s'.pool[sn] == c
  {
    assert EntryAt(s, sn);
  }

  // ----- the objects

  /** A DeviceConnection: what of it the pool depends on. */
  class Device {
    var sn: Serial
    var killed: bool
    var isJunk: bool
    var closed: bool

    constructor ()
      ensures sn == "" && !killed && !isJunk && !closed
    {
      sn, killed, isJunk, closed := "", false, false, false;
    }
  }

  ghost function ConnOf(d: Device): Conn
    reads d
  {
    Conn(d.sn, d.killed, d.isJunk, d.closed)
  }

  class DeviceServer {
    var pool: map<Serial, Device>
    ghost var all: set<Device>

    ghost predicate Valid()
      reads this
    {
      forall sn :: sn in pool ==> pool[sn] in all
    }

    ghost function State(): Server<Device>
      reads this, all
    {
      Server(pool, map d | d in all :: ConnOf(d))
    }

    constructor ()
      ensures Valid() && State() == Run([])
    {
      pool, all := map[], {};
    }

    method AcceptConnection() returns (d: Device)
      requires Valid()
      modifies this`all
      ensures Valid() && fresh(d) && all == old(all) + {d} && State() == Accept(old(State()), d)
    {
      d := new Device();
      all := all + {d};
    }

    /** kill_myself. */
    method KillMyself(d: Device) returns (announced: bool)
      requires Valid() && d in all
      modifies d`killed
      ensures Valid() && (State(), announced) == Kill(old(State()), d)
    {
      ghost var s := State();
      announced := false;
      if d.killed || d.closed {
        return;
      }
      d.killed := true;
      assert State() == s.(conns := s.conns[d := s.conns[d].(killed := true)]);
      announced := !d.isJunk && d.sn != "";
    }

    /** kill_junk. */
    method KillJunkConnection(d: Device) returns (announced: bool)
      requires Valid() && d in all
      modifies d`killed, d`isJunk
      ensures Valid() && (State(), announced) == KillJunk(old(State()), d)
    {
      ghost var s := State();
      d.isJunk := true;
      assert State() == s.(conns := s.conns[d := s.conns[d].(junk := true)]);
      announced := KillMyself(d);
    }

    /** The end of wait_hello, once the signature has been found right. */
    method HelloAccepted(d: Device, sn: Serial) returns (announced: bool)
      requires Valid() && d in all && sn != "" && d.sn == "" && !d.killed && !d.closed
      modifies this`pool, all
      ensures Valid() && all == old(all) && (State(), announced) == Hello(old(State()), d, sn)
    {
      ghost var s := State();
      announced := false;
      d.sn := sn;
      ghost var named := s.(conns := s.conns[d := s.conns[d].(sn := sn)]);
      assert State() == named;
      if sn in pool {
        announced := KillJunkConnection(pool[sn]);
      }
      ghost var cleared := State();
      pool := pool[sn := d];
      assert State() == cleared.(pool := cleared.pool[sn := d]);
    }

    /** on_close. */
    method OnClose(d: Device)
      requires Valid() && d in all && !d.closed
      modifies this`pool, d`sn, d`closed
      ensures Valid() && all == old(all) && State() == Close(old(State()), d)
    {
      if d.sn in pool && pool[d.sn] == d {
        pool := pool - {d.sn};
      }
      d.sn := "";
      d.closed := true;
    }
  }
}
