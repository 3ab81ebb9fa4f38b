/**
 * The doubly linked timer list of suli/suli2.cpp: each operation is the operation of the
 * same name on the queue of module TimerQueue.
 */
module TimerList {
  import opened TimerQueue

  class Timer {
    var intervalTicks: u32
    var fireTicks: u32
    var repeat: bool
    var prev: Timer?
    var next: Timer?
  }

  /** What the queue sees of a node. */
  ghost function EntryOf(t: Timer): Entry<Timer>
    reads t
  {
    Entry(t, t.intervalTicks, t.repeat, t.fireTicks)
  }

  ghost function NextOf(nodes: seq<Timer>, i: nat): Timer? {
    if i + 1 < |nodes| then nodes[i + 1] else null
  }

  ghost function PrevOf(nodes: seq<Timer>, i: nat): Timer?
    requires i <= |nodes|
  {
    if i > 0 then nodes[i - 1] else null
  }

  class List {
    var head: Timer?
    ghost var nodes: seq<Timer>
    ghost var now: nat

    ghost predicate NodeAt(i: nat)
      requires i < |nodes|
      reads this, nodes
    {
      nodes[i].next == NextOf(nodes, i) && nodes[i].prev == PrevOf(nodes, i)
    }

    ghost predicate Valid()
      reads this, nodes
    {
      && head == (if nodes == [] then null else nodes[0])
      && (forall i, j :: 0 <= i < j < |nodes| ==> nodes[i] != nodes[j])
      && (forall i: nat :: i < |nodes| ==> NodeAt(i))
    }

    ghost function State(): (q: Queue<Timer>)
      reads this, nodes
      ensures q.now == now && |q.es| == |nodes|
    {
      var ns := nodes;
      Queue(now, seq(|ns|, (i: nat) requires i < |ns| reads ns => EntryOf(ns[i])))
    }

    constructor ()
      ensures Valid() && State() == Queue(0, [])
    {
      head, nodes, now := null, [], 0;
    }

    /** The pointer half of inserting before the node at p. */
    method SpliceBefore(src: Timer, pt: Timer, ghost p: nat) returns (newHead: bool)
      requires Valid() && src !in nodes && p < |nodes| && pt == nodes[p]
      modifies this`head, this`nodes, src`prev, src`next, nodes`prev, nodes`next
      ensures nodes == old(nodes[..p] + [src] + nodes[p..])
      ensures Valid() && newHead == (p == 0)
    {
      ghost var ns := nodes;
      assert forall i: nat :: i < |ns| ==> NodeAt(i);
      assert NodeAt(p);
      newHead := false;
      if pt.prev != null {
        src.prev := pt.prev;
        src.prev.next := src;
      } else {
        src.prev := null;
        head := src;
        newHead := true;
      }
      pt.prev := src;
      src.next := pt;
      nodes := ns[..p] + [src] + ns[p..];
      forall i: nat | i < |nodes| ensures NodeAt(i) {
        if i < p {
          assert nodes[i] == ns[i] && old(NodeAt(i));
        } else if i > p {
          assert nodes[i] == ns[i - 1] && old(NodeAt(i - 1));
        }
      }
    }

    /** The ticks half: the newcomer's share of the delta at p, and what is left of it. */
    method ShareTicks(src: Timer, pt: Timer, sum: u32, ghost p: nat)
      requires Valid() && src !in nodes && p < |nodes| && pt == nodes[p]
      requires var ts := Ticks(State().es); Fits(ts) && p == Place(ts, src.intervalTicks, 0) && sum == Prefix(ts, p + 1)
      modifies src`fireTicks, pt`fireTicks
      ensures Valid()
      ensures src.fireTicks == OwnTicks(old(Ticks(State().es)), src.intervalTicks)
      ensures pt.fireTicks == Sub32(old(pt.fireTicks), src.fireTicks)
    {
      ghost var ts := Ticks(State().es);
      assert NodeAt(p);
      OwnTicksValue(ts, src.intervalTicks);
      assert ts[p] == pt.fireTicks && Prefix(ts, p + 1) == Prefix(ts, p) + ts[p];
      if pt.prev != null {
        var dt := Sub32(pt.fireTicks, Sub32(sum, src.intervalTicks));
        InBounds(sum - src.intervalTicks);
        src.fireTicks := if dt == 0 then 80 else dt;
      } else {
        src.fireTicks := src.intervalTicks;
      }
      pt.fireTicks := Sub32(pt.fireTicks, src.fireTicks);
      forall i: nat | i < |nodes| ensures NodeAt(i) {
        assert old(NodeAt(i));
      }
    }

    /** Inserting before the node at p. */
    method InsertBefore(src: Timer, pt: Timer, sum: u32, ghost p: nat) returns (newHead: bool)
      requires Valid() && src !in nodes && p < |nodes| && pt == nodes[p]
      requires var ts := Ticks(State().es); Fits(ts) && p == Place(ts, src.intervalTicks, 0) && sum == Prefix(ts, p + 1)
      modifies this`head, this`nodes, src, nodes
      ensures nodes == old(nodes[..p] + [src] + nodes[p..])
      ensures Valid() && newHead == (p == 0) && now == old(now)
      ensures State().es == old(InsertEntry(State().es, src, src.intervalTicks, src.repeat))
    {
      ghost var es, ns := State().es, nodes;
      ShareTicks(src, pt, sum, p);
      newHead := SpliceBefore(src, pt, p);
      ghost var us := InsertEntry(es, src, src.intervalTicks, src.repeat);
      ghost var vs := State().es;
      assert |vs| == |us|;
      forall i: nat | i < |us| ensures vs[i] == us[i] {
        if i < p {
          assert ns[i] != pt && nodes[i] == ns[i] && us[i] == es[i] == old(EntryOf(ns[i]));
        } else if i == p {
          assert nodes[p] == src && us[p] == EntryOf(src);
        } else if i == p + 1 {
          assert nodes[i] == pt && es[p] == old(EntryOf(pt));
        } else {
          assert ns[i - 1] != pt && nodes[i] == ns[i - 1] && us[i] == es[i - 1] == old(EntryOf(ns[i - 1]));
        }
      }
    }

    /** Linking src in after the last node. */
    method InsertLast(src: Timer, pt: Timer, sum: u32)
      requires Valid() && src !in nodes && nodes != [] && pt == nodes[|nodes| - 1]
      requires var ts := Ticks(State().es);
               Fits(ts) && Place(ts, src.intervalTicks, 0) == |nodes| && sum == Prefix(ts, |nodes|)
      modifies this`nodes, src, nodes`next
      ensures nodes == old(nodes) + [src]
      ensures Valid() && now == old(now)
      ensures State().es == old(InsertEntry(State().es, src, src.intervalTicks, src.repeat))
    {
      ghost var es, ns := State().es, nodes;
      OwnTicksValue(Ticks(es), src.intervalTicks);
      var dt := Sub32(src.intervalTicks, sum);
      src.fireTicks := if dt == 0 then 80 else dt;
      src.next := null;
      src.prev := pt;
      pt.next := src;
      nodes := ns + [src];
      forall i: nat | i < |nodes| ensures NodeAt(i) {
        if i < |ns| { assert nodes[i] == ns[i] && old(NodeAt(i)); }
      }
      ghost var us, vs := es + [Entry(src, src.intervalTicks, src.repeat, src.fireTicks)], State().es;
      forall i: nat | i < |us| ensures vs[i] == us[i] {
        if i < |ns| { assert nodes[i] == ns[i] && es[i] == old(EntryOf(ns[i])); }
      }
      assert vs == us;
    }

    /** What InsertEntry does to the queue: nothing if the timer is already in it. */
    ghost function Inserting(src: Timer): Queue<Timer>
      reads this, nodes, src
    {
      if src in nodes then State()
      else State().(es := InsertEntry(State().es, src, src.intervalTicks, src.repeat))
    }

    /** A queued timer's new interval must not be shorter than its place in the list. */
    ghost predicate Insertable(src: Timer)
      reads this, nodes, src
    {
      forall k: nat :: k < |nodes| && nodes[k] == src ==> Prefix(Ticks(State().es), k) <= src.intervalTicks
    }

    /** The first i nodes are other timers, due no later than this one's interval. */
    ghost predicate Passed(src: Timer, i: nat)
      reads this, nodes, src
    {
      && i <= |nodes|
      && (forall j :: 0 <= j < i ==> nodes[j] != src)
      && (forall j :: 0 <= j < i ==> Deadline(Ticks(State().es), j) <= src.intervalTicks)
    }

    /** A timer not met before a deadline beyond its interval is not queued. */
    lemma FoundBeyond(src: Timer, i: nat)
      requires Insertable(src) && i < |nodes| && Passed(src, i) && nodes[i] != src
      requires src.intervalTicks < Deadline(Ticks(State().es), i)
      ensures src !in nodes && Place(Ticks(State().es), src.intervalTicks, 0) == i
    {
      SearchEnds(Ticks(State().es), src.intervalTicks, i);
      forall k: nat | k < |nodes| ensures nodes[k] != src {
        if k > i {
          PrefixMonotone(Ticks(State().es), i + 1, k);
        }
      }
    }

    lemma FoundEnd(src: Timer)
      requires Passed(src, |nodes|)
      ensures src !in nodes && Place(Ticks(State().es), src.intervalTicks, 0) == |nodes|
    {
      SearchEnds(Ticks(State().es), src.intervalTicks, |nodes|);
    }

    lemma PassOne(src: Timer, i: nat)
      requires Passed(src, i) && i < |nodes| && nodes[i] != src
      requires Deadline(Ticks(State().es), i) <= src.intervalTicks
      ensures Passed(src, i + 1)
    {
    }

    /** The search along the list: at the timer itself, at the first node due beyond its
        interval, or at the last node. */
    method FindPlace(src: Timer) returns (pt: Timer, sum: u32, beyond: bool, ghost i: nat)
      requires Valid() && head != null && Insertable(src) && Fits(Ticks(State().es))
      ensures i < |nodes| && pt == nodes[i]
      ensures src in nodes ==> pt == src
      ensures src !in nodes ==> sum == Prefix(Ticks(State().es), i + 1)
                                && Place(Ticks(State().es), src.intervalTicks, 0) == (if beyond then i else |nodes|)
                                && (beyond || i + 1 == |nodes|)
    {
      ghost var ts := Ticks(State().es);
      pt := head;
      sum := 0;
      beyond := false;
      i := 0;
      while true
        invariant i < |nodes| && pt == nodes[i] && sum == Prefix(ts, i) && Passed(src, i)
        decreases |nodes| - i
      {
        if pt == src {
          return;
        }
        assert ts[i] == pt.fireTicks;
        NextSum(ts, i);
        sum := Add32(sum, pt.fireTicks);
        if src.intervalTicks < sum {
          FoundBeyond(src, i);
          beyond := true;
          return;
        }
        PassOne(src, i);
        assert NodeAt(i);
        if pt.next == null {
          FoundEnd(src);
          return;
        }
        pt := pt.next;
        i := i + 1;
      }
    }

    /** __suli_timer_insert_entry. */
    method InsertTimer(src: Timer) returns (newHead: bool)
      requires Valid() && Insertable(src) && Fits(Ticks(State().es))
      modifies this`head, this`nodes, src, nodes
      ensures Valid() && State() == old(Inserting(src))
      ensures newHead == (src !in old(nodes) && nodes[0] == src)
      ensures forall n :: n in nodes <==> n in old(nodes) || n == src
    {
      newHead := false;
      if head == null {
        src.prev := null;
        src.next := null;
        src.fireTicks := src.intervalTicks;
        head := src;
        newHead := true;
        nodes := [src];
        return;
      }
      var pt, sum, beyond, i := FindPlace(src);
      if pt == src {
        return;
      }
      if beyond {
        newHead := InsertBefore(src, pt, sum, i);
      } else {
        InsertLast(src, pt, sum);
      }
    }

    /** A queue with one entry's fields changed, if it is there. */
    method SetFields(timer: Timer, interval: u32, repeat: bool)
      requires Valid()
      modifies timer`intervalTicks, timer`repeat
      ensures Valid() && nodes == old(nodes)
      ensures timer.intervalTicks == interval && timer.repeat == repeat
      ensures var q := old(State());
              if timer in nodes then
                var k := IndexOf(q.es, timer);
                k < |q.es| && State() == q.(es := q.es[k := q.es[k].(interval := interval, repeat := repeat)])
              else IndexOf(q.es, timer) == |q.es| && State() == q
    {
      ghost var es := State().es;
      timer.intervalTicks := interval;
      timer.repeat := repeat;
      forall i: nat | i < |nodes| ensures NodeAt(i) {
        assert old(NodeAt(i));
      }
      forall i: nat | i < |nodes| ensures es[i] == old(EntryOf(nodes[i])) && es[i].id == nodes[i] {}
      ghost var k := IndexOf(es, timer);
      assert timer in nodes ==> k < |es|;
      ghost var us := if k < |es| then es[k := es[k].(interval := interval, repeat := repeat)] else es;
      forall i: nat | i < |nodes| ensures State().es[i] == us[i] {
        assert nodes[i] == timer ==> i == k;
      }
      assert State().es == us;
    }

    /** suli_timer_install, without the hardware set-up: the fields, then the list. */
    method InstallTimer(timer: Timer, interval: u32, repeat: bool) returns (newHead: bool)
      requires Valid() && Fits(Ticks(State().es))
      requires timer in nodes ==> Prefix(Ticks(State().es), IndexOf(State().es, timer)) <= interval
      modifies this`head, this`nodes, timer, nodes
      ensures Valid() && State() == Install(old(State()), timer, interval, repeat)
      ensures forall n :: n in nodes <==> n in old(nodes) || n == timer
    {
      ghost var q := State();
      SetFields(timer, interval, repeat);
      assert Ticks(State().es) == Ticks(q.es);
      newHead := InsertTimer(timer);
    }

    /** Detaches the head: what is left is the queue after its deadline. */
    method PopHead() returns (h: Timer)
      requires Valid() && nodes != []
      modifies this`head, this`nodes, this`now, nodes`prev
      ensures Valid() && h == old(head) && nodes == old(nodes)[1..] && State() == Popped(old(State()))
      ensures h !in nodes && EntryOf(h) == old(State()).es[0]
    {
      ghost var q, ns := State(), nodes;
      h := head;
      assert NodeAt(0) && (|ns| > 1 ==> NodeAt(1));
      head := head.next;
      if head != null {
        head.prev := null;
      }
      now := now + h.fireTicks;
      nodes := ns[1..];
      forall i: nat | i < |nodes| ensures NodeAt(i) {
        assert nodes[i] == ns[i + 1] && old(NodeAt(i + 1));
      }
      assert State().es == q.es[1..];
    }

    /** The head is due: off the list, and back on if it repeats. */
    method FireHead()
      requires Valid() && nodes != [] && Fits(Ticks(State().es))
      modifies this, nodes
      ensures Valid() && State() == Fire(old(State()))
      ensures forall n :: n in nodes ==> n in old(nodes)
    {
      ghost var q := State();
      PoppedFits(q);
      var h := PopHead();
      if h.repeat {
        var newHead := InsertTimer(h);
      }
    }

    /** __suli_timer_isr, with a callback that leaves the list alone: the ticks until the next
        interrupt are returned. */
    method Isr() returns (timeout: u32)
      requires Valid() && Fits(Ticks(State().es))
      modifies this, nodes
      ensures Valid() && State() == Fire(old(State()))
      ensures timeout == if nodes == [] then 0xfffffff else State().es[0].ticks
      ensures forall n :: n in nodes ==> n in old(nodes)
    {
      if head != null {
        FireHead();
      }
      timeout := if head != null then head.fireTicks else 0xfffffff;
    }

    /** The pointer half of taking the node at k out. */
    method Unlink(pt: Timer, ghost k: nat)
      requires Valid() && k < |nodes| && pt == nodes[k]
      modifies this`head, this`nodes, nodes`prev, nodes`next
      ensures Valid() && nodes == old(nodes[..k] + nodes[k + 1..])
    {
      ghost var ns := nodes;
      assert NodeAt(k);
      assert forall i: nat :: i < |ns| ==> NodeAt(i);
      if pt.prev != null {
        pt.prev.next := pt.next;
      } else {
        head := pt.next;
      }
      if pt.next != null {
        pt.next.prev := pt.prev;
      }
      nodes := ns[..k] + ns[k + 1..];
      forall i: nat | i < |nodes| ensures NodeAt(i) {
        if i < k {
          assert nodes[i] == ns[i] && old(NodeAt(i));
        } else {
          assert nodes[i] == ns[i + 1] && old(NodeAt(i + 1));
        }
      }
    }

    /** Taking the node at k out: its ticks go to the one after it. */
    method RemoveNode(pt: Timer, ghost k: nat)
      requires Valid() && k < |nodes| && pt == nodes[k]
      modifies this`head, this`nodes, nodes
      ensures Valid() && nodes == old(nodes[..k] + nodes[k + 1..])
      ensures State() == old(State()).(es := RemoveAt(old(State()).es, k))
    {
      ghost var es, ns := State().es, nodes;
      assert NodeAt(k);
      if pt.next != null {
        pt.next.fireTicks := Add32(pt.next.fireTicks, pt.fireTicks);
      }
      forall i: nat | i < |nodes| ensures NodeAt(i) {
        assert old(NodeAt(i));
      }
      Unlink(pt, k);
      ghost var us, vs := RemoveAt(es, k), State().es;
      forall i: nat | i < |us| ensures vs[i] == us[i] {
        if i < k {
          assert nodes[i] == ns[i] && us[i] == es[i] == old(EntryOf(ns[i]));
        } else {
          assert nodes[i] == ns[i + 1] && es[i + 1] == old(EntryOf(ns[i + 1])) && es[k] == old(EntryOf(ns[k]));
        }
      }
      assert vs == us;
    }

    /** suli_timer_remove. */
    method RemoveTimer(timer: Timer)
      requires Valid()
      modifies this`head, this`nodes, nodes
      ensures Valid() && State() == Remove(old(State()), timer)
      ensures forall n :: n in nodes <==> n in old(nodes) && n != timer
    {
      ghost var es := State().es;
      var pt := head;
      ghost var k := 0;
      while pt != null && pt != timer
        invariant k <= |nodes| && pt == (if k < |nodes| then nodes[k] else null)
        invariant forall j :: 0 <= j < k ==> nodes[j] != timer
        decreases |nodes| - k
      {
        assert NodeAt(k);
        pt := pt.next;
        k := k + 1;
      }
      assert forall j :: 0 <= j < |es| ==> es[j].id == nodes[j];
      IndexIs(es, timer, k);
      if pt != null {
        RemoveNode(pt, k);
      }
    }

    /** suli_timer_control_interval. */
    method ControlTimer(timer: Timer, interval: u32)
      requires Valid()
      modifies timer`intervalTicks, timer`repeat
      ensures Valid() && nodes == old(nodes) && State() == SetInterval(old(State()), timer, interval)
    {
      SetFields(timer, interval, timer.repeat);
    }
  }

  lemma PoppedFits<T>(q: Queue<T>)
    requires q.es != [] && Fits(Ticks(q.es))
    ensures Fits(Ticks(Popped(q).es))
  {
    assert Ticks(Popped(q).es) == Ticks(q.es)[1..];
    PrefixTail(Ticks(q.es), |q.es|);
  }

  lemma NextSum(ts: seq<u32>, i: nat)
    requires i < |ts| && Fits(ts)
    ensures Prefix(ts, i) < WORD && Add32(Prefix(ts, i), ts[i]) == Prefix(ts, i + 1) == Deadline(ts, i)
  {
    PrefixMonotone(ts, i + 1, |ts|);
    InBounds(Prefix(ts, i + 1));
  }

  lemma IndexIs<T>(es: seq<Entry<T>>, id: T, k: nat)
    requires k <= |es| && (k < |es| ==> es[k].id == id) && forall j :: 0 <= j < k ==> es[j].id != id
    ensures IndexOf(es, id) == k
  {
    var i := IndexOf(es, id);
    if i < k {} else if k < i {}
  }

  lemma SearchEnds(ts: seq<u32>, iv: u32, p: nat)
    requires p <= |ts| && (p < |ts| ==> iv < Deadline(ts, p))
    requires forall j :: 0 <= j < p ==> Deadline(ts, j) <= iv
    ensures Place(ts, iv, 0) == p
  {
    var q := Place(ts, iv, 0);
    if q < p {} else if p < q {}
  }
}
