/**
 * The delta-encoded timer queue of suli/suli2.cpp as a value: each entry holds the ticks
 * after its predecessor, in 32-bit arithmetic, so its deadline is a prefix sum.
 */
module TimerQueue {
  import Sequences

  const WORD: nat := 0x1_0000_0000

  type u32 = x: int | 0 <= x < 0x1_0000_0000

  function Add32(a: u32, b: u32): u32 { (a + b) % WORD }

  function Sub32(a: u32, b: u32): u32 { (a - b) % WORD }

  /** Ticks in a microsecond, the shift given to the later of two timers that tie. */
  const TICK: u32 := 80

  datatype Entry<T> = Entry(id: T, interval: u32, repeat: bool, ticks: u32)

  function Ticks<T>(es: seq<Entry<T>>): (s: seq<u32>)
    ensures |s| == |es| && forall i :: 0 <= i < |es| ==> s[i] == es[i].ticks
  {
    seq(|es|, (i: nat) requires i < |es| => es[i].ticks)
  }

  /** Sum of the first k deltas. */
  function Prefix(ts: seq<u32>, k: nat): nat
    requires k <= |ts|
  {
    if k == 0 then 0 else Prefix(ts, k - 1) + ts[k - 1]
  }

  /** When entry k fires, counted from the moment the head was loaded. */
  function Deadline(ts: seq<u32>, k: nat): nat
    requires k < |ts|
  {
    Prefix(ts, k + 1)
  }

  lemma {:induction false} PrefixMonotone(ts: seq<u32>, j: nat, k: nat)
    requires j <= k <= |ts|
    ensures Prefix(ts, j) <= Prefix(ts, k)
  {
    if j < k { PrefixMonotone(ts, j, k - 1); }
  }

  lemma {:induction false} PrefixSame(ts: seq<u32>, us: seq<u32>, k: nat)
    requires k <= |ts| && k <= |us| && ts[..k] == us[..k]
    ensures Prefix(ts, k) == Prefix(us, k)
  {
    if k > 0 {
      assert ts[..k - 1] == ts[..k][..k - 1] && us[..k - 1] == us[..k][..k - 1];
      assert ts[k - 1] == ts[..k][k - 1] && us[k - 1] == us[..k][k - 1];
      PrefixSame(ts, us, k - 1);
    }
  }

  // ----- insertion

  /** The first entry whose deadline lies beyond iv, or the end. */
  function Place(ts: seq<u32>, iv: u32, from: nat): (p: nat)
    requires from <= |ts|
    ensures from <= p <= |ts|
    ensures p < |ts| ==> iv < Deadline(ts, p)
    ensures forall j :: from <= j < p ==> Deadline(ts, j) <= iv
    decreases |ts| - from
  {
    if from == |ts| || iv < Deadline(ts, from) then from else Place(ts, iv, from + 1)
  }

  /** A tie: some entry is due at exactly iv. The newcomer goes right after it. */
  predicate Ties(ts: seq<u32>, iv: u32) {
    var p := Place(ts, iv, 0);
    p > 0 && Prefix(ts, p) == iv
  }

  function OwnTicks(ts: seq<u32>, iv: u32): u32 {
    var p := Place(ts, iv, 0);
    if p == 0 then iv
    else
      var dt := (iv - Prefix(ts, p)) % WORD;
      if dt == 0 then TICK else dt
  }

  /** The deltas after an insertion. */
  function Inserted(ts: seq<u32>, iv: u32): (us: seq<u32>)
    ensures |us| == |ts| + 1
  {
    var p, own := Place(ts, iv, 0), OwnTicks(ts, iv);
    if p < |ts| then ts[..p] + [own, Sub32(ts[p], own)] + ts[p + 1..]
    else ts + [own]
  }

  /** All deadlines are representable. */
  ghost predicate Fits(ts: seq<u32>) {
    Prefix(ts, |ts|) < WORD
  }

  /** The index of an old entry after an insertion at p. */
  function Shifted(p: nat, k: nat): nat { if k < p then k else k + 1 }

  lemma InBounds(a: int)
    requires 0 <= a < WORD
    ensures a % WORD == a
  {
  }

  lemma OwnTicksValue(ts: seq<u32>, iv: u32)
    requires Fits(ts)
    ensures var p := Place(ts, iv, 0);
            && Prefix(ts, p) <= iv
            && OwnTicks(ts, iv) == if p == 0 then iv else if Ties(ts, iv) then TICK else iv - Prefix(ts, p)
  {
    var p := Place(ts, iv, 0);
    if p > 0 {
      assert Deadline(ts, p - 1) <= iv;
      InBounds(iv - Prefix(ts, p));
    }
  }

  /** The entry after a newcomer that had to be shifted is at least that far behind. */
  ghost predicate RoomAfter(ts: seq<u32>, iv: u32) {
    var p := Place(ts, iv, 0);
    Ties(ts, iv) && p < |ts| ==> ts[p] >= TICK
  }

  /** A newcomer is due after its interval, or a microsecond later on a tie. */
  lemma NewDeadline(ts: seq<u32>, iv: u32)
    requires Fits(ts)
    ensures Deadline(Inserted(ts, iv), Place(ts, iv, 0)) == if Ties(ts, iv) then iv + TICK else iv
  {
    var p, us := Place(ts, iv, 0), Inserted(ts, iv);
    OwnTicksValue(ts, iv);
    assert us[..p] == ts[..p];
    PrefixSame(ts, us, p);
    assert us[p] == OwnTicks(ts, iv);
  }

  lemma {:induction false} TailShift(ts: seq<u32>, us: seq<u32>, p: nat, k: nat, d: int)
    requires p < k <= |ts| && |us| == |ts| + 1
    requires forall j :: p < j < |ts| ==> us[j + 1] == ts[j]
    requires Prefix(us, p + 2) == Prefix(ts, p + 1) + d
    ensures Prefix(us, k + 1) == Prefix(ts, k) + d
  {
    if k > p + 1 {
      TailShift(ts, us, p, k - 1, d);
      assert us[k] == ts[k - 1];
    }
  }

  /** Every other entry's deadline after an insertion, exactly: kept, or 2^32 ticks late for
      the entries behind a newcomer that was shifted past the room it had. */
  lemma OldDeadlines(ts: seq<u32>, iv: u32, k: nat)
    requires Fits(ts) && k < |ts|
    ensures var p := Place(ts, iv, 0);
            Deadline(Inserted(ts, iv), Shifted(p, k))
            == Deadline(ts, k) + if k >= p && !RoomAfter(ts, iv) then WORD else 0
  {
    var p, us := Place(ts, iv, 0), Inserted(ts, iv);
    if k < p {
      InsertedHead(ts, iv, k + 1);
      PrefixSame(ts, us, k + 1);
    } else {
      TwoDeltas(ts, iv);
      InsertedTail(ts, iv);
      TailShift(ts, us, p, k + 1, if RoomAfter(ts, iv) then 0 else WORD);
    }
  }

  lemma InsertedHead(ts: seq<u32>, iv: u32, k: nat)
    requires k <= Place(ts, iv, 0)
    ensures Inserted(ts, iv)[..k] == ts[..k]
  {
  }

  lemma InsertedTail(ts: seq<u32>, iv: u32)
    ensures var p, us := Place(ts, iv, 0), Inserted(ts, iv); forall j :: p < j < |ts| ==> us[j + 1] == ts[j]
  {
  }

  /** The newcomer's delta and the next one's add up to what was there. */
  lemma TwoDeltas(ts: seq<u32>, iv: u32)
    requires Fits(ts) && Place(ts, iv, 0) < |ts|
    ensures var p, us := Place(ts, iv, 0), Inserted(ts, iv);
            Prefix(us, p + 2) == Prefix(ts, p + 1) + if RoomAfter(ts, iv) then 0 else WORD
  {
    var p, us, own := Place(ts, iv, 0), Inserted(ts, iv), OwnTicks(ts, iv);
    assert us[..p] == ts[..p];
    PrefixSame(ts, us, p);
    NextDelta(ts, iv);
    assert us[p] == own && us[p + 1] == Sub32(ts[p], own);
    assert Prefix(us, p + 2) == Prefix(us, p + 1) + us[p + 1];
    assert Prefix(us, p + 1) == Prefix(us, p) + us[p];
  }

  /** The delta of the entry after the newcomer. */
  lemma NextDelta(ts: seq<u32>, iv: u32)
    requires Fits(ts) && Place(ts, iv, 0) < |ts|
    ensures var p, own := Place(ts, iv, 0), OwnTicks(ts, iv);
            Sub32(ts[p], own) == ts[p] - own + if RoomAfter(ts, iv) then 0 else WORD
  {
    var p, own := Place(ts, iv, 0), OwnTicks(ts, iv);
    OwnTicksValue(ts, iv);
    assert Deadline(ts, p) == Prefix(ts, p) + ts[p];
    if RoomAfter(ts, iv) {
      InBounds(ts[p] as int - own as int);
    } else {
      assert ts[p] < own == TICK;
      WrapBelow(ts[p] as int - own as int);
    }
  }

  lemma WrapBelow(a: int)
    requires -0x1_0000_0000 <= a < 0
    ensures a % WORD == a + WORD
  {
  }

  /** Insertion keeps every other deadline if and only if a shifted newcomer has room before
      the entry behind it. */
  lemma InsertKeepsDeadlines(ts: seq<u32>, iv: u32)
    requires Fits(ts)
    ensures RoomAfter(ts, iv) <==>
            forall k :: 0 <= k < |ts| ==> Deadline(Inserted(ts, iv), Shifted(Place(ts, iv, 0), k)) == Deadline(ts, k)
  {
    forall k: nat | k < |ts|
      ensures Deadline(Inserted(ts, iv), Shifted(Place(ts, iv, 0), k))
           == Deadline(ts, k) + if k >= Place(ts, iv, 0) && !RoomAfter(ts, iv) then WORD else 0
    {
      OldDeadlines(ts, iv, k);
    }
    if !RoomAfter(ts, iv) {
      OldDeadlines(ts, iv, Place(ts, iv, 0));
    }
  }

  // ----- the queue and its operations

  /** The time the head was loaded at, and the entries in firing order. */
  datatype Queue<T> = Queue(now: nat, es: seq<Entry<T>>)

  function IndexOf<T(==)>(es: seq<Entry<T>>, id: T): (k: nat)
    ensures k <= |es|
    ensures k < |es| ==> es[k].id == id
    ensures forall j :: 0 <= j < k ==> es[j].id != id
  {
    if es == [] then 0 else if es[0].id == id then 0 else 1 + IndexOf(es[1..], id)
  }

  predicate Queued<T(==)>(q: Queue<T>, id: T) {
    IndexOf(q.es, id) < |q.es|
  }

  function InsertEntry<T>(es: seq<Entry<T>>, id: T, iv: u32, repeat: bool): seq<Entry<T>> {
    var p, own := Place(Ticks(es), iv, 0), OwnTicks(Ticks(es), iv);
    var src := Entry(id, iv, repeat, own);
    if p < |es| then es[..p] + [src, es[p].(ticks := Sub32(es[p].ticks, own))] + es[p + 1..]
    else es + [src]
  }

  /** Installing a timer: one already queued only has its fields changed. */
  function Install<T(==)>(q: Queue<T>, id: T, iv: u32, repeat: bool): Queue<T> {
    if Queued(q, id) then
      var k := IndexOf(q.es, id);
      q.(es := q.es[k := q.es[k].(interval := iv, repeat := repeat)])
    else q.(es := InsertEntry(q.es, id, iv, repeat))
  }

  /** The interrupt: the head is due, and goes back in if it repeats. */
  function Fire<T>(q: Queue<T>): Queue<T> {
    if q.es == [] then q
    else
      var h := q.es[0];
      Queue(q.now + h.ticks, if h.repeat then InsertEntry(q.es[1..], h.id, h.interval, true) else q.es[1..])
  }

  function RemoveAt<T>(es: seq<Entry<T>>, k: nat): seq<Entry<T>>
    requires k < |es|
  {
    if k + 1 < |es| then es[..k] + [es[k + 1].(ticks := Add32(es[k + 1].ticks, es[k].ticks))] + es[k + 2..]
    else es[..k]
  }

  function Remove<T(==)>(q: Queue<T>, id: T): Queue<T> {
    if Queued(q, id) then q.(es := RemoveAt(q.es, IndexOf(q.es, id))) else q
  }

  function SetInterval<T(==)>(q: Queue<T>, id: T, iv: u32): Queue<T> {
    if Queued(q, id) then
      var k := IndexOf(q.es, id);
      q.(es := q.es[k := q.es[k].(interval := iv)])
    else q
  }

  /** The absolute time a queued timer is due at. */
  function Due<T(==)>(q: Queue<T>, id: T): nat
    requires Queued(q, id)
  {
    q.now + Deadline(Ticks(q.es), IndexOf(q.es, id))
  }

  // ----- what every operation keeps

  /** The longest interval whose deadline, even shifted on a tie, fits 32 bits. */
  const LONGEST: u32 := 0x1_0000_0000 - 1 - 80

  predicate GoodInterval(iv: u32) { iv % 80 == 0 && iv <= LONGEST }

  ghost predicate Distinct<T>(es: seq<Entry<T>>) {
    forall i, j :: 0 <= i < j < |es| ==> es[i].id != es[j].id
  }

  /** No timer is in the list twice, and every deadline is representable. */
  ghost predicate Sane<T>(es: seq<Entry<T>>) {
    Distinct(es) && Fits(Ticks(es))
  }

  /** Multiples of 80 ticks throughout, and no deadline beyond the longest. */
  ghost predicate Healthy<T(!new)>(es: seq<Entry<T>>) {
    && Distinct(es)
    && (forall i :: 0 <= i < |es| ==> GoodInterval(es[i].interval) && es[i].ticks % 80 == 0)
    && Prefix(Ticks(es), |es|) <= LONGEST + TICK
  }

  lemma InsertEntryTicks<T>(es: seq<Entry<T>>, id: T, iv: u32, repeat: bool)
    ensures Ticks(InsertEntry(es, id, iv, repeat)) == Inserted(Ticks(es), iv)
  {
    var us, vs := InsertEntry(es, id, iv, repeat), Inserted(Ticks(es), iv);
    forall i | 0 <= i < |us| ensures us[i].ticks == vs[i] {}
  }

  lemma {:induction false} PrefixMultiple(ts: seq<u32>, k: nat)
    requires k <= |ts| && forall i :: 0 <= i < |ts| ==> ts[i] % 80 == 0
    ensures Prefix(ts, k) % 80 == 0
  {
    if k > 0 { PrefixMultiple(ts, k - 1); }
  }

  /** On multiples of 80 ticks a newcomer shifted by 80 always has room. */
  lemma HealthyRoom<T(!new)>(es: seq<Entry<T>>, iv: u32)
    requires Healthy(es)
    ensures Sane(es) && RoomAfter(Ticks(es), iv)
  {
    var ts := Ticks(es);
    var p := Place(ts, iv, 0);
    if Ties(ts, iv) && p < |ts| {
      assert Deadline(ts, p) == Prefix(ts, p) + ts[p];
      assert ts[p] > 0;
      assert es[p].ticks % 80 == 0;
    }
  }

  /** us is es with one more entry at p, by identity. */
  ghost predicate OneMoreAt<T>(es: seq<Entry<T>>, us: seq<Entry<T>>, id: T, p: nat) {
    && |us| == |es| + 1 && p <= |es|
    && us[p].id == id
    && (forall j :: 0 <= j < p ==> us[j].id == es[j].id)
    && (forall j :: p < j < |us| ==> us[j].id == es[j - 1].id)
  }

  lemma InsertEntryIds<T>(es: seq<Entry<T>>, id: T, iv: u32, repeat: bool)
    ensures OneMoreAt(es, InsertEntry(es, id, iv, repeat), id, Place(Ticks(es), iv, 0))
  {
  }

  lemma OneMoreDistinct<T>(es: seq<Entry<T>>, us: seq<Entry<T>>, id: T, p: nat)
    requires Distinct(es) && OneMoreAt(es, us, id, p) && forall i :: 0 <= i < |es| ==> es[i].id != id
    ensures Distinct(us)
  {
    forall i, j | 0 <= i < j < |us| ensures us[i].id != us[j].id {
      if i == p || j == p {} else {
        var i0, j0 := if i < p then i else i - 1, if j < p then j else j - 1;
        assert es[i0].id != es[j0].id;
      }
    }
  }

  lemma InsertIds<T>(es: seq<Entry<T>>, id: T, iv: u32, repeat: bool, x: T)
    requires Distinct(es) && forall i :: 0 <= i < |es| ==> es[i].id != id
    ensures var us := InsertEntry(es, id, iv, repeat); var p := Place(Ticks(es), iv, 0);
            && Distinct(us)
            && IndexOf(us, id) == p
            && (IndexOf(es, x) < |es| ==> IndexOf(us, x) == Shifted(p, IndexOf(es, x)))
            && (IndexOf(es, x) == |es| && x != id ==> IndexOf(us, x) == |us|)
  {
    InsertEntryIds(es, id, iv, repeat);
    OneMoreDistinct(es, InsertEntry(es, id, iv, repeat), id, Place(Ticks(es), iv, 0));
    OneMoreIndex(es, InsertEntry(es, id, iv, repeat), id, Place(Ticks(es), iv, 0), x);
  }

  lemma OneMoreIndex<T>(es: seq<Entry<T>>, us: seq<Entry<T>>, id: T, p: nat, x: T)
    requires OneMoreAt(es, us, id, p) && Distinct(us)
    ensures IndexOf(us, id) == p
    ensures IndexOf(es, x) < |es| ==> IndexOf(us, x) == Shifted(p, IndexOf(es, x))
    ensures IndexOf(es, x) == |es| && x != id ==> IndexOf(us, x) == |us|
  {
    IndexUnique(us, p);
    var k := IndexOf(es, x);
    if k < |es| {
      IndexUnique(us, Shifted(p, k));
    } else if x != id {
      var j := IndexOf(us, x);
      if j < |us| {}
    }
  }

  lemma IndexUnique<T>(es: seq<Entry<T>>, k: nat)
    requires Distinct(es) && k < |es|
    ensures IndexOf(es, es[k].id) == k
  {
    var j := IndexOf(es, es[k].id);
    if j < k {} else if k < j {}
  }

  /** Insertion sets the newcomer's due time, and keeps every other if it has room. */
  lemma InsertKeeps<T(!new)>(q: Queue<T>, id: T, iv: u32, repeat: bool)
    requires Sane(q.es) && !Queued(q, id)
    ensures var q' := q.(es := InsertEntry(q.es, id, iv, repeat));
            && Distinct(q'.es)
            && Queued(q', id) && Due(q', id) == q.now + iv + (if Ties(Ticks(q.es), iv) then TICK else 0)
            && (forall x: T :: Queued(q', x) <==> Queued(q, x) || x == id)
            && (RoomAfter(Ticks(q.es), iv) ==> forall x: T :: Queued(q, x) ==> Due(q', x) == Due(q, x))
  {
    var es, ts := q.es, Ticks(q.es);
    var q' := q.(es := InsertEntry(es, id, iv, repeat));
    InsertEntryTicks(es, id, iv, repeat);
    NewDeadline(ts, iv);
    InsertKeepsDeadlines(ts, iv);
    InsertIds(es, id, iv, repeat, id);
    forall x: T ensures Queued(q', x) <==> Queued(q, x) || x == id {
      InsertIds(es, id, iv, repeat, x);
    }
    if RoomAfter(ts, iv) {
      forall x: T | Queued(q, x) ensures Due(q', x) == Due(q, x) {
        InsertIds(es, id, iv, repeat, x);
      }
    }
  }

  /** Insertion keeps a queue healthy. */
  lemma InsertHealthy<T(!new)>(q: Queue<T>, id: T, iv: u32, repeat: bool)
    requires Healthy(q.es) && GoodInterval(iv) && !Queued(q, id)
    ensures Healthy(InsertEntry(q.es, id, iv, repeat))
  {
    HealthyRoom(q.es, iv);
    InsertKeeps(q, id, iv, repeat);
    InsertTotal(q.es, id, iv, repeat);
    InsertMultiples(q.es, id, iv, repeat);
  }

  lemma InsertTotal<T(!new)>(es: seq<Entry<T>>, id: T, iv: u32, repeat: bool)
    requires Healthy(es) && GoodInterval(iv)
    ensures var us := InsertEntry(es, id, iv, repeat); Prefix(Ticks(us), |us|) <= LONGEST + TICK
  {
    var ts, us := Ticks(es), Inserted(Ticks(es), iv);
    var p := Place(ts, iv, 0);
    HealthyRoom(es, iv);
    InsertEntryTicks(es, id, iv, repeat);
    if p < |ts| {
      OldDeadlines(ts, iv, |ts| - 1);
    } else {
      NewDeadline(ts, iv);
    }
  }

  lemma InsertMultiples<T(!new)>(es: seq<Entry<T>>, id: T, iv: u32, repeat: bool)
    requires Healthy(es) && GoodInterval(iv)
    ensures var us := InsertEntry(es, id, iv, repeat);
            forall i :: 0 <= i < |us| ==> GoodInterval(us[i].interval) && us[i].ticks % 80 == 0
  {
    var ts, us, p := Ticks(es), InsertEntry(es, id, iv, repeat), Place(Ticks(es), iv, 0);
    HealthyRoom(es, iv);
    OwnTicksValue(ts, iv);
    PrefixMultiple(ts, p);
    assert OwnTicks(ts, iv) % 80 == 0;
    if p < |es| {
      NextDelta(ts, iv);
      assert us[p + 1].ticks % 80 == 0;
    }
  }

  lemma {:induction false} PrefixTail(ts: seq<u32>, k: nat)
    requires 0 < k <= |ts|
    ensures Prefix(ts, k) == ts[0] + Prefix(ts[1..], k - 1)
  {
    if k > 1 { PrefixTail(ts, k - 1); }
  }

  /** The queue once its head is due. */
  function Popped<T>(q: Queue<T>): Queue<T>
    requires q.es != []
  {
    Queue(q.now + q.es[0].ticks, q.es[1..])
  }

  lemma PopKeeps<T(!new)>(q: Queue<T>)
    requires Sane(q.es) && q.es != []
    ensures var q' := Popped(q);
            && Sane(q'.es)
            && !Queued(q', q.es[0].id) && q'.now == Due(q, q.es[0].id)
            && (forall x: T :: Queued(q', x) <==> Queued(q, x) && x != q.es[0].id)
            && (forall x: T :: Queued(q', x) ==> Due(q', x) == Due(q, x))
  {
    var es, q', ts := q.es, Popped(q), Ticks(q.es);
    assert Ticks(es[1..]) == ts[1..];
    assert Prefix(ts, 1) == Prefix(ts, 0) + ts[0];
    PrefixTail(ts, |ts|);
    assert IndexOf(es[1..], es[0].id) == |es| - 1;
    forall x: T | Queued(q', x) ensures Due(q', x) == Due(q, x) {
      PrefixTail(ts, IndexOf(es, x) + 1);
    }
  }

  lemma PopHealthy<T(!new)>(es: seq<Entry<T>>)
    requires Healthy(es) && es != []
    ensures Healthy(es[1..]) && Sane(es)
  {
    assert Ticks(es[1..]) == Ticks(es)[1..];
    PrefixTail(Ticks(es), |es|);
  }

  /** A repeating head has room to go back in. */
  ghost predicate RoomToRepeat<T>(es: seq<Entry<T>>)
    requires es != []
  {
    es[0].repeat ==> RoomAfter(Ticks(es[1..]), es[0].interval)
  }

  /** The interrupt finds the head exactly when it is due, keeps every other due time, and
      puts a repeating timer back one interval on. */
  lemma FireKeeps<T(!new)>(q: Queue<T>)
    requires Sane(q.es) && q.es != [] && RoomToRepeat(q.es)
    ensures var q', h := Fire(q), q.es[0];
            && Distinct(q'.es)
            && q'.now == Due(q, h.id)
            && (forall x: T :: x != h.id ==> (Queued(q', x) <==> Queued(q, x)))
            && (forall x: T :: x != h.id && Queued(q, x) ==> Due(q', x) == Due(q, x))
            && (Queued(q', h.id) <==> h.repeat)
            && (h.repeat ==>
                  Due(q', h.id) == q'.now + h.interval + (if Ties(Ticks(q.es[1..]), h.interval) then TICK else 0))
  {
    PopKeeps(q);
    var h := q.es[0];
    if h.repeat {
      InsertKeeps(Popped(q), h.id, h.interval, true);
    }
  }

  lemma FireHealthy<T(!new)>(q: Queue<T>)
    requires Healthy(q.es) && q.es != []
    ensures Sane(q.es) && RoomToRepeat(q.es) && Healthy(Fire(q).es)
  {
    PopHealthy(q.es);
    PopKeeps(q);
    var h := q.es[0];
    if h.repeat {
      HealthyRoom(q.es[1..], h.interval);
      InsertHealthy(Popped(q), h.id, h.interval, true);
    }
  }

  lemma RemoveTicks<T>(es: seq<Entry<T>>, k: nat, j: nat)
    requires k < |es| && Fits(Ticks(es)) && j <= |es| && j != k + 1
    ensures var us := RemoveAt(es, k);
            Prefix(Ticks(us), if j <= k then j else j - 1) == Prefix(Ticks(es), j)
  {
    var us := RemoveAt(es, k);
    var ts, vs := Ticks(es), Ticks(us);
    if j <= k {
      assert vs[..j] == ts[..j];
      PrefixSame(ts, vs, j);
    } else {
      assert vs[..k] == ts[..k];
      PrefixSame(ts, vs, k);
      MergedDelta(ts, k);
      assert vs[k] == ts[k] as int + ts[k + 1] as int;
      MergedTail(ts, vs, k, j);
    }
  }

  lemma MergedDelta(ts: seq<u32>, k: nat)
    requires k + 1 < |ts| && Fits(ts)
    ensures Add32(ts[k + 1], ts[k]) == ts[k] as int + ts[k + 1] as int
  {
    PrefixMonotone(ts, k + 2, |ts|);
    assert Prefix(ts, k + 2) == Prefix(ts, k) + ts[k] + ts[k + 1];
  }

  lemma {:induction false} MergedTail(ts: seq<u32>, vs: seq<u32>, k: nat, j: nat)
    requires k + 2 <= j <= |ts| && |vs| == |ts| - 1
    requires Prefix(vs, k) == Prefix(ts, k) && vs[k] == ts[k] as int + ts[k + 1] as int
    requires forall i :: k < i < |vs| ==> vs[i] == ts[i + 1]
    ensures Prefix(vs, j - 1) == Prefix(ts, j)
  {
    if j > k + 2 {
      MergedTail(ts, vs, k, j - 1);
      assert vs[j - 2] == ts[j - 1];
    } else {
      assert Prefix(ts, k + 2) == Prefix(ts, k) + ts[k] + ts[k + 1];
      assert Prefix(vs, k + 1) == Prefix(vs, k) + vs[k];
    }
  }

  lemma RemoveIds<T>(es: seq<Entry<T>>, k: nat, x: T)
    requires k < |es| && Distinct(es)
    ensures var us, j := RemoveAt(es, k), IndexOf(es, x);
            && Distinct(us)
            && IndexOf(us, x) == (if j == k then |us| else if j < k then j else j - 1)
  {
    var us, j := RemoveAt(es, k), IndexOf(es, x);
    assert forall i :: 0 <= i < k ==> us[i].id == es[i].id;
    assert forall i :: k <= i < |us| ==> us[i].id == es[i + 1].id;
    if j < |es| && j != k {
      IndexUnique(us, if j < k then j else j - 1);
    } else {
      var m := IndexOf(us, x);
      if m < k {} else if m < |us| {}
    }
  }

  /** Removing a timer keeps every other due time. */
  lemma RemoveKeeps<T(!new)>(q: Queue<T>, id: T)
    requires Sane(q.es)
    ensures var q' := Remove(q, id);
            && Sane(q'.es) && q'.now == q.now
            && (forall x: T :: Queued(q', x) <==> Queued(q, x) && x != id)
            && (forall x: T :: Queued(q', x) ==> Due(q', x) == Due(q, x))
  {
    if Queued(q, id) {
      var es, k, q' := q.es, IndexOf(q.es, id), Remove(q, id);
      RemoveSane(es, k);
      forall x: T ensures Queued(q', x) <==> Queued(q, x) && x != id {
        RemoveIds(es, k, x);
      }
      forall x: T | Queued(q, x) && x != id ensures Due(q', x) == Due(q, x) {
        RemoveDue(es, k, x);
      }
    }
  }

  lemma RemoveDue<T(!new)>(es: seq<Entry<T>>, k: nat, x: T)
    requires Sane(es) && k < |es| && IndexOf(es, x) < |es| && IndexOf(es, x) != k
    ensures var us := RemoveAt(es, k);
            IndexOf(us, x) < |us| && Deadline(Ticks(us), IndexOf(us, x)) == Deadline(Ticks(es), IndexOf(es, x))
  {
    RemoveIds(es, k, x);
    RemoveDeadline(es, k, IndexOf(es, x));
  }

  lemma RemoveDeadline<T>(es: seq<Entry<T>>, k: nat, j: nat)
    requires k < |es| && Fits(Ticks(es)) && j < |es| && j != k
    ensures Deadline(Ticks(RemoveAt(es, k)), if j < k then j else j - 1) == Deadline(Ticks(es), j)
  {
    RemoveTicks(es, k, j + 1);
  }

  /** The last deadline does not grow. */
  lemma RemoveTotal<T>(es: seq<Entry<T>>, k: nat)
    requires k < |es| && Fits(Ticks(es))
    ensures var us := RemoveAt(es, k); Prefix(Ticks(us), |us|) <= Prefix(Ticks(es), |es|)
  {
    if k + 1 < |es| {
      RemoveTicks(es, k, |es|);
    } else {
      RemoveTicks(es, k, k);
      PrefixMonotone(Ticks(es), k, |es|);
    }
  }

  lemma RemoveSane<T>(es: seq<Entry<T>>, k: nat)
    requires Sane(es) && k < |es|
    ensures Sane(RemoveAt(es, k))
  {
    RemoveIds(es, k, es[k].id);
    RemoveTotal(es, k);
  }

  lemma RemoveMultiples<T(!new)>(es: seq<Entry<T>>, k: nat)
    requires Healthy(es) && Fits(Ticks(es)) && k < |es|
    ensures var us := RemoveAt(es, k);
            forall i :: 0 <= i < |us| ==> GoodInterval(us[i].interval) && us[i].ticks % 80 == 0
  {
    if k + 1 < |es| {
      MergedDelta(Ticks(es), k);
      assert RemoveAt(es, k)[k].ticks % 80 == 0;
    }
  }

  lemma RemoveHealthy<T(!new)>(es: seq<Entry<T>>, k: nat)
    requires Healthy(es) && k < |es|
    ensures Sane(es) && Healthy(RemoveAt(es, k))
  {
    HealthyRoom(es, 0);
    RemoveSane(es, k);
    RemoveTotal(es, k);
    RemoveMultiples(es, k);
  }

  /** Changing the fields of an entry moves nothing. */
  lemma FieldsKeep<T(!new)>(q: Queue<T>, k: nat, e: Entry<T>)
    requires Sane(q.es) && k < |q.es| && e.id == q.es[k].id && e.ticks == q.es[k].ticks
    ensures var q' := q.(es := q.es[k := e]);
            && Sane(q'.es) && Ticks(q'.es) == Ticks(q.es)
            && (forall x: T :: Queued(q, x) <==> Queued(q', x))
            && (forall x: T :: Queued(q, x) ==> Due(q', x) == Due(q, x))
  {
    var q' := q.(es := q.es[k := e]);
    assert Ticks(q'.es) == Ticks(q.es);
    forall x: T ensures IndexOf(q'.es, x) == IndexOf(q.es, x) {
      SameIds(q.es, q'.es, x);
    }
  }

  lemma {:induction false} SameIds<T>(es: seq<Entry<T>>, us: seq<Entry<T>>, x: T)
    requires |es| == |us| && forall i :: 0 <= i < |es| ==> es[i].id == us[i].id
    ensures IndexOf(es, x) == IndexOf(us, x)
  {
    var j, k := IndexOf(es, x), IndexOf(us, x);
    if j < k {} else if k < j {}
  }

  // ----- runs

  datatype Event<T> =
    | InstallTimer(id: T, interval: u32, repeat: bool)
    | Interrupt
    | RemoveTimer(id: T)
    | ControlInterval(id: T, interval: u32)

  function Step<T(==)>(q: Queue<T>, ev: Event<T>): Queue<T> {
    match ev
    case InstallTimer(id, iv, repeat) => Install(q, id, iv, repeat)
    case Interrupt => Fire(q)
    case RemoveTimer(id) => Remove(q, id)
    case ControlInterval(id, iv) => SetInterval(q, id, iv)
  }

  function Run<T(==)>(q: Queue<T>, evs: seq<Event<T>>): Queue<T> {
    if evs == [] then q else Step(Run(q, evs[..|evs| - 1]), evs[|evs| - 1])
  }

  /** A newcomer has its room, and no deadline passes 32 bits. */
  ghost predicate Fitting(ts: seq<u32>, iv: u32) {
    RoomAfter(ts, iv) && Fits(Inserted(ts, iv))
  }

  /** What keeps an event harmless: whatever is inserted fits, and a queued timer is not
      re-installed with an interval shorter than its place in the list, which would link it
      twice. */
  ghost predicate Allowed<T>(q: Queue<T>, ev: Event<T>) {
    match ev
    case InstallTimer(id, iv, _) =>
      if Queued(q, id) then Prefix(Ticks(q.es), IndexOf(q.es, id)) <= iv else Fitting(Ticks(q.es), iv)
    case Interrupt => q.es != [] && q.es[0].repeat ==> Fitting(Ticks(q.es[1..]), q.es[0].interval)
    case _ => true
  }

  ghost predicate AllAllowed<T>(q: Queue<T>, evs: seq<Event<T>>) {
    forall i :: 0 <= i < |evs| ==> AllowedAt(q, evs, i)
  }

  /** What holds of each event of a run when its turn comes. */
  ghost predicate AllowedAt<T>(q: Queue<T>, evs: seq<Event<T>>, i: nat)
    requires i < |evs|
  {
    Allowed(Run(q, evs[..i]), evs[i])
  }

  /** Intervals on the grid of 80 ticks that leave every sum in 32 bits. */
  predicate OnGrid<T(==)>(q: Queue<T>, ev: Event<T>) {
    match ev
    case InstallTimer(id, iv, _) => GoodInterval(iv) && (Queued(q, id) ==> Prefix(Ticks(q.es), IndexOf(q.es, id)) <= iv)
    case ControlInterval(_, iv) => GoodInterval(iv)
    case _ => true
  }

  ghost predicate AllOnGrid<T>(q: Queue<T>, evs: seq<Event<T>>) {
    forall i :: 0 <= i < |evs| ==> OnGrid(Run(q, evs[..i]), evs[i])
  }

  /** The event neither fires nor removes the timer. */
  predicate Spares<T(==)>(q: Queue<T>, ev: Event<T>, id: T) {
    match ev
    case Interrupt => q.es == [] || q.es[0].id != id
    case RemoveTimer(x) => x != id
    case _ => true
  }

  lemma StepKeeps<T(!new)>(q: Queue<T>, ev: Event<T>, id: T)
    requires Sane(q.es) && Allowed(q, ev)
    ensures Sane(Step(q, ev).es)
    ensures Queued(q, id) && Spares(q, ev, id) ==> Queued(Step(q, ev), id) && Due(Step(q, ev), id) == Due(q, id)
  {
    match ev
    case InstallTimer(x, iv, repeat) =>
      if Queued(q, x) {
        var k := IndexOf(q.es, x);
        FieldsKeep(q, k, q.es[k].(interval := iv, repeat := repeat));
      } else {
        InsertKeeps(q, x, iv, repeat);
        InsertEntryTicks(q.es, x, iv, repeat);
      }
    case Interrupt =>
      if q.es != [] {
        FireSane(q);
        FireKeeps(q);
      }
    case RemoveTimer(x) =>
      RemoveKeeps(q, x);
    case ControlInterval(x, iv) =>
      if Queued(q, x) {
        var k := IndexOf(q.es, x);
        FieldsKeep(q, k, q.es[k].(interval := iv));
      }
  }

  lemma FireSane<T(!new)>(q: Queue<T>)
    requires Sane(q.es) && q.es != [] && Allowed(q, Interrupt)
    ensures RoomToRepeat(q.es) && Sane(Fire(q).es)
  {
    PopKeeps(q);
    var h := q.es[0];
    if h.repeat {
      InsertKeeps(Popped(q), h.id, h.interval, true);
      InsertEntryTicks(q.es[1..], h.id, h.interval, true);
    }
  }

  /** On the grid every event is harmless, and the queue stays on the grid. */
  lemma GridKeeps<T(!new)>(q: Queue<T>, ev: Event<T>)
    requires Healthy(q.es) && OnGrid(q, ev)
    ensures Sane(q.es) && Allowed(q, ev) && Healthy(Step(q, ev).es)
  {
    HealthyRoom(q.es, 0);
    match ev
    case InstallTimer(x, iv, repeat) =>
      if Queued(q, x) {
        FieldsHealthy(q.es, IndexOf(q.es, x), iv, repeat);
      } else {
        InsertFitting(q.es, x, iv, repeat);
        InsertHealthy(q, x, iv, repeat);
      }
    case Interrupt =>
      if q.es != [] {
        FireHealthy(q);
        PopHealthy(q.es);
        if q.es[0].repeat { InsertFitting(q.es[1..], q.es[0].id, q.es[0].interval, true); }
      }
    case RemoveTimer(x) =>
      if Queued(q, x) { RemoveHealthy(q.es, IndexOf(q.es, x)); }
    case ControlInterval(x, iv) =>
      if Queued(q, x) {
        var k := IndexOf(q.es, x);
        FieldsHealthy(q.es, k, iv, q.es[k].repeat);
      }
  }

  lemma InsertFitting<T(!new)>(es: seq<Entry<T>>, id: T, iv: u32, repeat: bool)
    requires Healthy(es) && GoodInterval(iv)
    ensures Fitting(Ticks(es), iv)
  {
    HealthyRoom(es, iv);
    InsertTotal(es, id, iv, repeat);
    InsertEntryTicks(es, id, iv, repeat);
  }

  lemma FieldsHealthy<T(!new)>(es: seq<Entry<T>>, k: nat, iv: u32, repeat: bool)
    requires Healthy(es) && k < |es| && GoodInterval(iv)
    ensures Healthy(es[k := es[k].(interval := iv, repeat := repeat)])
  {
    assert Ticks(es[k := es[k].(interval := iv, repeat := repeat)]) == Ticks(es);
  }

  ghost predicate SparedBy<T>(q: Queue<T>, evs: seq<Event<T>>, id: T) {
    forall i :: 0 <= i < |evs| ==> Spares(Run(q, evs[..i]), evs[i], id)
  }

  lemma OneFewerAllowed<T(!new)>(q: Queue<T>, front: seq<Event<T>>, evs: seq<Event<T>>, n: nat)
    requires n + 1 == |evs| && front == evs[..n] && AllAllowed(q, evs)
    ensures AllAllowed(q, front) && Allowed(Run(q, front), evs[n])
  {
    assert AllowedAt(q, evs, n);
    forall i | 0 <= i < n ensures AllowedAt(q, front, i) {
      assert AllowedAt(q, evs, i);
      Sequences.TakeTwice(evs, i, n);
    }
  }

  /** Over any run of harmless events every deadline stays representable, and a timer that is
      neither fired nor removed keeps its due time, whatever is installed, fired, removed or
      changed around it. */
  lemma {:induction false} RunKeeps<T(!new)>(q: Queue<T>, evs: seq<Event<T>>, id: T)
    requires Sane(q.es) && AllAllowed(q, evs)
    ensures Sane(Run(q, evs).es)
    ensures Queued(q, id) && SparedBy(q, evs, id) ==> Queued(Run(q, evs), id) && Due(Run(q, evs), id) == Due(q, id)
  {
    if evs != [] {
      var n := |evs| - 1;
      var front := evs[..n];
      OneFewerAllowed(q, front, evs, n);
      RunKeeps(q, front, id);
      StepKeeps(Run(q, front), evs[n], id);
      if SparedBy(q, evs, id) {
        forall i | 0 <= i < |front| ensures Spares(Run(q, front[..i]), front[i], id) {
          assert evs[..i] == front[..i];
        }
        assert Spares(Run(q, evs[..n]), evs[n], id);
      }
    }
  }

  /** Runs on the grid consist of harmless events only. */
  lemma {:induction false} GridRun<T(!new)>(q: Queue<T>, evs: seq<Event<T>>)
    requires Healthy(q.es) && AllOnGrid(q, evs)
    ensures AllAllowed(q, evs) && Healthy(Run(q, evs).es)
  {
    if evs != [] {
      var n := |evs| - 1;
      var front := evs[..n];
      forall i | 0 <= i < n ensures OnGrid(Run(q, front[..i]), front[i]) {
        assert evs[..i] == front[..i];
      }
      GridRun(q, front);
      assert OnGrid(Run(q, evs[..n]), evs[n]);
      GridKeeps(Run(q, front), evs[n]);
      OneMoreAllowed(q, front, evs, n);
    }
  }

  lemma OneMoreAllowed<T(!new)>(q: Queue<T>, front: seq<Event<T>>, evs: seq<Event<T>>, n: nat)
    requires n + 1 == |evs| && front == evs[..n] && AllAllowed(q, front) && AllowedAt(q, evs, n)
    ensures AllAllowed(q, evs)
  {
    forall i | 0 <= i < |evs| ensures AllowedAt(q, evs, i) {
      if i < n {
        assert AllowedAt(q, front, i);
        Sequences.TakeTwice(evs, i, n);
      }
    }
  }

  /** Whenever a timer that was installed and left alone since then is at the head, its
      interrupt comes at its interval after the last one before the installation, or 80 ticks
      later if that time was taken. */
  lemma FiresOnTime<T(!new)>(q: Queue<T>, id: T, iv: u32, repeat: bool, evs: seq<Event<T>>)
    requires Sane(q.es) && !Queued(q, id) && Fitting(Ticks(q.es), iv)
    requires AllAllowed(Install(q, id, iv, repeat), evs) && SparedBy(Install(q, id, iv, repeat), evs, id)
    ensures var l := Run(Install(q, id, iv, repeat), evs);
            l.es != [] && l.es[0].id == id ==>
              Fire(l).now == q.now + iv + (if Ties(Ticks(q.es), iv) then TICK else 0)
  {
    InsertKeeps(q, id, iv, repeat);
    InsertEntryTicks(q.es, id, iv, repeat);
    var q' := Install(q, id, iv, repeat);
    RunKeeps(q', evs, id);
    var l := Run(q', evs);
    if l.es != [] && l.es[0].id == id { PopKeeps(l); }
  }

  // ----- every timer gets its turn

  /** How far a deadline is ahead of time d, counting from one. */
  function Slack(d: nat, deadline: nat): nat {
    if deadline <= d then d - deadline + 1 else 0
  }

  /** The slack of the first k entries together. */
  function Load(ts: seq<u32>, k: nat, d: nat): nat
    requires k <= |ts|
  {
    if k == 0 then 0 else Load(ts, k - 1, d) + Slack(d, Deadline(ts, k - 1))
  }

  lemma {:induction false} LoadPopped(ts: seq<u32>, k: nat, d: nat)
    requires 0 < k <= |ts| && ts[0] <= d
    ensures Load(ts, k, d) == Slack(d, ts[0]) + Load(ts[1..], k - 1, d - ts[0])
  {
    PrefixTail(ts, k);
    if k > 1 { LoadPopped(ts, k - 1, d); }
  }

  /** An insertion adds the newcomer's slack to what is ahead of a later entry. */
  lemma {:induction false} LoadInserted(ts: seq<u32>, iv: u32, k: nat, d: nat)
    requires Fits(ts) && RoomAfter(ts, iv) && k <= |ts|
    ensures var p, us := Place(ts, iv, 0), Inserted(ts, iv);
            && Shifted(p, k) <= |us|
            && Load(us, Shifted(p, k), d) == Load(ts, k, d) + (if p <= k then Slack(d, Deadline(us, p)) else 0)
  {
    var p, us := Place(ts, iv, 0), Inserted(ts, iv);
    if k > 0 {
      LoadInserted(ts, iv, k - 1, d);
      OldDeadlines(ts, iv, k - 1);
      if k == p { LoadUnchanged(ts, iv, k, d); }
    }
  }

  lemma {:induction false} LoadUnchanged(ts: seq<u32>, iv: u32, k: nat, d: nat)
    requires Fits(ts) && k <= Place(ts, iv, 0)
    ensures Load(Inserted(ts, iv), k, d) == Load(ts, k, d)
  {
    if k > 0 {
      LoadUnchanged(ts, iv, k - 1, d);
      OldDeadlines(ts, iv, k - 1);
    }
  }

  /** What is ahead of a queued timer. */
  function Burden<T(==)>(q: Queue<T>, id: T): nat
    requires Queued(q, id)
  {
    var ts, k := Ticks(q.es), IndexOf(q.es, id);
    Load(ts, k, Deadline(ts, k))
  }

  /** Repeating timers have positive intervals. */
  ghost predicate Advancing<T>(es: seq<Entry<T>>) {
    forall i :: 0 <= i < |es| && es[i].repeat ==> es[i].interval > 0
  }

  /** Taking the head off takes its slack off what is ahead of a later entry. */
  lemma PoppedLoad(ts: seq<u32>, k: nat)
    requires 0 < k < |ts|
    ensures var d, us := Deadline(ts, k), ts[1..];
            Load(ts, k, d) == Load(us, k - 1, Deadline(us, k - 1)) + Deadline(us, k - 1) + 1
  {
    PrefixTail(ts, k + 1);
    LoadPopped(ts, k, Deadline(ts, k));
  }

  lemma PopNears<T(!new)>(q: Queue<T>, id: T)
    requires Sane(q.es) && Queued(q, id) && q.es[0].id != id
    ensures Sane(q.es[1..]) && Queued(Popped(q), id)
    ensures Burden(q, id) == Burden(Popped(q), id) + Deadline(Ticks(q.es[1..]), IndexOf(q.es[1..], id)) + 1
  {
    PopKeeps(q);
    assert Ticks(q.es[1..]) == Ticks(q.es)[1..];
    PoppedLoad(Ticks(q.es), IndexOf(q.es, id));
  }

  /** An interrupt of another timer leaves less ahead of this one, even if that one goes back
      in ahead of it. */
  lemma FireNears<T(!new)>(q: Queue<T>, id: T)
    requires Healthy(q.es) && Advancing(q.es) && Queued(q, id) && q.es[0].id != id
    ensures Queued(Fire(q), id) && Burden(Fire(q), id) < Burden(q, id)
  {
    FireHealthy(q);
    PopNears(q, id);
    if q.es[0].repeat {
      HeadGone(q.es);
      RepeatNears(Popped(q), q.es[0], id);
    }
  }

  lemma HeadGone<T>(es: seq<Entry<T>>)
    requires Distinct(es) && es != []
    ensures IndexOf(es[1..], es[0].id) == |es| - 1
  {
    var j := IndexOf(es[1..], es[0].id);
    if j < |es| - 1 {}
  }

  lemma RepeatNears<T(!new)>(q: Queue<T>, h: Entry<T>, id: T)
    requires Sane(q.es) && RoomAfter(Ticks(q.es), h.interval) && !Queued(q, h.id) && Queued(q, id) && h.interval > 0
    ensures var q' := q.(es := InsertEntry(q.es, h.id, h.interval, true));
            Queued(q', id) && Burden(q', id) <= Burden(q, id) + Deadline(Ticks(q.es), IndexOf(q.es, id))
  {
    var es, ts, iv, k := q.es, Ticks(q.es), h.interval, IndexOf(q.es, id);
    InsertIds(es, h.id, iv, true, id);
    InsertEntryTicks(es, h.id, iv, true);
    OldDeadlines(ts, iv, k);
    NewDeadline(ts, iv);
    LoadInserted(ts, iv, k, Deadline(ts, k));
  }

  lemma FireAdvancing<T>(q: Queue<T>)
    requires Advancing(q.es)
    ensures Advancing(Fire(q).es)
  {
  }

  function Interrupts<T>(n: nat): (evs: seq<Event<T>>)
    ensures |evs| == n && forall i :: 0 <= i < n ==> evs[i] == Interrupt
  {
    seq(n, _ => Interrupt)
  }

  lemma OneMoreInterrupt<T>(q: Queue<T>, n: nat)
    ensures Run(q, Interrupts(n + 1)) == Fire(Run(q, Interrupts(n)))
  {
    assert Interrupts<T>(n + 1)[..n] == Interrupts<T>(n);
  }

  /** The timer is not at the head before any of the first n interrupts. */
  ghost predicate NotYet<T>(q: Queue<T>, id: T, n: nat) {
    forall i: nat :: i < n ==> var l := Run(q, Interrupts(i)); l.es == [] || l.es[0].id != id
  }

  lemma {:induction false} HeadAfter<T(!new)>(q: Queue<T>, id: T, m: nat) returns (n: nat)
    requires var l := Run(q, Interrupts(m)); Healthy(l.es) && Advancing(l.es) && Queued(l, id)
    requires NotYet(q, id, m)
    ensures n >= m && NotYet(q, id, n)
    ensures var l := Run(q, Interrupts(n)); l.es != [] && l.es[0].id == id
    decreases Burden(Run(q, Interrupts(m)), id)
  {
    var l := Run(q, Interrupts(m));
    if l.es[0].id == id {
      n := m;
    } else {
      OneMoreInterrupt(q, m);
      FireNears(l, id);
      FireHealthy(l);
      FireAdvancing(l);
      n := HeadAfter(q, id, m + 1);
    }
  }

  lemma InterruptsSpare<T(!new)>(q: Queue<T>, id: T, n: nat)
    requires NotYet(q, id, n)
    ensures SparedBy(q, Interrupts(n), id)
  {
    var evs: seq<Event<T>> := Interrupts(n);
    forall i | 0 <= i < n ensures Spares(Run(q, evs[..i]), evs[i], id) {
      assert evs[..i] == Interrupts<T>(i);
    }
  }

  /** Left alone with enough interrupts, every queued timer comes to the head, and its own
      interrupt then comes exactly when it was due at the start. */
  lemma EveryTimerFires<T(!new)>(q: Queue<T>, id: T) returns (n: nat)
    requires Healthy(q.es) && Advancing(q.es) && Queued(q, id)
    ensures NotYet(q, id, n)
    ensures var l := Run(q, Interrupts(n)); l.es != [] && l.es[0].id == id && Fire(l).now == Due(q, id)
  {
    assert Interrupts<T>(0) == [];
    n := HeadAfter(q, id, 0);
    InterruptsSpare(q, id, n);
    HealthyRoom(q.es, 0);
    GridRun(q, Interrupts(n));
    RunKeeps(q, Interrupts(n), id);
    PopKeeps(Run(q, Interrupts(n)));
  }

  // ----- inputs on which insertion goes wrong

  /** Off the grid of 80 ticks: with deadlines at 64 and 80, a newcomer of 64 ticks ties, is
      shifted past the second entry, and makes that one 2^32 ticks late. An interval of
      53687092 microseconds is 64 ticks in 32 bits. */
  lemma LateWitness()
    ensures var ts: seq<u32> := [64, 16];
            && Fits(ts) && Ties(ts, 64) && !RoomAfter(ts, 64)
            && Deadline(ts, 1) == 80 && Deadline(Inserted(ts, 64), 2) == 80 + WORD
    ensures 53687092 * 80 % WORD == 64
  {
    var ts: seq<u32> := [64, 16];
    assert Prefix(ts, 0) == 0 && Prefix(ts, 1) == 64 && Prefix(ts, 2) == 80;
    assert Place(ts, 64, 0) == 1;
    OldDeadlines(ts, 64, 1);
  }
}
