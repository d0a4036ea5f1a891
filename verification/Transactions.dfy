/** The transaction table of the AssemblyScript application library: requests wait in a list for their
    responses, and one timer sweeps the list. */
module Transactions {
  import opened Words

  const TIMEOUT: int := 5000

  /** A wamr_transaction; the serial number stands for the object's identity. */
  datatype Transaction = Transaction(serial: nat, mid: int32, time: int32)

  /** What the module does to the outside: host calls, timer calls and callbacks, in order. */
  datatype Event =
    | Posted(mid: int32)
    | SetTimeout(ms: int)
    | Restart(ms: int)
    | Cancel
    | TimedOut(trans: Transaction)
    | Responded(trans: Transaction, mid: int32)

  datatype State = State(list: seq<Transaction>, mid: int32, created: nat, log: seq<Event>)

  /** One entry into the module.  A request whose packing throws never reaches the list.  The clock of a
      timer sweep is read anew at every call of timer.now(); clock(k) is its k-th reading. */
  datatype Op =
    | Send(now: int32, packs: bool)
    | Publish(packs: bool)
    | Response(mid: int32, now: int32)
    | Sweep(clock: nat -> int32)

  // ----- time -----

  /** `(now < time) ? (now + (0xFFFFFFFF - time) + 1) : (now - time)`, on numbers. */
  function Elapsed(now: int32, time: int32): int {
    if now < time then now + (0xFFFF_FFFF - time) + 1 else now - time
  }

  /** Elapsed time is the difference modulo 2^32, across the wrap of the tick counter. */
  lemma {:induction false} ElapsedIs(now: int32, time: int32)
    ensures Elapsed(now, time) == ToWord(now - time)
  {
  }

  /** is_expire, and not_expire as written: both keep the entries that have waited long enough. */
  function IsExpire(t: Transaction, now: int32): bool {
    Elapsed(now, t.time) >= TIMEOUT
  }

  function NotExpire(t: Transaction, now: int32): bool {
    Elapsed(now, t.time) >= TIMEOUT
  }

  // ----- list operations -----

  /** list.filter(is_expire), the k-th entry being tested at reading base + k. */
  function FilterExpired(list: seq<Transaction>, clock: nat -> int32, base: nat): (r: seq<Transaction>)
    ensures |r| <= |list|
  {
    if list == [] then []
    else
      var n := |list| - 1;
      FilterExpired(list[..n], clock, base) + if IsExpire(list[n], clock(base + n)) then [list[n]] else []
  }

  function FilterNotExpired(list: seq<Transaction>, clock: nat -> int32, base: nat): (r: seq<Transaction>)
    ensures |r| <= |list|
  {
    if list == [] then []
    else
      var n := |list| - 1;
      FilterNotExpired(list[..n], clock, base) + if NotExpire(list[n], clock(base + n)) then [list[n]] else []
  }

  /** Array.indexOf from position i on; -1 when there is none. */
  function IndexOf(list: seq<Transaction>, t: Transaction, i: nat): (k: int)
    requires i <= |list|
    ensures k == -1 || (i <= k < |list| && list[k] == t)
    ensures k == -1 ==> forall j :: i <= j < |list| ==> list[j] != t
    ensures k != -1 ==> forall j :: i <= j < k ==> list[j] != t
    decreases |list| - i
  {
    if i == |list| then -1 else if list[i] == t then i else IndexOf(list, t, i + 1)
  }

  /** Array.splice(start, 1): a negative start counts from the end. */
  function Splice(list: seq<Transaction>, start: int): seq<Transaction>
    requires -1 <= start < |list|
  {
    if start >= 0 then list[..start] + list[start + 1..]
    else if list == [] then []
    else list[..|list| - 1]
  }

  /** transaction_remove.  An entry that is not in the list makes splice remove the last one. */
  function Remove(list: seq<Transaction>, t: Transaction): seq<Transaction> {
    Splice(list, IndexOf(list, t, 0))
  }

  function RemoveAll(list: seq<Transaction>, items: seq<Transaction>): seq<Transaction> {
    if items == [] then list else RemoveAll(Remove(list, items[0]), items[1..])
  }

  function Nulls(items: seq<Transaction>): seq<Event> {
    seq(|items|, i requires 0 <= i < |items| => TimedOut(items[i]))
  }

  /** transaction_find: the first entry with this mid. */
  function FindMid(list: seq<Transaction>, mid: int32, i: nat): (k: nat)
    requires i <= |list|
    ensures i <= k <= |list| && (k < |list| ==> list[k].mid == mid)
    ensures forall j :: i <= j < k ==> list[j].mid != mid
    decreases |list| - i
  {
    if i == |list| || list[i].mid == mid then i else FindMid(list, mid, i + 1)
  }

  // ----- the steps -----

  function NextMid(mid: int32): int32 {
    Signed(ToWord(mid + 1))
  }

  /** do_request under post, get, put and del. */
  function SendStep(st: State, now: int32, packs: bool): State {
    if !packs then st.(mid := NextMid(st.mid))
    else
      var t := Transaction(st.created, st.mid, now);
      State(st.list + [t], NextMid(st.mid), st.created + 1,
            st.log + (if st.list == [] then [SetTimeout(TIMEOUT)] else []) + [Posted(st.mid)])
  }

  /** on_response. */
  function ResponseStep(st: State, mid: int32, now: int32): State {
    var k := FindMid(st.list, mid, 0);
    if k == |st.list| then st
    else
      var timer :=
        if IndexOf(st.list, st.list[k], 0) != 0 then []
        else if |st.list| >= 2 then [Restart(TIMEOUT - Elapsed(now, st.list[1].time))]
        else [Cancel];
      st.(log := st.log + timer + [Responded(st.list[k], mid)])
  }

  /** transaction_timeout_handler: reading 0 is not used. */
  function SweepStep(st: State, clock: nat -> int32): State {
    var n := |st.list|;
    var expired := FilterExpired(st.list, clock, 1);
    var rest := RemoveAll(FilterNotExpired(st.list, clock, 1 + n), expired);
    var timer := if rest == [] then Cancel else Restart(TIMEOUT - Elapsed(clock(1 + 2 * n), rest[0].time));
    st.(list := rest, log := st.log + Nulls(expired) + [timer])
  }

  function Step(st: State, op: Op): State {
    match op
    case Send(now, packs) => SendStep(st, now, packs)
    case Publish(packs) =>
      st.(mid := NextMid(st.mid), log := st.log + if packs then [Posted(st.mid)] else [])
    case Response(mid, now) => ResponseStep(st, mid, now)
    case Sweep(clock) => SweepStep(st, clock)
  }

  // ----- the module's variables -----

  class Client {
    var list: seq<Transaction>
    var mid: int32
    var created: nat
    var log: seq<Event>

    function Value(): State
      reads this
    {
      State(list, mid, created, log)
    }

    constructor ()
      ensures Value() == State([], 0, 0, [])
    {
      list, mid, created, log := [], 0, 0, [];
    }

    /** transaction_add. */
    method Add(t: Transaction)
      modifies this
      ensures list == old(list) + [t] && mid == old(mid) && created == old(created)
      ensures log == old(log) + if old(list) == [] then [SetTimeout(TIMEOUT)] else []
    {
      list := list + [t];
      if |list| == 1 {
        log := log + [SetTimeout(TIMEOUT)];
      }
    }

    /** post, get, put and del. */
    method DoRequest(now: int32, packs: bool)
      modifies this
      ensures Value() == SendStep(old(Value()), now, packs)
      ensures list == old(list) + if packs then [Transaction(old(created), old(mid), now)] else []
      ensures mid == if old(mid) == 0x7FFF_FFFF then -0x8000_0000 else old(mid) + 1
    {
      var m := mid;
      mid := NextMid(mid);
      if !packs {
        return;
      }
      var t := Transaction(created, m, now);
      created := created + 1;
      Add(t);
      log := log + [Posted(m)];
    }

    /** publish_event. */
    method PublishEvent(packs: bool)
      modifies this
      ensures Value() == Step(old(Value()), Publish(packs))
      ensures list == old(list) && created == old(created)
      ensures mid == if old(mid) == 0x7FFF_FFFF then -0x8000_0000 else old(mid) + 1
      ensures log == old(log) + if packs then [Posted(old(mid))] else []
    {
      var m := mid;
      mid := NextMid(mid);
      if packs {
        log := log + [Posted(m)];
      }
    }

    /** transaction_find. */
    method Find(m: int32) returns (k: nat)
      ensures k == FindMid(list, m, 0)
    {
      k := 0;
      while k < |list|
        invariant k <= |list| && FindMid(list, m, k) == FindMid(list, m, 0)
      {
        if list[k].mid == m {
          return;
        }
        k := k + 1;
      }
    }

    /** on_response, after unpacking. */
    method OnResponse(m: int32, now: int32)
      modifies this
      ensures Value() == ResponseStep(old(Value()), m, now)
    {
      var k := Find(m);
      if k < |list| {
        var t := list[k];
        if IndexOf(list, t, 0) == 0 {
          if |list| >= 2 {
            log := log + [Restart(TIMEOUT - Elapsed(now, list[1].time))];
          } else {
            log := log + [Cancel];
          }
        }
        log := log + [Responded(t, m)];
      }
    }

    /** transaction_timeout_handler with callbacks that do not come back into the module. */
    method OnTimeout(clock: nat -> int32)
      modifies this
      ensures Value() == SweepStep(old(Value()), clock)
    {
      hide FilterExpired, FilterNotExpired, Remove, Elapsed;
      var n := |list|;
      var expired := FilterExpired(list, clock, 1);
      list := FilterNotExpired(list, clock, 1 + n);
      ghost var kept := list;
      var i := 0;
      while i < |expired|
        invariant 0 <= i <= |expired| && mid == old(mid) && created == old(created)
        invariant log == old(log) + Nulls(expired)[..i]
        invariant RemoveAll(list, expired[i..]) == RemoveAll(kept, expired)
      {
        log := log + [TimedOut(expired[i])];
        list := Remove(list, expired[i]);
        assert expired[i..][1..] == expired[i + 1..];
        assert Nulls(expired)[..i + 1] == Nulls(expired)[..i] + [TimedOut(expired[i])];
        i := i + 1;
      }
      assert Nulls(expired)[..i] == Nulls(expired);
      if |list| > 0 {
        log := log + [Restart(TIMEOUT - Elapsed(clock(1 + 2 * n), list[0].time))];
      } else {
        log := log + [Cancel];
      }
    }
  }

  // ----- what exactly a step does -----

  /** Every entry into the module but a sweep: only a request that packs adds a transaction, under the mid
      and at the time it was sent; an event, a response and a request that does not pack add none.  Mids
      are used up by requests and events, packed or not. */
  lemma {:induction false} StepExact(st: State, op: Op)
    requires !op.Sweep?
    ensures var st' := Step(st, op); var joins := op.Send? && op.packs;
      && st'.list == st.list + (if joins then [Transaction(st.created, st.mid, op.now)] else [])
      && st'.created == st.created + (if joins then 1 else 0)
      && st'.mid == (if op.Response? then st.mid else if st.mid == 0x7FFF_FFFF then -0x8000_0000 else st.mid + 1)
    ensures !op.Response? ==>
      Step(st, op).log == st.log + (if op.Send? && op.packs && st.list == [] then [SetTimeout(5000)] else [])
        + (if op.packs then [Posted(st.mid)] else [])
  {
    hide Elapsed, IndexOf, FindMid;
    assert st.list + [] == st.list && st.log + [] == st.log;
    match op
    case Send(now, packs) =>
    case Publish(packs) =>
    case Response(mid, now) =>
  }

  /** A sweep touches nothing but the list and the timer, which it sets to what is left of the first
      remaining entry's 5000 milliseconds, at one more reading of the clock. */
  lemma {:induction false} SweepTimer(st: State, clock: nat -> int32)
    ensures var st' := SweepStep(st, clock);
      && st'.mid == st.mid && st'.created == st.created && |st'.log| > 0
      && st'.log[|st'.log| - 1] == if st'.list == [] then Cancel
        else Restart(5000 - ToWord(clock(1 + 2 * |st.list|) - st'.list[0].time))
  {
    hide FilterExpired, FilterNotExpired, RemoveAll, Elapsed;
    var rest := SweepStep(st, clock).list;
    if rest != [] {
      ElapsedIs(clock(1 + 2 * |st.list|), rest[0].time);
    }
  }

  /** An entry is expired once (now - time) mod 2^32 has reached 5000 milliseconds. */
  lemma {:induction false} ExpireIs(t: Transaction, now: int32)
    ensures IsExpire(t, now) <==> ToWord(now - t.time) >= 5000
    ensures NotExpire(t, now) <==> ToWord(now - t.time) >= 5000
  {
    hide Elapsed;
    ElapsedIs(now, t.time);
  }

  // ----- what every step keeps -----

  ghost predicate Increasing(list: seq<Transaction>) {
    forall i, j :: 0 <= i < j < |list| ==> list[i].mid < list[j].mid
  }

  ghost predicate Below(list: seq<Transaction>, mid: int) {
    forall i :: 0 <= i < |list| ==> list[i].mid < mid
  }

  /** Until g_mid wraps: mids increase along the list and lie below the next one to be given out. */
  ghost predicate Ordered(st: State) {
    Increasing(st.list) && Below(st.list, st.mid) && st.mid >= 0
  }

  lemma {:induction false} FilterOrdered(list: seq<Transaction>, clock: nat -> int32, base: nat, mid: int)
    requires Increasing(list) && Below(list, mid)
    ensures var r := FilterNotExpired(list, clock, base); Increasing(r) && Below(r, mid)
    ensures list != [] ==> Below(FilterNotExpired(list, clock, base), list[|list| - 1].mid + 1)
  {
    hide Increasing, Below, NotExpire;
    if list == [] {
      NoneOrdered(mid);
    } else {
      var n := |list| - 1;
      InitOrdered(list, mid);
      FilterOrdered(list[..n], clock, base, list[n].mid);
      var r := FilterNotExpired(list[..n], clock, base);
      AppendOrdered(r, list[n], mid);
      assert r + [] == r;
    }
  }

  lemma {:induction false} NoneOrdered(mid: int)
    ensures Increasing([]) && Below([], mid)
  {
  }

  lemma {:induction false} InitOrdered(list: seq<Transaction>, mid: int)
    requires list != [] && Increasing(list) && Below(list, mid)
    ensures var n := |list| - 1; Increasing(list[..n]) && Below(list[..n], list[n].mid) && list[n].mid < mid
  {
  }

  lemma {:induction false} AppendOrdered(list: seq<Transaction>, t: Transaction, mid: int)
    requires Increasing(list) && Below(list, t.mid) && t.mid < mid
    ensures Increasing(list + [t]) && Below(list + [t], t.mid + 1) && Below(list + [t], mid)
    ensures Below(list, t.mid + 1) && Below(list, mid)
  {
  }

  lemma {:induction false} RemoveOrdered(list: seq<Transaction>, t: Transaction, mid: int)
    requires Increasing(list) && Below(list, mid)
    ensures Increasing(Remove(list, t)) && Below(Remove(list, t), mid)
  {
    hide Remove;
    if list == [] {
      RemoveNone(t);
    } else {
      var k := RemoveShape(list, t);
    }
  }

  lemma {:induction false} RemoveNone(t: Transaction)
    ensures Remove([], t) == []
  {
  }

  /** Which entry goes: the one asked for, or else the last. */
  lemma {:induction false} RemoveShape(list: seq<Transaction>, t: Transaction) returns (k: nat)
    requires list != []
    ensures k < |list| && Remove(list, t) == list[..k] + list[k + 1..]
    ensures t in list ==> list[k] == t
  {
    hide IndexOf, Splice;
    var i := IndexOf(list, t, 0);
    k := if i >= 0 then i else |list| - 1;
    SpliceShape(list, i);
  }

  lemma {:induction false} SpliceShape(list: seq<Transaction>, i: int)
    requires list != [] && -1 <= i < |list|
    ensures var k := if i >= 0 then i else |list| - 1; Splice(list, i) == list[..k] + list[k + 1..]
  {
    if i < 0 {
      var init := list[..|list| - 1];
      assert list[|list|..] == [];
      assert init + [] == init;
    }
  }

  lemma {:induction false} RemoveAllOrdered(list: seq<Transaction>, items: seq<Transaction>, mid: int)
    requires Increasing(list) && Below(list, mid)
    ensures Increasing(RemoveAll(list, items)) && Below(RemoveAll(list, items), mid)
    decreases |items|
  {
    hide Increasing, Below, Remove;
    if items != [] {
      RemoveOrdered(list, items[0], mid);
      RemoveAllOrdered(Remove(list, items[0]), items[1..], mid);
    }
  }

  /** Whatever the clock does, a step keeps the order as long as the counter does not wrap. */
  lemma {:induction false} StepOrdered(st: State, op: Op)
    requires Ordered(st) && st.mid < 0x7FFF_FFFF
    ensures Ordered(Step(st, op)) && st.mid <= Step(st, op).mid <= st.mid + 1
  {
    match op
    case Send(now, packs) =>
    case Publish(packs) =>
    case Response(mid, now) =>
    case Sweep(clock) =>
      SweepOrdered(st, clock);
  }

  lemma {:induction false} SweepOrdered(st: State, clock: nat -> int32)
    requires Ordered(st)
    ensures Ordered(SweepStep(st, clock))
  {
    hide Increasing, Below;
    var n := |st.list|;
    var kept := FilterNotExpired(st.list, clock, 1 + n);
    FilterOrdered(st.list, clock, 1 + n, st.mid);
    RemoveAllOrdered(kept, FilterExpired(st.list, clock, 1), st.mid);
  }

  function Run(st: State, ops: seq<Op>): State {
    if ops == [] then st else Step(Run(st, ops[..|ops| - 1]), ops[|ops| - 1])
  }

  const START: State := State([], 0, 0, [])

  /** Over every run from the start with fewer than 2^31 entries, mids strictly increase along the
      list. */
  lemma {:induction false} RunOrdered(ops: seq<Op>)
    requires |ops| < 0x7FFF_FFFF
    ensures Ordered(Run(START, ops)) && Run(START, ops).mid <= |ops|
  {
    hide Ordered, Step;
    if ops == [] {
      StartOrdered();
    } else {
      var n := |ops| - 1;
      RunOrdered(ops[..n]);
      StepOrdered(Run(START, ops[..n]), ops[n]);
    }
  }

  lemma {:induction false} StartOrdered()
    ensures Ordered(START) && START.mid == 0
  {
  }

  /** A response reaches the one transaction with its mid and nothing else, and leaves it in the list;
      without such a transaction nothing happens. */
  lemma {:induction false} ResponseReachesOne(st: State, mid: int32, now: int32, k: nat)
    requires Ordered(st) && k < |st.list|
    ensures ResponseStep(st, mid, now).list == st.list
    ensures st.list[k].mid == mid ==>
      ResponseStep(st, mid, now).log == st.log
        + (if k > 0 then []
           else if |st.list| >= 2 then [Restart(5000 - ToWord(now - st.list[1].time))]
           else [Cancel])
        + [Responded(st.list[k], mid)]
    ensures (forall j :: 0 <= j < |st.list| ==> st.list[j].mid != mid) ==> ResponseStep(st, mid, now) == st
  {
    var i := FindMid(st.list, mid, 0);
    if st.list[k].mid == mid {
      assert i == k;
      assert IndexOf(st.list, st.list[k], 0) == k;
      if |st.list| >= 2 {
        ElapsedIs(now, st.list[1].time);
      }
    }
  }

  // ----- what a sweep does -----

  /** Both filters are the same function. */
  lemma {:induction false} FiltersAgree(list: seq<Transaction>, clock: nat -> int32, base: nat)
    ensures FilterNotExpired(list, clock, base) == FilterExpired(list, clock, base)
  {
    if list != [] {
      FiltersAgree(list[..|list| - 1], clock, base);
    }
  }

  /** The entries of list that are not among items, in order. */
  function Minus(list: seq<Transaction>, items: set<Transaction>): seq<Transaction> {
    if list == [] then []
    else
      var n := |list| - 1;
      Minus(list[..n], items) + if list[n] in items then [] else [list[n]]
  }

  lemma {:induction false} MinusMember(list: seq<Transaction>, items: set<Transaction>, t: Transaction)
    ensures t in Minus(list, items) <==> t in list && t !in items
  {
    if list != [] {
      var n := |list| - 1;
      MinusMember(list[..n], items, t);
      assert list == list[..n] + [list[n]];
    }
  }

  lemma {:induction false} MinusConcat(a: seq<Transaction>, b: seq<Transaction>, items: set<Transaction>)
    ensures Minus(a + b, items) == Minus(a, items) + Minus(b, items)
  {
    if b == [] {
      assert a + b == a;
    } else {
      var n := |b| - 1;
      MinusConcat(a, b[..n], items);
      assert (a + b)[..|a + b| - 1] == a + b[..n];
    }
  }

  lemma {:induction false} MinusNone(list: seq<Transaction>, items: set<Transaction>)
    requires forall i :: 0 <= i < |list| ==> list[i] !in items
    ensures Minus(list, items) == list
  {
    if list != [] {
      var n := |list| - 1;
      MinusNone(list[..n], items);
      assert list == list[..n] + [list[n]];
    }
  }

  lemma {:induction false} MinusTwice(list: seq<Transaction>, a: set<Transaction>, b: set<Transaction>)
    ensures Minus(Minus(list, a), b) == Minus(list, a + b)
  {
    if list != [] {
      var n := |list| - 1;
      MinusTwice(list[..n], a, b);
      var m := Minus(list[..n], a);
      if list[n] in a {
        assert m + [] == m;
        assert Minus(list[..n], a + b) + [] == Minus(list[..n], a + b);
      } else {
        MinusConcat(m, [list[n]], b);
        MinusOne(list[n], b);
      }
    }
  }

  lemma {:induction false} MinusOne(t: Transaction, items: set<Transaction>)
    ensures Minus([t], items) == if t in items then [] else [t]
  {
    assert [t][..0] == [];
    assert Minus([], items) == [];
  }

  ghost predicate Distinct(list: seq<Transaction>) {
    forall i, j :: 0 <= i < j < |list| ==> list[i] != list[j]
  }

  /** Removing an entry that is there takes out just that entry. */
  lemma {:induction false} RemoveIsMinus(list: seq<Transaction>, k: nat)
    requires Distinct(list) && k < |list|
    ensures Remove(list, list[k]) == Minus(list, {list[k]}) && Distinct(Remove(list, list[k]))
  {
    hide Minus;
    var t, a, b := list[k], list[..k], list[k + 1..];
    assert IndexOf(list, t, 0) == k;
    assert list == a + ([t] + b);
    MinusConcat(a, [t] + b, {t});
    MinusConcat([t], b, {t});
    MinusOne(t, {t});
    MinusNone(a, {t});
    MinusNone(b, {t});
  }

  /** transaction_remove takes out its argument and nothing else exactly when the argument is there or
      the list is empty; otherwise it takes out the last entry. */
  lemma {:induction false} RemoveExactIff(list: seq<Transaction>, t: Transaction)
    requires Distinct(list)
    ensures Remove(list, t) == Minus(list, {t}) <==> list == [] || t in list
    ensures list != [] && t !in list ==> Remove(list, t) == list[..|list| - 1]
  {
    hide Minus, Remove;
    if t in list {
      var k :| 0 <= k < |list| && list[k] == t;
      RemoveIsMinus(list, k);
    } else {
      MinusNone(list, {t});
      if list == [] {
        RemoveNone(t);
      } else {
        RemoveLast(list, t);
      }
    }
  }

  lemma {:induction false} RemoveLast(list: seq<Transaction>, t: Transaction)
    requires list != [] && t !in list
    ensures Remove(list, t) == list[..|list| - 1]
  {
    hide IndexOf;
  }

  function Elements(items: seq<Transaction>): set<Transaction> {
    set i | 0 <= i < |items| :: items[i]
  }

  /** How many of a entries are left after b removals, each of which takes one as long as there is one. */
  function Left(a: nat, b: nat): nat {
    if a > b then a - b else 0
  }

  /** What any run of removals leaves: the entries that were not asked for, less as many from the end as
      requests did not find their entry. */
  lemma {:induction false} RemoveAllIs(list: seq<Transaction>, items: seq<Transaction>)
    requires Distinct(list)
    ensures var m := Minus(list, Elements(items)); var n := Left(|list|, |items|);
      n <= |m| && RemoveAll(list, items) == m[..n]
    decreases |items|, 0
  {
    hide Minus, Remove, Elements;
    if items == [] {
      NoElements();
      MinusNone(list, Elements(items));
    } else {
      var x, rest := items[0], items[1..];
      ElementsSplit(items);
      MinusTwice(list, {x}, Elements(rest));
      RemoveLength(list, x);
      RemoveExactIff(list, x);
      if x in list {
        RemoveGone(list, x);
        RemoveAllIs(Remove(list, x), rest);
      } else {
        MinusNone(list, {x});
        RemoveAbsent(list, x, rest);
      }
    }
  }

  lemma {:induction false} NoElements()
    ensures Elements([]) == {}
  {
  }

  lemma {:induction false} RemoveLength(list: seq<Transaction>, t: Transaction)
    ensures |Remove(list, t)| == Left(|list|, 1)
  {
  }

  lemma {:induction false} RemoveAbsent(list: seq<Transaction>, x: Transaction, rest: seq<Transaction>)
    requires Distinct(list) && x !in list
    ensures var m := Minus(list, Elements(rest)); var n := Left(|list|, |rest| + 1);
      n <= |m| && RemoveAll(Remove(list, x), rest) == m[..n]
    decreases |rest|, 1
  {
    hide Remove, Elements;
    RemoveExactIff(list, x);
    RemoveLength(list, x);
    if list == [] {
      RemoveAllIs(Remove(list, x), rest);
    } else {
      var init := list[..|list| - 1];
      RemoveAllIs(init, rest);
      assert Minus(init, Elements(rest)) <= Minus(list, Elements(rest));
    }
  }

  lemma {:induction false} ElementsSplit(items: seq<Transaction>)
    requires items != []
    ensures Elements(items) == {items[0]} + Elements(items[1..])
  {
    var rest := items[1..];
    forall t | t in Elements(items)
      ensures t in {items[0]} + Elements(rest)
    {
      var i :| 0 <= i < |items| && items[i] == t;
      if i > 0 {
        assert rest[i - 1] == t;
      }
    }
    forall t | t in Elements(rest)
      ensures t in Elements(items)
    {
      var i :| 0 <= i < |rest| && rest[i] == t;
      assert items[i + 1] == t;
    }
  }

  /** Every entry that the first filter finds expired is still expired for the second. */
  ghost predicate StaysExpired(list: seq<Transaction>, clock: nat -> int32) {
    forall k :: 0 <= k < |list| && IsExpire(list[k], clock(1 + k)) ==> IsExpire(list[k], clock(1 + |list| + k))
  }

  /** No entry expires between its two readings. */
  ghost predicate NoneExpires(list: seq<Transaction>, clock: nat -> int32) {
    forall k :: 0 <= k < |list| && IsExpire(list[k], clock(1 + |list| + k)) ==> IsExpire(list[k], clock(1 + k))
  }

  lemma {:induction false} FilterMember(list: seq<Transaction>, clock: nat -> int32, base: nat, k: nat)
    requires Distinct(list) && k < |list|
    ensures list[k] in FilterExpired(list, clock, base) <==> IsExpire(list[k], clock(base + k))
  {
    hide IsExpire;
    var n := |list| - 1;
    FilterFrom(list[..n], clock, base);
    if k < n {
      FilterMember(list[..n], clock, base, k);
    }
  }

  lemma {:induction false} FilterFrom(list: seq<Transaction>, clock: nat -> int32, base: nat)
    ensures forall i :: 0 <= i < |FilterExpired(list, clock, base)| ==> FilterExpired(list, clock, base)[i] in list
  {
    hide IsExpire;
    if list != [] {
      FilterFrom(list[..|list| - 1], clock, base);
    }
  }

  lemma {:induction false} FilterDistinct(list: seq<Transaction>, clock: nat -> int32, base: nat)
    requires Distinct(list)
    ensures Distinct(FilterExpired(list, clock, base))
  {
    hide IsExpire;
    if list != [] {
      var n := |list| - 1;
      FilterDistinct(list[..n], clock, base);
      FilterFrom(list[..n], clock, base);
      var f := FilterExpired(list[..n], clock, base);
      forall i | 0 <= i < |f|
        ensures f[i] != list[n]
      {
        var j :| 0 <= j < n && list[j] == f[i];
      }
    }
  }

  lemma {:induction false} OrderedDistinct(st: State)
    requires Ordered(st)
    ensures Distinct(st.list)
  {
    forall i, j | 0 <= i < j < |st.list|
      ensures st.list[i] != st.list[j]
    {
      assert st.list[i].mid < st.list[j].mid;
    }
  }

  /** Which entries a filter keeps: those expired at their own reading. */
  ghost predicate Keeps(list: seq<Transaction>, clock: nat -> int32, base: nat, r: seq<Transaction>) {
    forall k :: 0 <= k < |list| ==> (list[k] in r <==> IsExpire(list[k], clock(base + k)))
  }

  lemma {:induction false} FilterKeeps(list: seq<Transaction>, clock: nat -> int32, base: nat)
    requires Distinct(list)
    ensures Keeps(list, clock, base, FilterExpired(list, clock, base))
  {
    forall k | 0 <= k < |list|
      ensures list[k] in FilterExpired(list, clock, base) <==> IsExpire(list[k], clock(base + k))
    {
      FilterMember(list, clock, base, k);
    }
  }

  /** x stands somewhere before y in list. */
  ghost predicate Precedes(list: seq<Transaction>, x: Transaction, y: Transaction) {
    exists a, b :: 0 <= a < b < |list| && list[a] == x && list[b] == y
  }

  /** Entries of r come from list, one after the other. */
  ghost predicate InOrder(list: seq<Transaction>, r: seq<Transaction>) {
    forall i, j :: 0 <= i < j < |r| ==> Precedes(list, r[i], r[j])
  }

  lemma {:induction false} PrecedesMore(list: seq<Transaction>, more: seq<Transaction>, x: Transaction, y: Transaction)
    requires Precedes(list, x, y)
    ensures Precedes(list + more, x, y)
  {
    var a, b :| 0 <= a < b < |list| && list[a] == x && list[b] == y;
    assert (list + more)[a] == x && (list + more)[b] == y;
  }

  lemma {:induction false} PrecedesLast(list: seq<Transaction>, x: Transaction, y: Transaction)
    requires x in list
    ensures Precedes(list + [y], x, y)
  {
    var a :| 0 <= a < |list| && list[a] == x;
    assert (list + [y])[a] == x && (list + [y])[|list|] == y;
  }

  lemma {:induction false} FilterInOrder(list: seq<Transaction>, clock: nat -> int32, base: nat)
    ensures InOrder(list, FilterExpired(list, clock, base))
  {
    hide IsExpire, Precedes;
    if list != [] {
      var n := |list| - 1;
      var front, init, r := list[..n], FilterExpired(list[..n], clock, base), FilterExpired(list, clock, base);
      assert list == front + [list[n]];
      FilterInOrder(front, clock, base);
      FilterFrom(front, clock, base);
      forall i, j | 0 <= i < j < |r|
        ensures Precedes(list, r[i], r[j])
      {
        if j < |init| {
          PrecedesMore(front, [list[n]], init[i], init[j]);
        } else {
          PrecedesLast(front, init[i], list[n]);
        }
      }
    }
  }

  /** A sweep calls back, with null and in list order, exactly the entries expired at their first
      reading, each once. */
  lemma {:induction false} SweepCallbacks(st: State, clock: nat -> int32)
    requires Distinct(st.list)
    ensures var expired := FilterExpired(st.list, clock, 1); var st' := SweepStep(st, clock);
      && Distinct(expired) && Keeps(st.list, clock, 1, expired) && InOrder(st.list, expired)
      && |st'.log| == |st.log| + |expired| + 1 && st.log <= st'.log
      && forall i :: 0 <= i < |expired| ==> st'.log[|st.log| + i] == TimedOut(expired[i])
  {
    hide Keeps, Distinct, InOrder, FilterExpired, FilterNotExpired, RemoveAll;
    FilterInOrder(st.list, clock, 1);
    FilterDistinct(st.list, clock, 1);
    FilterKeeps(st.list, clock, 1);
  }

  /** The entries that expired between their two readings. */
  function Between(list: seq<Transaction>, clock: nat -> int32): seq<Transaction> {
    Minus(FilterExpired(list, clock, 1 + |list|), Elements(FilterExpired(list, clock, 1)))
  }

  lemma {:induction false} BetweenMember(list: seq<Transaction>, clock: nat -> int32, k: nat)
    requires Distinct(list) && k < |list|
    ensures list[k] in Between(list, clock) <==>
      !IsExpire(list[k], clock(1 + k)) && IsExpire(list[k], clock(1 + |list| + k))
  {
    hide Distinct, FilterExpired, Minus, IsExpire;
    var expired, again := FilterExpired(list, clock, 1), FilterExpired(list, clock, 1 + |list|);
    FilterMember(list, clock, 1, k);
    FilterMember(list, clock, 1 + |list|, k);
    MinusMember(again, Elements(expired), list[k]);
    assert list[k] in Elements(expired) <==> list[k] in expired;
  }

  /** What stays in the list, under any clock: the entries that expired between their two readings,
      less as many from the end as callbacks did not find their entry in the filtered list. */
  lemma {:induction false} SweepSurvivors(st: State, clock: nat -> int32)
    requires Distinct(st.list)
    ensures var m := Between(st.list, clock);
      var n := Left(|FilterExpired(st.list, clock, 1 + |st.list|)|, |FilterExpired(st.list, clock, 1)|);
      n <= |m| && SweepStep(st, clock).list == m[..n]
  {
    hide Distinct, FilterExpired, FilterNotExpired, RemoveAll, Minus, Elements;
    var n := |st.list|;
    FiltersAgree(st.list, clock, 1 + n);
    FilterDistinct(st.list, clock, 1 + n);
    RemoveAllIs(FilterExpired(st.list, clock, 1 + n), FilterExpired(st.list, clock, 1));
  }

  lemma {:induction false} ElementsSize(list: seq<Transaction>)
    requires Distinct(list)
    ensures |Elements(list)| == |list|
  {
    hide Elements;
    if list == [] {
      NoElements();
    } else {
      ElementsSplit(list);
      ElementsSize(list[1..]);
      ElementsMember(list[1..], list[0]);
    }
  }

  lemma {:induction false} ElementsMember(list: seq<Transaction>, t: Transaction)
    ensures t in Elements(list) <==> t in list
  {
  }

  /** Taking entries out keeps the others different. */
  lemma {:induction false} MinusDistinct(list: seq<Transaction>, items: set<Transaction>)
    requires Distinct(list)
    ensures Distinct(Minus(list, items))
  {
    if list != [] {
      var n := |list| - 1;
      MinusDistinct(list[..n], items);
      MinusMember(list[..n], items, list[n]);
    }
  }

  lemma {:induction false} MinusSize(list: seq<Transaction>, items: set<Transaction>)
    requires Distinct(list)
    ensures |Minus(list, items)| == |Elements(list) - items|
  {
    hide Minus, Elements;
    var m := Minus(list, items);
    MinusDistinct(list, items);
    ElementsSize(m);
    forall t
      ensures t in Elements(m) <==> t in Elements(list) - items
    {
      MinusMember(list, items, t);
      ElementsMember(m, t);
      ElementsMember(list, t);
    }
    assert Elements(m) == Elements(list) - items;
  }

  /** |a - x| is the difference of the sizes, or zero, exactly when one set holds the other. */
  lemma {:induction false} DifferenceSize(a: set<Transaction>, x: set<Transaction>)
    ensures |a - x| == Left(|a|, |x|) <==> x <= a || a <= x
  {
    assert |a - x| + |a * x| == |a| by {
      assert a == (a - x) + (a * x);
    }
    if x <= a {
      assert a * x == x;
    } else {
      var t :| t in x && t !in a;
      SmallerSet(a * x, x, t);
    }
    if a <= x {
      assert a * x == a;
    } else {
      var t :| t in a && t !in x;
      assert t in a - x;
    }
    if a <= x {
      SubsetSize(a, x);
    }
  }

  lemma {:induction false} SubsetSize(a: set<Transaction>, b: set<Transaction>)
    requires a <= b
    ensures |a| <= |b|
  {
    assert b == a + (b - a);
  }

  lemma {:induction false} SmallerSet(a: set<Transaction>, b: set<Transaction>, t: Transaction)
    requires a <= b && t in b && t !in a
    ensures |a| < |b|
  {
    SubsetSize(a, b - {t});
  }

  lemma {:induction false} FilteredWithin(list: seq<Transaction>, clock: nat -> int32, a: nat, b: nat)
    requires Distinct(list)
    ensures Elements(FilterExpired(list, clock, a)) <= Elements(FilterExpired(list, clock, b)) <==>
      forall k :: 0 <= k < |list| && IsExpire(list[k], clock(a + k)) ==> IsExpire(list[k], clock(b + k))
  {
    hide Distinct, FilterExpired, IsExpire, Elements;
    var x, y := FilterExpired(list, clock, a), FilterExpired(list, clock, b);
    forall k | 0 <= k < |list|
      ensures list[k] in Elements(x) <==> IsExpire(list[k], clock(a + k))
      ensures list[k] in Elements(y) <==> IsExpire(list[k], clock(b + k))
    {
      FilterMember(list, clock, a, k);
      FilterMember(list, clock, b, k);
      ElementsMember(x, list[k]);
      ElementsMember(y, list[k]);
    }
    FilterFrom(list, clock, a);
    forall t | t in Elements(x)
      ensures exists k :: 0 <= k < |list| && list[k] == t
    {
      ElementsMember(x, t);
      var i :| 0 <= i < |x| && x[i] == t;
    }
  }

  /** All entries that expired between their readings stay exactly when no entry stops being expired
      between the filters, or none starts. */
  lemma {:induction false} SurvivorsExactIff(st: State, clock: nat -> int32)
    requires Distinct(st.list)
    ensures SweepStep(st, clock).list == Between(st.list, clock) <==>
      StaysExpired(st.list, clock) || NoneExpires(st.list, clock)
  {
    hide Distinct, FilterExpired, SweepStep, Minus, IsExpire, Elements;
    var n := |st.list|;
    var expired, again := FilterExpired(st.list, clock, 1), FilterExpired(st.list, clock, 1 + n);
    FilterDistinct(st.list, clock, 1);
    FilterDistinct(st.list, clock, 1 + n);
    SweepSurvivors(st, clock);
    MinusSize(again, Elements(expired));
    ElementsSize(again);
    ElementsSize(expired);
    DifferenceSize(Elements(again), Elements(expired));
    FilteredWithin(st.list, clock, 1, 1 + n);
    FilteredWithin(st.list, clock, 1 + n, 1);
  }

  /** Under any clock an entry stays only if it expired between its two readings; that this is enough for
      every entry holds under the same condition. */
  lemma {:induction false} SurvivesIff(st: State, clock: nat -> int32)
    requires Distinct(st.list)
    ensures forall k :: 0 <= k < |st.list| && st.list[k] in SweepStep(st, clock).list ==>
      !IsExpire(st.list[k], clock(1 + k)) && IsExpire(st.list[k], clock(1 + |st.list| + k))
    ensures (forall k :: 0 <= k < |st.list| ==> (st.list[k] in SweepStep(st, clock).list <==>
        !IsExpire(st.list[k], clock(1 + k)) && IsExpire(st.list[k], clock(1 + |st.list| + k)))) <==>
      StaysExpired(st.list, clock) || NoneExpires(st.list, clock)
  {
    hide FilterExpired, SweepStep, Between, Distinct, IsExpire, StaysExpired, NoneExpires;
    var list, m, rest := st.list, Between(st.list, clock), SweepStep(st, clock).list;
    SweepSurvivors(st, clock);
    SurvivorsExactIff(st, clock);
    forall k | 0 <= k < |list|
      ensures list[k] in m <==> !IsExpire(list[k], clock(1 + k)) && IsExpire(list[k], clock(1 + |list| + k))
    {
      BetweenMember(list, clock, k);
    }
    if rest != m {
      var k := LostEntry(st, clock);
    }
  }

  /** Otherwise some entry that expired between its readings is dropped without a callback. */
  lemma {:induction false} LostEntry(st: State, clock: nat -> int32) returns (k: nat)
    requires Distinct(st.list) && SweepStep(st, clock).list != Between(st.list, clock)
    ensures k < |st.list| && st.list[k] in Between(st.list, clock) && st.list[k] !in SweepStep(st, clock).list
  {
    hide FilterExpired, SweepStep, Minus, IsExpire, Elements;
    var list, m, rest := st.list, Between(st.list, clock), SweepStep(st, clock).list;
    var again := FilterExpired(list, clock, 1 + |list|);
    SweepSurvivors(st, clock);
    FilterDistinct(list, clock, 1 + |list|);
    MinusDistinct(again, Elements(FilterExpired(list, clock, 1)));
    var t := m[|rest|];
    MinusMember(again, Elements(FilterExpired(list, clock, 1)), t);
    FilterFrom(list, clock, 1 + |list|);
    var i :| 0 <= i < |again| && again[i] == t;
    k :| 0 <= k < |list| && list[k] == t;
  }

  /** It happens on a clock that moves forward by one tick: the first entry has waited for almost 2^32
      milliseconds and does not count as expired at the second reading, so its removal takes out the
      other entry, which expired in between and is never called back. */
  lemma {:induction false} RemovedForAnother(clock: nat -> int32)
    requires clock(1) == -1 && clock(2) == -1 && clock(3) == 0 && clock(4) == 0
    ensures var a, b := Transaction(0, 0, 0), Transaction(1, 1, -5000);
      var st := Run(START, [Send(0, true), Send(-5000, true)]);
      var st' := SweepStep(st, clock);
      && st.list == [a, b] && st'.list == []
      && st'.log == st.log + [TimedOut(a), Cancel]
  {
    hide FilterExpired, FilterNotExpired, Step, RemoveAll, Elapsed;
    var a, b := Transaction(0, 0, 0), Transaction(1, 1, -5000);
    var p, q := Send(0, true), Send(-5000, true);
    SendShape(START, 0);
    SendShape(Step(START, p), -5000);
    TwoSteps(p, q);
    var st := Run(START, [p, q]);
    assert st.list == [a, b];
    ExpiredThen(a, b);
    FilterTwo(a, b, clock, 1);
    assert FilterExpired(st.list, clock, 1) == [a];
    FilterTwo(a, b, clock, 3);
    FiltersAgree([a, b], clock, 3);
    assert FilterNotExpired(st.list, clock, 3) == [b];
    RemoveOther(a, b);
    assert Nulls([a]) == [TimedOut(a)];
    assert st.log + Nulls([a]) + [Cancel] == st.log + [TimedOut(a), Cancel];
  }

  lemma {:induction false} ExpiredThen(a: Transaction, b: Transaction)
    requires a.time == 0 && b.time == -5000
    ensures IsExpire(a, -1) && !IsExpire(b, -1) && !IsExpire(a, 0) && IsExpire(b, 0)
  {
  }

  lemma {:induction false} RemoveOther(a: Transaction, b: Transaction)
    ensures RemoveAll([b], [a]) == []
  {
    assert Remove([b], a) == [];
    assert [a][1..] == [];
  }

  lemma {:induction false} TwoSteps(a: Op, b: Op)
    ensures Run(START, [a, b]) == Step(Step(START, a), b)
  {
    hide Step;
    assert [a, b][..1] == [a];
    assert [a][..0] == [];
    assert Run(START, []) == START;
    assert Run(START, [a]) == Step(START, a);
  }

  lemma {:induction false} FilterTwo(a: Transaction, b: Transaction, clock: nat -> int32, base: nat)
    ensures FilterExpired([a, b], clock, base)
      == (if IsExpire(a, clock(base)) then [a] else []) + (if IsExpire(b, clock(base + 1)) then [b] else [])
  {
    hide IsExpire;
    assert [a, b][..1] == [a] && [a][..0] == [];
    assert FilterExpired([], clock, base) == [];
    assert FilterExpired([a], clock, base) == if IsExpire(a, clock(base)) then [a] else [];
  }

  /** With a clock that stands still during the sweep the list ends empty and the timer is cancelled:
      an entry that has not expired is dropped without any callback. */
  lemma {:induction false} FixedClockSweep(st: State, now: int32)
    requires Distinct(st.list)
    ensures var st' := SweepStep(st, _ => now);
      && st'.list == []
      && st'.log == st.log + Nulls(FilterExpired(st.list, _ => now, 1)) + [Cancel]
  {
    hide Distinct, FilterExpired, Minus, FilterNotExpired, RemoveAll;
    var clock: nat -> int32 := _ => now;
    SweepSurvivors(st, clock);
    FixedFilter(st.list, clock, 1, 1 + |st.list|);
    MinusSelf(FilterExpired(st.list, clock, 1));
  }

  lemma {:induction false} MinusSelf(list: seq<Transaction>)
    ensures Minus(list, Elements(list)) == []
  {
    MinusAll(list, Elements(list));
  }

  lemma {:induction false} MinusAll(list: seq<Transaction>, items: set<Transaction>)
    requires forall i :: 0 <= i < |list| ==> list[i] in items
    ensures Minus(list, items) == []
  {
    if list != [] {
      MinusAll(list[..|list| - 1], items);
    }
  }

  lemma {:induction false} FixedFilter(list: seq<Transaction>, clock: nat -> int32, a: nat, b: nat)
    requires forall i, j :: clock(i) == clock(j)
    ensures FilterExpired(list, clock, a) == FilterExpired(list, clock, b)
  {
    hide IsExpire;
    if list != [] {
      FixedFilter(list[..|list| - 1], clock, a, b);
    }
  }

  /** An answered transaction is still in the list, so the sweep that finds it expired calls it back
      a second time, with null. */
  lemma {:induction false} AnsweredStillTimesOut(st: State, k: nat, answered: int32, now: int32)
    requires Ordered(st) && k < |st.list| && IsExpire(st.list[k], now)
    ensures var t := st.list[k];
      var st' := SweepStep(ResponseStep(st, t.mid, answered), _ => now);
      Responded(t, t.mid) in st'.log && TimedOut(t) in st'.log
  {
    var t := st.list[k];
    var st1 := ResponseStep(st, t.mid, answered);
    ResponseReachesOne(st, t.mid, answered, k);
    assert st1.log[|st1.log| - 1] == Responded(t, t.mid);
    OrderedDistinct(st1);
    FixedClockSweep(st1, now);
    var clock: nat -> int32 := _ => now;
    FilterMember(st1.list, clock, 1, k);
    var expired := FilterExpired(st1.list, clock, 1);
    var i :| 0 <= i < |expired| && expired[i] == t;
    assert Nulls(expired)[i] == TimedOut(t);
  }

  // ----- the timer -----

  /** The part of timer.ts that the sweep depends on: timer_list, of which only the sweep's own timers are
      kept here, and g_trans_timer.  A timer is known by the number of its creation. */
  datatype Timers = Timers(live: seq<nat>, current: nat, created: nat)

  /** Position of a timer in timer_list, its length if there is none. */
  function FindTimer(live: seq<nat>, id: nat, i: nat): (k: nat)
    requires i <= |live|
    ensures i <= k <= |live| && (k < |live| ==> live[k] == id)
    ensures forall j :: i <= j < k ==> live[j] != id
    decreases |live| - i
  {
    if i == |live| || live[i] == id then i else FindTimer(live, id, i + 1)
  }

  /** setTimeout adds a new timer, timer_cancel takes the timer out of timer_list, and timer_restart does
      not touch timer_list. */
  function Advance(ts: Timers, e: Event): Timers {
    match e
    case SetTimeout(_) => Timers(ts.live + [ts.created], ts.created, ts.created + 1)
    case Cancel =>
      var k := FindTimer(ts.live, ts.current, 0);
      ts.(live := if k < |ts.live| then ts.live[..k] + ts.live[k + 1..] else ts.live)
    case _ => ts
  }

  function TimersAfter(log: seq<Event>): Timers {
    if log == [] then Timers([], 0, 0) else Advance(TimersAfter(log[..|log| - 1]), log[|log| - 1])
  }

  /** Whether on_timer_callback can run the sweep: it calls only timers that it finds in timer_list. */
  predicate Armed(log: seq<Event>) {
    var ts := TimersAfter(log);
    ts.current in ts.live
  }

  ghost predicate Numbered(ts: Timers) {
    && (forall i :: 0 <= i < |ts.live| ==> ts.live[i] < ts.created)
    && (forall i, j :: 0 <= i < j < |ts.live| ==> ts.live[i] < ts.live[j])
  }

  lemma {:induction false} TimersNumbered(log: seq<Event>)
    ensures Numbered(TimersAfter(log))
  {
    hide Advance, Numbered;
    if log == [] {
      NoneNumbered();
    } else {
      TimersNumbered(log[..|log| - 1]);
      AdvanceNumbered(TimersAfter(log[..|log| - 1]), log[|log| - 1]);
    }
  }

  lemma {:induction false} NoneNumbered()
    ensures Numbered(Timers([], 0, 0))
  {
  }

  lemma {:induction false} AdvanceNumbered(ts: Timers, e: Event)
    requires Numbered(ts)
    ensures Numbered(Advance(ts, e))
  {
  }

  lemma {:induction false} AdvanceArmed(ts: Timers, e: Event)
    requires Numbered(ts)
    ensures var ts' := Advance(ts, e);
      ts'.current in ts'.live <==> e.SetTimeout? || (!e.Cancel? && ts.current in ts.live)
  {
  }

  lemma {:induction false} TimersAfterOne(log: seq<Event>, e: Event)
    ensures TimersAfter(log + [e]) == Advance(TimersAfter(log), e)
  {
    hide Advance;
    assert (log + [e])[..|log|] == log;
  }

  lemma {:induction false} TimersAfterNulls(log: seq<Event>, items: seq<Transaction>)
    ensures TimersAfter(log + Nulls(items)) == TimersAfter(log)
  {
    hide TimersAfter;
    if items == [] {
      assert log + Nulls(items) == log;
    } else {
      var n := |items| - 1;
      TimersAfterNulls(log, items[..n]);
      TimersAfterOne(log + Nulls(items[..n]), TimedOut(items[n]));
      assert log + Nulls(items) == log + Nulls(items[..n]) + [TimedOut(items[n])];
    }
  }

  /** This step is a response to the only entry of the list. */
  predicate AnswersOnly(st: State, op: Op) {
    op.Response? && |st.list| == 1 && st.list[0].mid == op.mid
  }

  predicate StartsTimer(st: State, op: Op) {
    op.Send? && op.packs && st.list == []
  }

  predicate StopsTimer(st: State, op: Op) {
    AnswersOnly(st, op) || (op.Sweep? && Step(st, op).list == [])
  }

  /** What each step does to timer_list: a request starts a timer on an empty list only, a response to the
      only entry and a sweep that empties the list take the timer away, and nothing else matters. */
  lemma {:induction false} TimersStep(st: State, op: Op)
    ensures var ts := TimersAfter(st.log);
      TimersAfter(Step(st, op).log) ==
        if StartsTimer(st, op) then Advance(ts, SetTimeout(TIMEOUT))
        else if StopsTimer(st, op) then Advance(ts, Cancel)
        else ts
  {
    hide TimersAfter, FilterExpired, FilterNotExpired, RemoveAll, Elapsed, FindTimer;
    match op
    case Send(now, packs) =>
      if packs {
        TimersAfterOne(st.log, SetTimeout(TIMEOUT));
        var log := st.log + if st.list == [] then [SetTimeout(TIMEOUT)] else [];
        assert st.log + [] == st.log;
        TimersAfterOne(log, Posted(st.mid));
      }
    case Publish(packs) =>
      assert st.log + [] == st.log;
      TimersAfterOne(st.log, Posted(st.mid));
    case Response(mid, now) =>
      ResponseTimers(st, mid, now);
    case Sweep(clock) =>
      var n := |st.list|;
      var rest := SweepStep(st, clock).list;
      var expired := FilterExpired(st.list, clock, 1);
      TimersAfterNulls(st.log, expired);
      TimersAfterOne(st.log + Nulls(expired),
                     if rest == [] then Cancel else Restart(TIMEOUT - Elapsed(clock(1 + 2 * n), rest[0].time)));
  }

  lemma {:induction false} ResponseTimers(st: State, mid: int32, now: int32)
    ensures TimersAfter(ResponseStep(st, mid, now).log) ==
      if AnswersOnly(st, Response(mid, now)) then Advance(TimersAfter(st.log), Cancel) else TimersAfter(st.log)
  {
    hide TimersAfter, Elapsed, FindTimer;
    var k := FindMid(st.list, mid, 0);
    if k < |st.list| {
      var t := st.list[k];
      assert IndexOf(st.list, t, 0) == 0 <==> k == 0;
      if k == 0 {
        var e := if |st.list| >= 2 then Restart(TIMEOUT - Elapsed(now, st.list[1].time)) else Cancel;
        TimersAfterOne(st.log, e);
        TimersAfterOne(st.log + [e], Responded(t, mid));
      } else {
        assert st.log + [] == st.log;
        TimersAfterOne(st.log, Responded(t, mid));
      }
    }
  }

  /** Hence when the sweep can run after a step: nothing brings back a timer that is gone. */
  lemma {:induction false} TimerAfter(st: State, op: Op)
    ensures Armed(Step(st, op).log) == (StartsTimer(st, op) || (Armed(st.log) && !StopsTimer(st, op)))
  {
    hide TimersAfter, Step, Advance, Numbered;
    TimersStep(st, op);
    TimersNumbered(st.log);
    AdvanceArmed(TimersAfter(st.log), SetTimeout(TIMEOUT));
    AdvanceArmed(TimersAfter(st.log), Cancel);
  }

  /** Over every run, a timer in timer_list means that some request waits. */
  lemma {:induction false} ArmedMeansWaiting(ops: seq<Op>)
    ensures var st := Run(START, ops); Armed(st.log) ==> st.list != []
  {
    hide Armed, Step;
    if ops == [] {
      NothingArmed();
    } else {
      var n := |ops| - 1;
      ArmedMeansWaiting(ops[..n]);
      TimerAfter(Run(START, ops[..n]), ops[n]);
      ListAfter(Run(START, ops[..n]), ops[n]);
    }
  }

  /** So there is never more than one: timer_list holds the sweep timer that g_trans_timer refers to, or
      none. */
  lemma {:induction false} OneTimer(ops: seq<Op>)
    ensures var ts := TimersAfter(Run(START, ops).log); ts.live == [] || ts.live == [ts.current]
  {
    hide TimersAfter, Step, Advance;
    if ops == [] {
      NothingArmed();
    } else {
      var n := |ops| - 1;
      var st := Run(START, ops[..n]);
      OneTimer(ops[..n]);
      ArmedMeansWaiting(ops[..n]);
      TimersStep(st, ops[n]);
      AdvanceOne(TimersAfter(st.log));
    }
  }

  lemma {:induction false} AdvanceOne(ts: Timers)
    ensures ts.live == [] ==> var ts' := Advance(ts, SetTimeout(TIMEOUT)); ts'.live == [ts'.current]
    ensures ts.live == [] || ts.live == [ts.current] ==> Advance(ts, Cancel).live == []
  {
  }

  lemma {:induction false} NothingArmed()
    ensures !Armed(START.log) && TimersAfter(START.log).live == []
  {
  }

  /** Only a sweep shortens the list or calls back with null. */
  lemma {:induction false} ListAfter(st: State, op: Op)
    ensures !op.Sweep? ==> st.list <= Step(st, op).list && st.log <= Step(st, op).log
    ensures !op.Sweep? ==> forall i :: |st.log| <= i < |Step(st, op).log| ==> !Step(st, op).log[i].TimedOut?
    ensures op.Send? && op.packs ==> Step(st, op).list != []
    ensures !op.Sweep? && st.list == [] && !(op.Send? && op.packs) ==> Step(st, op).list == []
  {
    hide Elapsed;
  }

  /** The runs that can happen: a sweep only while its timer is in timer_list. */
  ghost predicate Possible(st: State, ops: seq<Op>) {
    ops == [] ||
      var n := |ops| - 1;
      Possible(st, ops[..n]) && (ops[n].Sweep? ==> Armed(Run(st, ops[..n]).log))
  }

  /** Requests wait and no timer will ever sweep them. */
  ghost predicate Stuck(st: State) {
    st.list != [] && !Armed(st.log)
  }

  /** Exactly when a step loses the timer of a waiting list: it is a response to the only entry. */
  lemma {:induction false} TimerLostIff(st: State, op: Op)
    requires Armed(st.log) && st.list != []
    ensures Stuck(Step(st, op)) <==> AnswersOnly(st, op)
  {
    hide Armed, Step;
    TimerAfter(st, op);
    ListAfter(st, op);
  }

  /** The loss is permanent: whatever happens afterwards, the timer does not come back, every waiting
      request stays in the list and none is ever called back with null. */
  lemma {:induction false} LossIsPermanent(st: State, ops: seq<Op>)
    requires Stuck(st) && Possible(st, ops)
    ensures var st' := Run(st, ops);
      && Stuck(st') && st.list <= st'.list && st.log <= st'.log
      && forall i :: |st.log| <= i < |st'.log| ==> !st'.log[i].TimedOut?
  {
    hide Armed, Step;
    if ops != [] {
      var n := |ops| - 1;
      LossIsPermanent(st, ops[..n]);
      var mid := Run(st, ops[..n]);
      TimerAfter(mid, ops[n]);
      ListAfter(mid, ops[n]);
    }
  }

  /** Some step of this run is a response to the only entry of the list. */
  ghost predicate EverAnswersOnly(ops: seq<Op>) {
    ops != [] &&
      var n := |ops| - 1;
      EverAnswersOnly(ops[..n]) || AnswersOnly(Run(START, ops[..n]), ops[n])
  }

  /** Over every run that can happen: requests wait without a timer if and only if at some step a
      response met a list with no other entry. */
  lemma {:induction false} StuckIff(ops: seq<Op>)
    requires Possible(START, ops)
    ensures Stuck(Run(START, ops)) <==> EverAnswersOnly(ops)
  {
    hide Armed, Step;
    if ops != [] {
      var n := |ops| - 1;
      var st, op := Run(START, ops[..n]), ops[n];
      StuckIff(ops[..n]);
      ArmedMeansWaiting(ops[..n]);
      TimerAfter(st, op);
      ListAfter(st, op);
    }
  }

  /** Such a run: a response to the only request, another request, and a second response to the first.
      The last one restarts a timer that is no longer in timer_list. */
  lemma {:induction false} WaitingWithoutTimer()
    ensures var ops := [Send(0, true), Response(0, 1), Send(2, true), Response(0, 3)];
      var st := Run(START, ops);
      Possible(START, ops) && |st.list| == 2 && Restart(4999) in st.log && !Armed(st.log)
  {
    hide Armed, Step;
    var a, b, c, d := Send(0, true), Response(0, 1), Send(2, true), Response(0, 3);
    var s1 := Step(START, a);
    var s2 := Step(s1, b);
    var s3 := Step(s2, c);
    var x := Transaction(0, 0, 0);
    SendShape(START, 0);
    ResponseShape(s1, x, 1);
    SendShape(s2, 2);
    ResponseShape(s3, x, 3);
    FourSteps(a, b, c, d);
    TimerAfter(s1, b);
    TimerAfter(s2, c);
    TimerAfter(s3, d);
  }

  lemma {:induction false} SendShape(st: State, now: int32)
    requires 0 <= st.mid < 0x7FFF_FFFF
    ensures var st' := Step(st, Send(now, true));
      && st'.list == st.list + [Transaction(st.created, st.mid, now)]
      && st'.mid == st.mid + 1 && st'.created == st.created + 1
  {
  }

  lemma {:induction false} ResponseShape(st: State, t: Transaction, now: int32)
    requires |st.list| >= 1 && st.list[0] == t
    ensures var st' := Step(st, Response(t.mid, now));
      && st'.list == st.list && st'.mid == st.mid && st'.created == st.created
      && (|st.list| >= 2 ==> Restart(TIMEOUT - Elapsed(now, st.list[1].time)) in st'.log)
  {
    hide Elapsed;
    var st' := Step(st, Response(t.mid, now));
    assert FindMid(st.list, t.mid, 0) == 0 && IndexOf(st.list, t, 0) == 0;
    if |st.list| >= 2 {
      assert st'.log[|st.log|] == Restart(TIMEOUT - Elapsed(now, st.list[1].time));
    }
  }

  lemma {:induction false} FourSteps(a: Op, b: Op, c: Op, d: Op)
    requires !a.Sweep? && !b.Sweep? && !c.Sweep? && !d.Sweep?
    ensures Run(START, [a, b, c, d]) == Step(Step(Step(Step(START, a), b), c), d)
    ensures Possible(START, [a, b, c, d])
  {
    hide Step;
    assert [a, b, c, d][..3] == [a, b, c];
    assert [a, b, c][..2] == [a, b];
    assert [a, b][..1] == [a];
    assert [a][..0] == [];
    assert Run(START, []) == START && Possible(START, []);
    assert Run(START, [a]) == Step(START, a) && Possible(START, [a]);
    assert Run(START, [a, b]) == Step(Run(START, [a]), b) && Possible(START, [a, b]);
    assert Run(START, [a, b, c]) == Step(Run(START, [a, b]), c) && Possible(START, [a, b, c]);
  }

  // ----- message ids -----

  /** The mids of all messages sent to the host, in order. */
  function PostedMids(log: seq<Event>): seq<int32> {
    if log == [] then []
    else
      var n := |log| - 1;
      PostedMids(log[..n]) + if log[n].Posted? then [log[n].mid] else []
  }

  ghost predicate SentInOrder(st: State) {
    var ms := PostedMids(st.log);
    && (forall i, j :: 0 <= i < j < |ms| ==> ms[i] < ms[j])
    && (forall i :: 0 <= i < |ms| ==> ms[i] < st.mid)
  }

  lemma {:induction false} PostedAfterOne(log: seq<Event>, e: Event)
    ensures PostedMids(log + [e]) == PostedMids(log) + if e.Posted? then [e.mid] else []
  {
    assert (log + [e])[..|log|] == log;
  }

  lemma {:induction false} PostedAfterNulls(log: seq<Event>, items: seq<Transaction>)
    ensures PostedMids(log + Nulls(items)) == PostedMids(log)
  {
    hide PostedMids;
    if items == [] {
      assert log + Nulls(items) == log;
    } else {
      var n := |items| - 1;
      PostedAfterNulls(log, items[..n]);
      PostedAfterOne(log + Nulls(items[..n]), TimedOut(items[n]));
      assert log + Nulls(items) == log + Nulls(items[..n]) + [TimedOut(items[n])];
    }
  }

  /** Whether this step sends a message. */
  predicate Sends(op: Op) {
    (op.Publish? || op.Send?) && op.packs
  }

  /** Every step sends nothing, or one message with the next mid. */
  lemma {:induction false} StepSends(st: State, op: Op)
    ensures PostedMids(Step(st, op).log) == PostedMids(st.log) + if Sends(op) then [st.mid] else []
  {
    hide PostedMids, FilterExpired, FilterNotExpired, RemoveAll, Elapsed;
    assert st.log + [] == st.log;
    match op
    case Send(now, packs) =>
      PostedAfterOne(st.log, SetTimeout(TIMEOUT));
      PostedAfterOne(st.log + if st.list == [] then [SetTimeout(TIMEOUT)] else [], Posted(st.mid));
    case Publish(packs) =>
      PostedAfterOne(st.log, Posted(st.mid));
    case Response(mid, now) =>
      ResponseSends(st, mid, now);
    case Sweep(clock) =>
      var rest := SweepStep(st, clock).list;
      var expired := FilterExpired(st.list, clock, 1);
      PostedAfterNulls(st.log, expired);
      PostedAfterOne(st.log + Nulls(expired),
                     if rest == [] then Cancel else Restart(TIMEOUT - Elapsed(clock(1 + 2 * |st.list|), rest[0].time)));
  }

  lemma {:induction false} ResponseSends(st: State, mid: int32, now: int32)
    ensures PostedMids(ResponseStep(st, mid, now).log) == PostedMids(st.log)
  {
    hide PostedMids, Elapsed;
    var k := FindMid(st.list, mid, 0);
    if k < |st.list| {
      var e := if |st.list| >= 2 then Restart(TIMEOUT - Elapsed(now, st.list[1].time)) else Cancel;
      assert st.log + [] == st.log;
      PostedAfterOne(st.log, e);
      PostedAfterOne(st.log + [e], Responded(st.list[k], mid));
      PostedAfterOne(st.log, Responded(st.list[k], mid));
    }
  }

  /** Over every run before the counter wraps no two messages carry the same mid. */
  lemma {:induction false} MidsNeverRepeat(ops: seq<Op>)
    requires |ops| < 0x7FFF_FFFF
    ensures SentInOrder(Run(START, ops))
  {
    hide Step;
    if ops == [] {
      assert PostedMids([]) == [];
    } else {
      var n := |ops| - 1;
      var st := Run(START, ops[..n]);
      MidsNeverRepeat(ops[..n]);
      RunOrdered(ops[..n]);
      StepSends(st, ops[n]);
      StepMid(st, ops[n]);
    }
  }

  lemma {:induction false} StepMid(st: State, op: Op)
    requires 0 <= st.mid < 0x7FFF_FFFF
    ensures Step(st, op).mid == if op.Send? || op.Publish? then st.mid + 1 else st.mid
  {
  }

  // ----- null is the last callback -----

  predicate CallsBack(e: Event) {
    e.TimedOut? || e.Responded?
  }

  /** No callback of a transaction follows its null. */
  ghost predicate NullLast(log: seq<Event>) {
    forall i, j :: 0 <= i < j < |log| && log[i].TimedOut? && CallsBack(log[j]) ==> log[i].trans != log[j].trans
  }

  /** No transaction that got its null is among these, or yet to be created. */
  ghost predicate Gone(log: seq<Event>, list: seq<Transaction>, created: nat) {
    forall i :: 0 <= i < |log| && log[i].TimedOut? ==> log[i].trans.serial < created && log[i].trans !in list
  }

  ghost predicate Created(list: seq<Transaction>, created: nat) {
    forall t :: t in list ==> t.serial < created
  }

  ghost predicate Settled(st: State) {
    Distinct(st.list) && Created(st.list, st.created) && Gone(st.log, st.list, st.created) && NullLast(st.log)
  }

  /** transaction_remove never lets its argument stay, not even when splice removes another one. */
  lemma {:induction false} RemoveGone(list: seq<Transaction>, t: Transaction)
    requires Distinct(list)
    ensures var r := Remove(list, t); Distinct(r) && t !in r && forall u :: u in r ==> u in list
  {
    hide Remove;
    if list == [] {
      RemoveNone(t);
    } else {
      var k := RemoveShape(list, t);
      var a, b := list[..k], list[k + 1..];
      assert list == a + [list[k]] + b;
      assert t !in a && t !in b;
    }
  }

  lemma {:induction false} RemoveAllGone(list: seq<Transaction>, items: seq<Transaction>)
    requires Distinct(list)
    ensures var r := RemoveAll(list, items);
      Distinct(r) && (forall u :: u in r ==> u in list) && (forall u :: u in items ==> u !in r)
    decreases |items|
  {
    hide Distinct, Remove;
    if items != [] {
      RemoveGone(list, items[0]);
      RemoveAllGone(Remove(list, items[0]), items[1..]);
      forall u | u in items
        ensures u == items[0] || u in items[1..]
      {
        assert items == [items[0]] + items[1..];
      }
    }
  }

  /** Under any clock: whoever a sweep calls back has left the list, and nobody new is in it. */
  lemma {:induction false} SweepGone(st: State, clock: nat -> int32)
    requires Distinct(st.list)
    ensures var expired, rest := FilterExpired(st.list, clock, 1), SweepStep(st, clock).list;
      && Distinct(expired) && Distinct(rest)
      && (forall t :: t in expired ==> t in st.list && t !in rest)
      && (forall t :: t in rest ==> t in st.list)
  {
    hide Distinct, FilterExpired, FilterNotExpired, RemoveAll;
    var n := |st.list|;
    FilterDistinct(st.list, clock, 1);
    FilterFrom(st.list, clock, 1);
    FilterDistinct(st.list, clock, 1 + n);
    FilterFrom(st.list, clock, 1 + n);
    FiltersAgree(st.list, clock, 1 + n);
    RemoveAllGone(FilterNotExpired(st.list, clock, 1 + n), FilterExpired(st.list, clock, 1));
  }

  lemma {:induction false} SweepSettled(st: State, clock: nat -> int32)
    requires Settled(st)
    ensures Settled(SweepStep(st, clock))
  {
    hide FilterExpired, FilterNotExpired, RemoveAll, Elapsed;
    SweepGone(st, clock);
    var expired := FilterExpired(st.list, clock, 1);
    var log := SweepStep(st, clock).log;
    var n := |st.log|;
    assert forall i :: 0 <= i < n ==> log[i] == st.log[i];
    assert forall i :: n <= i < n + |expired| ==> log[i] == TimedOut(expired[i - n]) && expired[i - n] in expired;
    assert |log| == n + |expired| + 1 && !CallsBack(log[n + |expired|]);
  }

  lemma {:induction false} ResponseSettled(st: State, mid: int32, now: int32)
    requires Settled(st)
    ensures Settled(ResponseStep(st, mid, now))
  {
    hide Elapsed;
    var log := ResponseStep(st, mid, now).log;
    assert forall i :: 0 <= i < |st.log| ==> log[i] == st.log[i];
    assert forall i :: |st.log| <= i < |log| ==>
      !log[i].TimedOut? && (log[i].Responded? ==> log[i].trans in st.list);
  }

  lemma {:induction false} SendSettled(st: State, op: Op)
    requires Settled(st) && (op.Send? || op.Publish?)
    ensures Settled(Step(st, op))
  {
    var st' := Step(st, op);
    assert forall i :: 0 <= i < |st.log| ==> st'.log[i] == st.log[i];
    assert forall i :: |st.log| <= i < |st'.log| ==> !CallsBack(st'.log[i]);
    assert forall t :: t in st'.list ==> t in st.list || t.serial == st.created;
  }

  /** Over every run, of any length and under any clock, the null of a timeout is the last callback a
      transaction gets: it is given at most once and no response follows it. */
  lemma {:induction false} NullIsLast(ops: seq<Op>)
    ensures Settled(Run(START, ops))
  {
    hide Settled, Step;
    if ops == [] {
      StartSettled();
    } else {
      var st, op := Run(START, ops[..|ops| - 1]), ops[|ops| - 1];
      NullIsLast(ops[..|ops| - 1]);
      StepSettled(st, op);
    }
  }

  lemma {:induction false} StepSettled(st: State, op: Op)
    requires Settled(st)
    ensures Settled(Step(st, op))
  {
    hide Settled, SendStep, SweepStep, ResponseStep;
    match op
    case Send(_, _) => SendSettled(st, op);
    case Publish(_) => SendSettled(st, op);
    case Response(mid, now) => ResponseSettled(st, mid, now);
    case Sweep(clock) => SweepSettled(st, clock);
  }

  lemma {:induction false} StartSettled()
    ensures Settled(START)
  {
  }
}
