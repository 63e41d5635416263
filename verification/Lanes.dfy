// The bounded-concurrency map: lanes share one counter, each claims the next
// index, awaits the call and stores its result. A lane runs without
// interruption between awaits; the schedule decides which lane moves next and
// whether its call fails.
module Lanes {
  import opened Options

  datatype Lane = Ready | Running(index: nat) | Done | Failed(index: nat)

  // `claims` is history: the indices in the order they were claimed.
  datatype State<R> = State(next: nat, lanes: seq<Lane>, results: seq<Option<R>>, claims: seq<nat>)

  datatype Event = Move(lane: nat, fails: bool)

  function Width(limit: int, n: nat): (w: nat)
    ensures w > 0
  {
    var least := if limit < n then limit else n;
    if least < 1 then 1 else least
  }

  function Start<R>(limit: int, n: nat): State<R> {
    State(0, seq(Width(limit, n), _ => Ready), seq(n, _ => None), [])
  }

  // A ready lane claims the next index or ends; a running one completes or fails.
  function Next<T, R>(items: seq<T>, fn: T -> R, s: State<R>, ev: Event): State<R> {
    if ev.lane >= |s.lanes| then s
    else
      match s.lanes[ev.lane]
      case Ready =>
        if s.next < |items| then
          State(s.next + 1, s.lanes[ev.lane := Running(s.next)], s.results, s.claims + [s.next])
        else s.(lanes := s.lanes[ev.lane := Done])
      case Running(i) =>
        if ev.fails then s.(lanes := s.lanes[ev.lane := Failed(i)])
        else if i < |s.results| && i < |items| then
          s.(lanes := s.lanes[ev.lane := Ready], results := s.results[i := Some(fn(items[i]))])
        else s
      case Done => s
      case Failed(_) => s
  }

  function Run<T, R>(items: seq<T>, fn: T -> R, s: State<R>, events: seq<Event>): State<R>
    decreases |events|
  {
    if events == [] then s
    else Next(items, fn, Run(items, fn, s, events[..|events| - 1]), events[|events| - 1])
  }

  function Held(lane: Lane): Option<nat> {
    if lane.Running? || lane.Failed? then Some(lane.index) else None
  }

  predicate Holds(lane: Lane, i: nat) {
    Held(lane) == Some(i)
  }

  // Claims run 0, 1, 2, ...; a claimed index is held by exactly one lane or has
  // its result, and no other index has one.
  ghost predicate Inv<T(!new), R>(items: seq<T>, fn: T -> R, s: State<R>) {
    && |s.results| == |items| && s.next <= |items| && |s.claims| == s.next
    && (forall i :: 0 <= i < s.next ==> s.claims[i] == i)
    && (forall l, m :: 0 <= l < m < |s.lanes| ==>
          Held(s.lanes[l]).None? || Held(s.lanes[l]) != Held(s.lanes[m]))
    && (forall l :: 0 <= l < |s.lanes| && Held(s.lanes[l]).Some? ==>
          Held(s.lanes[l]).value < s.next && s.results[Held(s.lanes[l]).value].None?)
    && (forall i :: 0 <= i < s.next ==>
          s.results[i] == Some(fn(items[i])) || exists l :: 0 <= l < |s.lanes| && Holds(s.lanes[l], i))
    && (forall i :: s.next <= i < |items| ==> s.results[i].None?)
    && (forall l :: 0 <= l < |s.lanes| && s.lanes[l].Done? ==> s.next == |items|)
  }

  lemma ClaimKeeps<T(!new), R>(items: seq<T>, fn: T -> R, s: State<R>, ev: Event)
    requires Inv(items, fn, s) && ev.lane < |s.lanes| && s.lanes[ev.lane].Ready?
    ensures Inv(items, fn, Next(items, fn, s, ev))
  {
    var t := Next(items, fn, s, ev);
    forall i | 0 <= i < t.next
      ensures t.results[i] == Some(fn(items[i])) || exists l :: 0 <= l < |t.lanes| && Holds(t.lanes[l], i)
    {
      if i == s.next {
        assert Holds(t.lanes[ev.lane], i);
      } else if t.results[i] != Some(fn(items[i])) {
        var l :| 0 <= l < |s.lanes| && Holds(s.lanes[l], i);
        assert Holds(t.lanes[l], i);
      }
    }
  }

  lemma CallEndsKeeps<T(!new), R>(items: seq<T>, fn: T -> R, s: State<R>, ev: Event)
    requires Inv(items, fn, s) && ev.lane < |s.lanes| && s.lanes[ev.lane].Running?
    ensures Inv(items, fn, Next(items, fn, s, ev))
  {
    var t := Next(items, fn, s, ev);
    var mine := s.lanes[ev.lane].index;
    assert Held(s.lanes[ev.lane]) == Some(mine);
    forall i | 0 <= i < t.next
      ensures t.results[i] == Some(fn(items[i])) || exists l :: 0 <= l < |t.lanes| && Holds(t.lanes[l], i)
    {
      if i == mine {
        assert ev.fails ==> Holds(t.lanes[ev.lane], i);
      } else if s.results[i] != Some(fn(items[i])) {
        var l :| 0 <= l < |s.lanes| && Holds(s.lanes[l], i);
        assert Holds(t.lanes[l], i);
      }
    }
  }

  lemma {:induction false} RunKeeps<T(!new), R>(items: seq<T>, fn: T -> R, limit: int, events: seq<Event>)
    ensures Inv(items, fn, Run(items, fn, Start(limit, |items|), events))
    ensures |Run(items, fn, Start<R>(limit, |items|), events).lanes| == Width(limit, |items|)
    decreases |events|
  {
    if events != [] {
      var before, ev := events[..|events| - 1], events[|events| - 1];
      RunKeeps(items, fn, limit, before);
      var s := Run(items, fn, Start(limit, |items|), before);
      if ev.lane < |s.lanes| && s.lanes[ev.lane].Ready? {
        ClaimKeeps(items, fn, s, ev);
      } else if ev.lane < |s.lanes| && s.lanes[ev.lane].Running? {
        CallEndsKeeps(items, fn, s, ev);
      }
    }
  }

  function InFlight(lanes: seq<Lane>): (n: nat)
    ensures n <= |lanes|
  {
    if lanes == [] then 0 else (if lanes[0].Running? then 1 else 0) + InFlight(lanes[1..])
  }

  // Under every schedule each index is claimed at most once, in order, and never
  // are more calls in flight than the limit allows.
  lemma ClaimsAndCalls<T(!new), R>(items: seq<T>, fn: T -> R, limit: int, events: seq<Event>)
    ensures var s := Run(items, fn, Start<R>(limit, |items|), events);
      && (forall i, j :: 0 <= i < j < |s.claims| ==> s.claims[i] < s.claims[j] < |items|)
      && (limit >= 1 ==> InFlight(s.lanes) <= limit) && (limit < 1 ==> InFlight(s.lanes) <= 1)
      && InFlight(s.lanes) <= |items|
      && |s.lanes| == if limit < 1 || |items| == 0 then 1 else if limit < |items| then limit else |items|
  {
    RunKeeps(items, fn, limit, events);
    if items == [] {
      NoneInFlight(Run(items, fn, Start<R>(limit, |items|), events).lanes);
    }
  }

  lemma {:induction false} NoneInFlight(lanes: seq<Lane>)
    requires forall l :: 0 <= l < |lanes| ==> !lanes[l].Running?
    ensures InFlight(lanes) == 0
  {
    if lanes != [] {
      NoneInFlight(lanes[1..]);
    }
  }

  // The calls in flight are those of the running lanes.
  lemma {:induction false} InFlightIs(lanes: seq<Lane>)
    ensures InFlight(lanes) == |set l: nat | l < |lanes| && lanes[l].Running?|
    decreases |lanes|
  {
    var all := set l: nat | l < |lanes| && lanes[l].Running?;
    if lanes == [] {
      assert all == {};
    } else {
      var last := |lanes| - 1;
      InFlightIs(lanes[..last]);
      InFlightLast(lanes);
      var init := set l: nat | l < last && lanes[..last][l].Running?;
      assert all == if lanes[last].Running? then init + {last} else init;
    }
  }

  lemma {:induction false} InFlightLast(lanes: seq<Lane>)
    requires lanes != []
    ensures InFlight(lanes) == InFlight(lanes[..|lanes| - 1]) + if lanes[|lanes| - 1].Running? then 1 else 0
  {
    if |lanes| > 1 {
      InFlightLast(lanes[1..]);
      assert lanes[1..][..|lanes| - 2] == lanes[..|lanes| - 1][1..];
    }
  }

  ghost predicate Stopped<R>(s: State<R>) {
    forall l :: 0 <= l < |s.lanes| ==> s.lanes[l].Done? || s.lanes[l].Failed?
  }

  // Once every lane has stopped and one of them ran out of work, every index has
  // been claimed and holds the result of its own item, but for the indices
  // whose call failed. Without a failure the results are complete.
  lemma StoppedIsComplete<T(!new), R>(items: seq<T>, fn: T -> R, limit: int, events: seq<Event>, i: nat)
    requires i < |items| && Stopped(Run(items, fn, Start<R>(limit, |items|), events))
    requires exists l :: 0 <= l < |Run(items, fn, Start<R>(limit, |items|), events).lanes|
                         && Run(items, fn, Start<R>(limit, |items|), events).lanes[l].Done?
    ensures var s := Run(items, fn, Start<R>(limit, |items|), events);
      && |s.claims| == |s.results| == |items| && s.claims[i] == i
      && s.results[i] == if Failed(i) in s.lanes then None else Some(fn(items[i]))
  {
    RunKeeps(items, fn, limit, events);
    var s := Run(items, fn, Start<R>(limit, |items|), events);
    if Failed(i) in s.lanes {
      var l :| 0 <= l < |s.lanes| && s.lanes[l] == Failed(i);
      assert Holds(s.lanes[l], i);
    } else {
      forall l | 0 <= l < |s.lanes| ensures !Holds(s.lanes[l], i) {
        assert s.lanes[l] in s.lanes;
      }
    }
  }

  // If every lane failed, exactly the indices not yet claimed are never tried.
  lemma {:induction false} AllFailedLeavesRest<T(!new), R>(items: seq<T>, fn: T -> R, limit: int, events: seq<Event>, more: seq<Event>)
    requires var s := Run(items, fn, Start<R>(limit, |items|), events);
      forall l :: 0 <= l < |s.lanes| ==> s.lanes[l].Failed?
    ensures Run(items, fn, Run(items, fn, Start<R>(limit, |items|), events), more)
            == Run(items, fn, Start<R>(limit, |items|), events)
    decreases |more|
  {
    if more != [] {
      AllFailedLeavesRest(items, fn, limit, events, more[..|more| - 1]);
    }
  }

  // ---- Progress -------------------------------------------------------------------

  function Weight(lanes: seq<Lane>): nat {
    if lanes == [] then 0
    else (match lanes[0] case Ready => 1 case Running(_) => 2 case _ => 0) + Weight(lanes[1..])
  }

  function Work<R>(s: State<R>, n: nat): int {
    3 * (n - s.next) + Weight(s.lanes)
  }

  lemma {:induction false} WeightAfter(lanes: seq<Lane>, l: nat, lane: Lane)
    requires l < |lanes|
    ensures Weight(lanes[l := lane]) == Weight(lanes) - Weight([lanes[l]]) + Weight([lane])
  {
    if l > 0 {
      WeightAfter(lanes[1..], l - 1, lane);
      assert lanes[l := lane][1..] == lanes[1..][l - 1 := lane];
    } else {
      assert lanes[l := lane][1..] == lanes[1..];
    }
  }

  lemma WeightOfOne(lane: Lane)
    ensures Weight([lane]) == if lane.Ready? then 1 else if lane.Running? then 2 else 0
  {
    assert [lane][1..] == [];
  }

  // A lane that has not stopped can always move, and every move uses up work.
  lemma MoveMakesProgress<T(!new), R>(items: seq<T>, fn: T -> R, s: State<R>, ev: Event)
    requires Inv(items, fn, s) && ev.lane < |s.lanes|
    ensures if s.lanes[ev.lane].Done? || s.lanes[ev.lane].Failed? then Next(items, fn, s, ev) == s
            else Work(Next(items, fn, s, ev), |items|) < Work(s, |items|)
  {
    var t := Next(items, fn, s, ev);
    if s.lanes[ev.lane].Running? {
      assert Held(s.lanes[ev.lane]) == Some(s.lanes[ev.lane].index);
    }
    WeightOfOne(s.lanes[ev.lane]);
    WeightOfOne(t.lanes[ev.lane]);
    WeightAfter(s.lanes, ev.lane, t.lanes[ev.lane]);
    assert t.lanes == s.lanes[ev.lane := t.lanes[ev.lane]];
  }

  lemma {:induction false} ReadyWeight(n: nat)
    ensures Weight(seq(n, _ => Ready)) == n
  {
    if n > 0 {
      var lanes := seq(n, _ => Ready);
      assert lanes[1..] == seq(n - 1, _ => Ready);
      ReadyWeight(n - 1);
    }
  }

  // Every event moves a lane that has not stopped.
  ghost predicate Effective<T, R>(items: seq<T>, fn: T -> R, s: State<R>, events: seq<Event>)
    decreases |events|
  {
    events == [] ||
    (var before, ev := events[..|events| - 1], events[|events| - 1];
     var t := Run(items, fn, s, before);
     Effective(items, fn, s, before) && ev.lane < |t.lanes| && !t.lanes[ev.lane].Done? && !t.lanes[ev.lane].Failed?)
  }

  // No schedule of such moves is longer than three per item and one per lane.
  lemma {:induction false} SchedulesEnd<T(!new), R>(items: seq<T>, fn: T -> R, limit: int, events: seq<Event>)
    requires Effective(items, fn, Start<R>(limit, |items|), events)
    ensures var s := Run(items, fn, Start<R>(limit, |items|), events);
      |events| <= 3 * |items| + Width(limit, |items|) - Work(s, |items|)
    decreases |events|
  {
    if events == [] {
      ReadyWeight(Width(limit, |items|));
    } else {
      var before := events[..|events| - 1];
      SchedulesEnd(items, fn, limit, before);
      RunKeeps(items, fn, limit, before);
      MoveMakesProgress(items, fn, Run(items, fn, Start<R>(limit, |items|), before), events[|events| - 1]);
    }
  }

  // ---- The shared counter and results ------------------------------------------------

  class LanePool<T(!new), R> {
    const items: seq<T>
    const fn: T -> R
    var next: nat
    var lanes: array<Lane>
    var results: array<Option<R>>
    ghost var claims: seq<nat>

    ghost predicate Valid()
      reads this, lanes, results
    {
      Inv(items, fn, Contents())
    }

    ghost function Contents(): State<R>
      reads this, lanes, results
    {
      State(next, lanes[..], results[..], claims)
    }

    constructor (items: seq<T>, limit: int, fn: T -> R)
      ensures Valid() && Contents() == Start(limit, |items|) && this.items == items && this.fn == fn
      ensures fresh(lanes) && fresh(results)
    {
      this.items, this.fn, next, claims := items, fn, 0, [];
      lanes := new Lane[Width(limit, |items|)](_ => Ready);
      results := new Option<R>[|items|](_ => None);
      new;
      assert lanes[..] == Start<R>(limit, |items|).lanes;
      assert results[..] == Start<R>(limit, |items|).results;
    }

    // One lane runs up to its next await.
    method Advance(ev: Event)
      requires Valid() && ev.lane < lanes.Length
      modifies this`next, this`claims, lanes, results
      ensures Valid() && Contents() == Next(items, fn, old(Contents()), ev)
    {
      ghost var before := Contents();
      match lanes[ev.lane] {
        case Ready =>
          if next < |items| {
            var index := next;
            next := next + 1;
            claims := claims + [index];
            lanes[ev.lane] := Running(index);
          } else {
            lanes[ev.lane] := Done;
          }
          ClaimKeeps(items, fn, before, ev);
        case Running(index) =>
          assert Held(before.lanes[ev.lane]) == Some(index);
          if ev.fails {
            lanes[ev.lane] := Failed(index);
          } else {
            results[index] := Some(fn(items[index]));
            lanes[ev.lane] := Ready;
          }
          CallEndsKeeps(items, fn, before, ev);
        case Done =>
        case Failed(_) =>
      }
    }
  }
}
