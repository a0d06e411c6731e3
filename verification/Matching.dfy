/**
 The greedy matcher of `gw_score` (src/gw_score.c) and how good it is.

 `Greedy` is what the two nested loops compute: a one-to-one assignment of detections
 to ground-truth events.  It is compared with every other such assignment.
 */
module Matching {
  import opened Options
  import opened Scenes

  function Left(t: Truth): int {
    t.at - t.before
  }

  function Right(t: Truth): int {
    t.at + t.after
  }

  predicate InWindow(t: Truth, at: int) {
    Left(t) <= at <= Right(t)
  }

  /** Event `t` is one of the rule's and has not been answered yet. */
  predicate Open(truth: seq<Truth>, taken: set<nat>, rule: nat, t: nat)
    requires t < |truth|
  {
    t !in taken && truth[t].rule == rule
  }

  /** The inner loop, from event `t` on: it gives up at the first open event whose window
      has not begun yet. */
  function Pick(truth: seq<Truth>, taken: set<nat>, rule: nat, at: int, t: nat): (r: Option<nat>)
    requires t <= |truth|
    ensures r.Some? ==> t <= r.value < |truth| && Open(truth, taken, rule, r.value) && InWindow(truth[r.value], at)
    ensures r.Some? ==> forall s :: t <= s < r.value && Open(truth, taken, rule, s) ==> Right(truth[s]) < at
    decreases |truth| - t
  {
    if t == |truth| then None
    else if !Open(truth, taken, rule, t) then Pick(truth, taken, rule, at, t + 1)
    else if at < Left(truth[t]) then None
    else if at <= Right(truth[t]) then Some(t)
    else Pick(truth, taken, rule, at, t + 1)
  }

  /** The assignment after the first `d` detections. */
  function Greedy(truth: seq<Truth>, dets: seq<Detection>, rule: nat, d: nat): (g: map<nat, nat>)
    requires d <= |dets|
  {
    if d == 0 then map[]
    else
      var g := Greedy(truth, dets, rule, d - 1);
      if dets[d - 1].rule != rule then g
      else
        match Pick(truth, g.Values, rule, dets[d - 1].at, 0)
        case Some(t) => g[d - 1 := t]
        case None => g
  }

  /** Detection `i` may answer event `t`. */
  predicate Fits(truth: seq<Truth>, dets: seq<Detection>, rule: nat, i: nat, t: nat) {
    && i < |dets| && dets[i].rule == rule
    && t < |truth| && truth[t].rule == rule && InWindow(truth[t], dets[i].at)
  }

  ghost predicate Injective(m: map<nat, nat>) {
    forall i, j :: i in m && j in m && m[i] == m[j] ==> i == j
  }

  /** `m` assigns detections from `d` on to events that are not taken, one to one and in
      window. */
  ghost predicate Assignment(truth: seq<Truth>, dets: seq<Detection>, rule: nat, d: nat, taken: set<nat>,
                             m: map<nat, nat>) {
    && Injective(m)
    && forall i :: i in m ==> d <= i && m[i] !in taken && Fits(truth, dets, rule, i, m[i])
  }

  // ---------------------------------------------------------------- orders

  predicate LeftSorted(truth: seq<Truth>, rule: nat) {
    forall s, t :: 0 <= s < t < |truth| && truth[s].rule == rule && truth[t].rule == rule ==>
      Left(truth[s]) <= Left(truth[t])
  }

  predicate RightSorted(truth: seq<Truth>, rule: nat) {
    forall s, t :: 0 <= s < t < |truth| && truth[s].rule == rule && truth[t].rule == rule ==>
      Right(truth[s]) <= Right(truth[t])
  }

  predicate TimeSorted(dets: seq<Detection>) {
    forall i, j :: 0 <= i < j < |dets| ==> dets[i].at <= dets[j].at
  }

  // ---------------------------------------------------------------- validity

  lemma {:induction false} GreedyIsAssignment(truth: seq<Truth>, dets: seq<Detection>, rule: nat, d: nat)
    requires d <= |dets|
    ensures Assignment(truth, dets, rule, 0, {}, Greedy(truth, dets, rule, d))
    ensures forall i :: i in Greedy(truth, dets, rule, d) ==> i < d
  {
    if d > 0 {
      GreedyIsAssignment(truth, dets, rule, d - 1);
    }
  }

  /** With left ends in order, a detection that is matched to nothing lies in no open window. */
  lemma {:induction false} PickNone(truth: seq<Truth>, taken: set<nat>, rule: nat, at: int, t: nat)
    requires t <= |truth| && LeftSorted(truth, rule) && Pick(truth, taken, rule, at, t).None?
    ensures forall s :: t <= s < |truth| && Open(truth, taken, rule, s) ==> !InWindow(truth[s], at)
    decreases |truth| - t
  {
    if t < |truth| && (!Open(truth, taken, rule, t) || at >= Left(truth[t])) {
      PickNone(truth, taken, rule, at, t + 1);
    }
  }

  // ---------------------------------------------------------------- optimality

  lemma Without(truth: seq<Truth>, dets: seq<Detection>, rule: nat, d: nat, taken: set<nat>, m: map<nat, nat>, i: nat)
    requires Assignment(truth, dets, rule, d, taken, m)
    ensures Assignment(truth, dets, rule, d, taken, m - {i})
    ensures |m - {i}| >= |m| - 1
  {
    hide Fits;
    assert m.Keys <= (m - {i}).Keys + {i};
    SubsetSize(m.Keys, (m - {i}).Keys + {i});
  }

  lemma {:induction false} SubsetSize(a: set<nat>, b: set<nat>)
    requires a <= b
    ensures |a| <= |b|
  {
    if x :| x in a {
      SubsetSize(a - {x}, b - {x});
    }
  }

  /** An assignment that uses neither detection `d` nor event `t` can do without them. */
  lemma Beyond(truth: seq<Truth>, dets: seq<Detection>, rule: nat, d: nat, taken: set<nat>, t: nat, m: map<nat, nat>)
    requires Assignment(truth, dets, rule, d, taken, m) && d !in m && t !in m.Values
    ensures Assignment(truth, dets, rule, d + 1, taken + {t}, m)
  {
    hide Fits;
    forall i | i in m ensures d + 1 <= i && m[i] !in taken + {t} {
      assert m[i] in m.Values;
    }
  }

  /** Gives up the detection that answers `t`, if there is one. */
  lemma Unanswer(truth: seq<Truth>, dets: seq<Detection>, rule: nat, d: nat, taken: set<nat>, t: nat, m: map<nat, nat>)
    returns (m': map<nat, nat>)
    requires Assignment(truth, dets, rule, d, taken, m)
    ensures Assignment(truth, dets, rule, d, taken, m')
    ensures |m'| >= |m| - 1 && t !in m'.Values && m'.Keys <= m.Keys
  {
    hide Fits;
    m' := m;
    if k :| k in m && m[k] == t {
      Without(truth, dets, rule, d, taken, m, k);
      m' := m - {k};
    }
  }

  /** Taking detection `d` and event `t` out of an assignment costs at most two pairs. */
  lemma DropBoth(truth: seq<Truth>, dets: seq<Detection>, rule: nat, d: nat, taken: set<nat>, t: nat, m: map<nat, nat>)
    returns (m': map<nat, nat>)
    requires Assignment(truth, dets, rule, d, taken, m)
    ensures Assignment(truth, dets, rule, d + 1, taken + {t}, m')
    ensures |m'| >= |m| - 2
  {
    Without(truth, dets, rule, d, taken, m, d);
    hide Assignment;
    m' := Unanswer(truth, dets, rule, d, taken, t, m - {d});
    Beyond(truth, dets, rule, d, taken, t, m');
  }

  /** `m` without `d`, whose event goes to `k`. */
  function Reassigned(m: map<nat, nat>, d: nat, k: nat): map<nat, nat>
    requires d in m
  {
    (m - {d})[k := m[d]]
  }

  lemma ReassignedIs(m: map<nat, nat>, d: nat, k: nat)
    requires Injective(m) && d in m && k in m && k != d
    ensures var r := Reassigned(m, d, k);
            && r.Keys == m.Keys - {d} && r[k] == m[d]
            && (forall i :: i in r && i != k ==> r[i] == m[i])
            && Injective(r) && m[k] !in r.Values
  {
  }

  /** Hands the event of detection `d` to detection `k`. */
  lemma HandOver(truth: seq<Truth>, dets: seq<Detection>, rule: nat, d: nat, taken: set<nat>, k: nat, m: map<nat, nat>)
    returns (m': map<nat, nat>)
    requires Assignment(truth, dets, rule, d, taken, m) && d in m && k in m && k != d
    requires Fits(truth, dets, rule, k, m[d])
    ensures Assignment(truth, dets, rule, d, taken, m')
    ensures |m'| >= |m| - 1 && d !in m' && m[k] !in m'.Values
  {
    hide Fits, Injective, Reassigned;
    ReassignedIs(m, d, k);
    m' := Reassigned(m, d, k);
    SubsetSize(m.Keys, m'.Keys + {d});
  }

  /** A detection `k` no earlier than `d` that fits the earliest open event `t` for `d` also
      fits any other open event that `d` fits: its window ends no earlier. */
  lemma LaterFits(truth: seq<Truth>, dets: seq<Detection>, rule: nat, d: nat, k: nat, taken: set<nat>, t: nat, u: nat)
    requires RightSorted(truth, rule) && TimeSorted(dets) && d < |dets|
    requires Pick(truth, taken, rule, dets[d].at, 0) == Some(t)
    requires d < k && u != t && u !in taken && Fits(truth, dets, rule, d, u) && Fits(truth, dets, rule, k, t)
    ensures Fits(truth, dets, rule, k, u)
  {
    assert t < u;
    assert dets[d].at <= dets[k].at <= Right(truth[t]) <= Right(truth[u]);
  }

  /** The exchange: if `t` is the earliest open event whose window holds detection `d`, an
      assignment can be rearranged so that giving up `d` and `t` costs one pair only. */
  lemma Exchange(truth: seq<Truth>, dets: seq<Detection>, rule: nat, d: nat, taken: set<nat>, t: nat, m: map<nat, nat>)
    returns (m': map<nat, nat>)
    requires RightSorted(truth, rule) && TimeSorted(dets) && d < |dets|
    requires Pick(truth, taken, rule, dets[d].at, 0) == Some(t)
    requires Assignment(truth, dets, rule, d, taken, m)
    ensures Assignment(truth, dets, rule, d + 1, taken + {t}, m')
    ensures |m'| >= |m| - 1
  {
    hide RightSorted, TimeSorted, Pick, Fits;
    if d !in m {
      m' := Unanswer(truth, dets, rule, d, taken, t, m);
    } else if k :| k in m && k != d && m[k] == t {
      LaterFits(truth, dets, rule, d, k, taken, t, m[d]);
      m' := HandOver(truth, dets, rule, d, taken, k, m);
    } else {
      Without(truth, dets, rule, d, taken, m, d);
      m' := m - {d};
    }
    Beyond(truth, dets, rule, d, taken, t, m');
  }

  /** A detection that greedily matches nothing fits no event that is left. */
  lemma Unmatched(truth: seq<Truth>, dets: seq<Detection>, rule: nat, d: nat, taken: set<nat>, m: map<nat, nat>)
    requires LeftSorted(truth, rule) && d < |dets| && Assignment(truth, dets, rule, d, taken, m)
    requires dets[d].rule != rule || Pick(truth, taken, rule, dets[d].at, 0).None?
    ensures Assignment(truth, dets, rule, d + 1, taken, m)
  {
    if d in m {
      PickNone(truth, taken, rule, dets[d].at, 0);
      assert Open(truth, taken, rule, m[d]);
    }
  }

  lemma NothingLeft(truth: seq<Truth>, dets: seq<Detection>, rule: nat, taken: set<nat>, m: map<nat, nat>)
    requires Assignment(truth, dets, rule, |dets|, taken, m)
    ensures |m| == 0
  {
    assert m == map[];
  }

  /** No assignment of the remaining detections to the remaining events is larger than
      what the greedy matcher still finds. */
  lemma {:induction false} GreedyFromHere(truth: seq<Truth>, dets: seq<Detection>, rule: nat, d: nat, m: map<nat, nat>)
    requires LeftSorted(truth, rule) && RightSorted(truth, rule) && TimeSorted(dets) && d <= |dets|
    requires Assignment(truth, dets, rule, d, Greedy(truth, dets, rule, d).Values, m)
    ensures |Greedy(truth, dets, rule, d)| + |m| <= |Greedy(truth, dets, rule, |dets|)|
    decreases |dets| - d
  {
    hide Assignment, Greedy, Pick, LeftSorted, RightSorted, TimeSorted;
    var g := Greedy(truth, dets, rule, d);
    if d == |dets| {
      NothingLeft(truth, dets, rule, g.Values, m);
    } else if dets[d].rule != rule || Pick(truth, g.Values, rule, dets[d].at, 0).None? {
      Unmatched(truth, dets, rule, d, g.Values, m);
      GreedyStays(truth, dets, rule, d);
      GreedyFromHere(truth, dets, rule, d + 1, m);
    } else {
      var t := Pick(truth, g.Values, rule, dets[d].at, 0).value;
      var m' := Exchange(truth, dets, rule, d, g.Values, t, m);
      GreedyGrows(truth, dets, rule, d);
      GreedyFromHere(truth, dets, rule, d + 1, m');
    }
  }

  lemma GreedyStays(truth: seq<Truth>, dets: seq<Detection>, rule: nat, d: nat)
    requires d < |dets|
    requires dets[d].rule != rule || Pick(truth, Greedy(truth, dets, rule, d).Values, rule, dets[d].at, 0).None?
    ensures Greedy(truth, dets, rule, d + 1) == Greedy(truth, dets, rule, d)
  {
  }

  /** A detection that is matched adds one pair, and its event to the taken ones. */
  lemma GreedyGrows(truth: seq<Truth>, dets: seq<Detection>, rule: nat, d: nat)
    requires d < |dets| && dets[d].rule == rule
    requires Pick(truth, Greedy(truth, dets, rule, d).Values, rule, dets[d].at, 0).Some?
    ensures var g := Greedy(truth, dets, rule, d);
            var t := Pick(truth, g.Values, rule, dets[d].at, 0).value;
            && Greedy(truth, dets, rule, d + 1) == g[d := t]
            && |Greedy(truth, dets, rule, d + 1)| == |g| + 1
            && Greedy(truth, dets, rule, d + 1).Values == g.Values + {t}
  {
    var g := Greedy(truth, dets, rule, d);
    var t := Pick(truth, g.Values, rule, dets[d].at, 0).value;
    GreedyIsAssignment(truth, dets, rule, d);
    assert Greedy(truth, dets, rule, d + 1) == g[d := t];
    hide Assignment, Pick, Greedy;
    NewPair(g, d, t);
  }

  lemma NewPair(g: map<nat, nat>, d: nat, t: nat)
    requires d !in g
    ensures |g[d := t]| == |g| + 1 && g[d := t].Values == g.Values + {t}
  {
    var g' := g[d := t];
    assert g'.Keys == g.Keys + {d};
    forall v | v in g.Values + {t} ensures v in g'.Values {
      if v in g.Values {
        var i :| i in g && g[i] == v;
        assert g'[i] == v;
      } else {
        assert g'[d] == v;
      }
    }
  }

  /** Greedy is optimal: when both ends of the rule's windows are in order and detections
      come in time order, no one-to-one in-window assignment is larger. */
  lemma GreedyIsOptimal(truth: seq<Truth>, dets: seq<Detection>, rule: nat, m: map<nat, nat>)
    requires LeftSorted(truth, rule) && RightSorted(truth, rule) && TimeSorted(dets)
    requires Assignment(truth, dets, rule, 0, {}, m)
    ensures |m| <= |Greedy(truth, dets, rule, |dets|)|
  {
    GreedyFromHere(truth, dets, rule, 0, m);
  }

  /** Events with one match window for all of a rule's events, in time order. */
  predicate UniformWindows(truth: seq<Truth>, rule: nat) {
    forall s, t :: 0 <= s < t < |truth| && truth[s].rule == rule && truth[t].rule == rule ==>
      truth[s].at <= truth[t].at && truth[s].before == truth[t].before && truth[s].after == truth[t].after
  }

  /** Events of a rule further apart than their match windows. */
  predicate ApartWindows(truth: seq<Truth>, rule: nat) {
    && (forall t :: 0 <= t < |truth| && truth[t].rule == rule ==> Left(truth[t]) <= Right(truth[t]))
    && (forall s, t :: 0 <= s < t < |truth| && truth[s].rule == rule && truth[t].rule == rule ==>
          Right(truth[s]) < Left(truth[t]))
  }

  lemma CommonScenesAreSorted(truth: seq<Truth>, rule: nat)
    requires UniformWindows(truth, rule) || ApartWindows(truth, rule)
    ensures LeftSorted(truth, rule) && RightSorted(truth, rule)
  {
    forall s, t | 0 <= s < t < |truth| && truth[s].rule == rule && truth[t].rule == rule
      ensures Left(truth[s]) <= Left(truth[t]) && Right(truth[s]) <= Right(truth[t])
    {
    }
  }

  // ---------------------------------------------------------------- half optimal

  lemma {:induction false} GreedyHalf(truth: seq<Truth>, dets: seq<Detection>, rule: nat, d: nat, m: map<nat, nat>)
    requires LeftSorted(truth, rule) && d <= |dets|
    requires Assignment(truth, dets, rule, d, Greedy(truth, dets, rule, d).Values, m)
    ensures 2 * |Greedy(truth, dets, rule, d)| + |m| <= 2 * |Greedy(truth, dets, rule, |dets|)|
    decreases |dets| - d
  {
    hide Assignment, Greedy, Pick, LeftSorted, RightSorted, TimeSorted;
    var g := Greedy(truth, dets, rule, d);
    if d == |dets| {
      NothingLeft(truth, dets, rule, g.Values, m);
    } else if dets[d].rule != rule || Pick(truth, g.Values, rule, dets[d].at, 0).None? {
      Unmatched(truth, dets, rule, d, g.Values, m);
      GreedyStays(truth, dets, rule, d);
      GreedyHalf(truth, dets, rule, d + 1, m);
    } else {
      var t := Pick(truth, g.Values, rule, dets[d].at, 0).value;
      var m' := DropBoth(truth, dets, rule, d, g.Values, t, m);
      GreedyGrows(truth, dets, rule, d);
      GreedyHalf(truth, dets, rule, d + 1, m');
    }
  }

  /** With only the left ends in order (windows of different lengths, detections in any
      order) the greedy matcher still finds at least half of the best assignment. */
  lemma GreedyIsHalfOptimal(truth: seq<Truth>, dets: seq<Detection>, rule: nat, m: map<nat, nat>)
    requires LeftSorted(truth, rule) && Assignment(truth, dets, rule, 0, {}, m)
    ensures |m| <= 2 * |Greedy(truth, dets, rule, |dets|)|
  {
    GreedyHalf(truth, dets, rule, 0, m);
  }

  // ---------------------------------------------------------------- the early exit

  /** The earliest open event whose window holds `at`, looking at every event. */
  function Earliest(truth: seq<Truth>, taken: set<nat>, rule: nat, at: int, t: nat): Option<nat>
    requires t <= |truth|
    decreases |truth| - t
  {
    if t == |truth| then None
    else if Open(truth, taken, rule, t) && InWindow(truth[t], at) then Some(t)
    else Earliest(truth, taken, rule, at, t + 1)
  }

  /** No later event's window begins before an earlier event's, empty windows aside. */
  predicate ExitHarmless(truth: seq<Truth>, rule: nat) {
    forall s, t :: 0 <= s < t < |truth| && truth[s].rule == rule && truth[t].rule == rule ==>
      Left(truth[s]) <= Left(truth[t]) || Right(truth[t]) < Left(truth[t])
  }

  lemma {:induction false} NoneEarliest(truth: seq<Truth>, taken: set<nat>, rule: nat, at: int, t: nat)
    requires t <= |truth|
    requires forall s :: t <= s < |truth| && Open(truth, taken, rule, s) ==> !InWindow(truth[s], at)
    ensures Earliest(truth, taken, rule, at, t).None?
    decreases |truth| - t
  {
    if t < |truth| {
      NoneEarliest(truth, taken, rule, at, t + 1);
    }
  }

  lemma {:induction false} ExitFindsEarliest(truth: seq<Truth>, taken: set<nat>, rule: nat, at: int, t: nat)
    requires t <= |truth| && ExitHarmless(truth, rule)
    ensures Pick(truth, taken, rule, at, t) == Earliest(truth, taken, rule, at, t)
    decreases |truth| - t
  {
    if t < |truth| {
      if Open(truth, taken, rule, t) && at < Left(truth[t]) {
        NoneEarliest(truth, taken, rule, at, t);
      } else {
        ExitFindsEarliest(truth, taken, rule, at, t + 1);
      }
    }
  }

  function Below(n: nat): (r: set<nat>)
    ensures forall i: nat :: i in r <==> i < n
  {
    if n == 0 then {} else Below(n - 1) + {n - 1}
  }

  lemma {:induction false} BelowSize(n: nat)
    ensures |Below(n)| == n
  {
    if n > 0 {
      BelowSize(n - 1);
    }
  }

  /** The loop does not get past an open event whose window has not begun yet. */
  lemma {:induction false} PickStops(truth: seq<Truth>, taken: set<nat>, rule: nat, at: int, i: nat, s: nat)
    requires i <= s < |truth| && Open(truth, taken, rule, s) && at < Left(truth[s])
    ensures Pick(truth, taken, rule, at, i).Some? ==> Pick(truth, taken, rule, at, i).value < s
    decreases s - i
  {
    if i < s {
      PickStops(truth, taken, rule, at, i + 1, s);
    }
  }

  lemma {:induction false} EarliestFinds(truth: seq<Truth>, taken: set<nat>, rule: nat, at: int, i: nat, t: nat)
    requires i <= t < |truth| && Open(truth, taken, rule, t) && InWindow(truth[t], at)
    ensures Earliest(truth, taken, rule, at, i).Some?
    decreases t - i
  {
    if i < t {
      EarliestFinds(truth, taken, rule, at, i + 1, t);
    }
  }

  /** In scoring these detections, each one of the rule takes the earliest event that is
      still unmatched and whose window holds it. */
  predicate TakesEarliest(truth: seq<Truth>, dets: seq<Detection>, rule: nat) {
    forall d :: 0 <= d < |dets| && dets[d].rule == rule ==> TakesEarliestAt(truth, dets, rule, d)
  }

  predicate TakesEarliestAt(truth: seq<Truth>, dets: seq<Detection>, rule: nat, d: nat)
    requires d < |dets|
  {
    var taken := Greedy(truth, dets, rule, d).Values;
    Pick(truth, taken, rule, dets[d].at, 0) == Earliest(truth, taken, rule, dets[d].at, 0)
  }

  function Crowd(n: nat, rule: nat, at: int): seq<Detection> {
    seq(n, i => Detection(rule, at, None))
  }

  /** Two events of the rule in the wrong order, and detections at the very start of the later
      event's window: as long as each takes the earliest event, it takes one before `s`. */
  lemma {:induction false} CrowdTakes(truth: seq<Truth>, rule: nat, s: nat, t: nat, n: nat, d: nat)
    requires s < t < |truth| && truth[s].rule == rule && truth[t].rule == rule && d <= n
    requires Left(truth[t]) < Left(truth[s]) && Left(truth[t]) <= Right(truth[t])
    requires TakesEarliest(truth, Crowd(n, rule, Left(truth[t])), rule)
    ensures var taken := Greedy(truth, Crowd(n, rule, Left(truth[t])), rule, d).Values;
            |taken| == d && taken <= Below(s)
  {
    hide Greedy, Pick, Earliest, Below, TakesEarliest;
    var at := Left(truth[t]);
    var dets := Crowd(n, rule, at);
    if d == 0 {
      GreedyStarts(truth, dets, rule);
    } else {
      CrowdTakes(truth, rule, s, t, n, d - 1);
      var taken := Greedy(truth, dets, rule, d - 1).Values;
      PickStops(truth, taken, rule, at, 0, s);
      EarliestFinds(truth, taken, rule, at, 0, t);
      CrowdTakesOne(truth, dets, rule, d - 1);
      GreedyGrows(truth, dets, rule, d - 1);
    }
  }

  lemma GreedyStarts(truth: seq<Truth>, dets: seq<Detection>, rule: nat)
    ensures Greedy(truth, dets, rule, 0).Values == {}
  {
  }

  lemma CrowdTakesOne(truth: seq<Truth>, dets: seq<Detection>, rule: nat, d: nat)
    requires d < |dets| && dets[d].rule == rule && TakesEarliest(truth, dets, rule)
    ensures TakesEarliestAt(truth, dets, rule, d)
  {
  }

  /** More such detections than there are events cannot each take one. */
  lemma CrowdMisses(truth: seq<Truth>, rule: nat, s: nat, t: nat)
    requires s < t < |truth| && truth[s].rule == rule && truth[t].rule == rule
    requires Left(truth[t]) < Left(truth[s]) && Left(truth[t]) <= Right(truth[t])
    ensures !TakesEarliest(truth, Crowd(s + 1, rule, Left(truth[t])), rule)
  {
    var dets := Crowd(s + 1, rule, Left(truth[t]));
    if TakesEarliest(truth, dets, rule) {
      hide TakesEarliest, Greedy, Below;
      CrowdTakes(truth, rule, s, t, s + 1, s + 1);
      SubsetSize(Greedy(truth, dets, rule, s + 1).Values, Below(s));
      BelowSize(s);
    }
  }

  /** "Each detection takes the earliest still-unmatched event whose window contains it"
      is true of the scoring of all detections in time order exactly when no later event's
      window begins before an earlier one's.  Events in time order are not enough. */
  lemma EarlyExitExactly(truth: seq<Truth>, rule: nat)
    ensures ExitHarmless(truth, rule) <==>
            forall dets: seq<Detection> :: TimeSorted(dets) ==> TakesEarliest(truth, dets, rule)
  {
    if ExitHarmless(truth, rule) {
      forall dets: seq<Detection> | TimeSorted(dets) ensures TakesEarliest(truth, dets, rule) {
        forall d | 0 <= d < |dets| && dets[d].rule == rule ensures TakesEarliestAt(truth, dets, rule, d) {
          ExitFindsEarliest(truth, Greedy(truth, dets, rule, d).Values, rule, dets[d].at, 0);
        }
      }
    } else {
      var s, t :| 0 <= s < t < |truth| && truth[s].rule == rule && truth[t].rule == rule
               && !(Left(truth[s]) <= Left(truth[t]) || Right(truth[t]) < Left(truth[t]));
      var dets := Crowd(s + 1, rule, Left(truth[t]));
      assert TimeSorted(dets);
      CrowdMisses(truth, rule, s, t);
    }
  }

  /** Two events in the wrong order, and a detection at the start of the second one's window. */
  lemma MissesTheEvent(truth: seq<Truth>, dets: seq<Detection>)
    requires |truth| == 2 && |dets| == 1 && truth[0].rule == truth[1].rule == dets[0].rule == 0
    requires dets[0].at == Left(truth[1]) <= Right(truth[1]) && Left(truth[1]) < Left(truth[0])
    ensures |Greedy(truth, dets, 0, 1)| == 0
    ensures Assignment(truth, dets, 0, 0, {}, map[0 := 1])
  {
    GreedyStarts(truth, dets, 0);
    PickStops(truth, {}, 0, dets[0].at, 0, 0);
    GreedyStays(truth, dets, 0, 0);
    assert Greedy(truth, dets, 0, 0) == map[];
    hide Pick, Greedy;
    assert Fits(truth, dets, 0, 0, 1);
  }
}
