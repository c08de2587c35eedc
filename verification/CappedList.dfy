/** Redis lists kept to their newest entries by an LPUSH followed by an LTRIM,
    which other workers may separate. */
module CappedList {

  const CAP := 100

  /** pushed: everything ever pushed, newest first; untrimmed: workers between
      their LPUSH and their LTRIM. */
  datatype State<T> = State(list: seq<T>, pushed: seq<T>, untrimmed: nat)

  datatype Action<T> = LPush(x: T) | LTrim

  predicate Enabled<T>(s: State<T>, a: Action<T>) {
    a.LTrim? ==> s.untrimmed > 0
  }

  function First<T>(s: seq<T>, n: nat): seq<T> {
    if |s| <= n then s else s[..n]
  }

  function Next<T>(s: State<T>, a: Action<T>): State<T>
    requires Enabled(s, a)
  {
    match a
    case LPush(x) => State([x] + s.list, [x] + s.pushed, s.untrimmed + 1)
    case LTrim => State(First(s.list, CAP), s.pushed, s.untrimmed - 1)
  }

  ghost predicate Run<T>(s: State<T>, actions: seq<Action<T>>, t: State<T>)
    decreases |actions|
  {
    if actions == [] then s == t
    else Enabled(s, actions[0]) && Run(Next(s, actions[0]), actions[1..], t)
  }

  ghost predicate KeepsNewest<T>(s: State<T>) {
    && s.list <= s.pushed
    && (|s.list| >= CAP || s.list == s.pushed)
    && |s.list| <= CAP + s.untrimmed
  }

  lemma NextKeepsNewest<T>(s: State<T>, a: Action<T>)
    requires Enabled(s, a) && KeepsNewest(s)
    ensures KeepsNewest(Next(s, a))
  {
    if a.LPush? {
      assert s.pushed == s.list + s.pushed[|s.list|..];
      assert [a.x] + s.pushed == [a.x] + s.list + s.pushed[|s.list|..];
    }
  }

  lemma {:induction false} RunKeepsNewest<T>(s: State<T>, actions: seq<Action<T>>, t: State<T>)
    requires KeepsNewest(s) && Run(s, actions, t)
    ensures KeepsNewest(t)
    decreases |actions|
  {
    if actions == [] {
    } else {
      NextKeepsNewest(s, actions[0]);
      RunKeepsNewest(Next(s, actions[0]), actions[1..], t);
    }
  }

  /** What the actions push, newest first. */
  ghost function Pushes<T>(actions: seq<Action<T>>): seq<T>
    decreases |actions|
  {
    if actions == [] then []
    else Pushes(actions[1..]) + if actions[0].LPush? then [actions[0].x] else []
  }

  /** Pushes that have not been followed by their trim. */
  ghost function TrimsDue<T>(actions: seq<Action<T>>): int
    decreases |actions|
  {
    if actions == [] then 0 else (if actions[0].LPush? then 1 else -1) + TrimsDue(actions[1..])
  }

  lemma {:induction false} RunPushes<T>(s: State<T>, actions: seq<Action<T>>, t: State<T>)
    requires Run(s, actions, t)
    ensures t.pushed == Pushes(actions) + s.pushed && t.untrimmed == s.untrimmed + TrimsDue(actions)
    decreases |actions|
  {
    if actions == [] {
    } else {
      RunPushes(Next(s, actions[0]), actions[1..], t);
    }
  }

  /** From the empty list on, at every moment of every interleaving: the first 100
      entries are the newest 100 pushes, the list is over its cap by no more than the
      trims that are due, and when none is it holds exactly the newest. */
  lemma NewestAlwaysFirst<T>(actions: seq<Action<T>>, t: State<T>)
    requires Run(State([], [], 0), actions, t)
    ensures First(t.list, 100) == First(Pushes(actions), 100)
    ensures |t.list| <= 100 + TrimsDue(actions)
    ensures TrimsDue(actions) == 0 ==> t.list == First(Pushes(actions), 100)
  {
    RunKeepsNewest(State([], [], 0), actions, t);
    RunPushes(State([], [], 0), actions, t);
    assert Pushes(actions) + [] == Pushes(actions);
  }

  /** Every interleaving in which no trim comes before its push is a run. */
  lemma {:induction false} EveryInterleavingRuns<T>(s: State<T>, actions: seq<Action<T>>) returns (t: State<T>)
    requires forall n :: 0 <= n <= |actions| ==> s.untrimmed + TrimsDue(actions[..n]) >= 0
    ensures Run(s, actions, t)
    decreases |actions|
  {
    if actions == [] {
      t := s;
    } else {
      assert actions[..1] == [actions[0]] && TrimsDue([actions[0]][1..]) == 0;
      assert s.untrimmed + TrimsDue(actions[..1]) >= 0;
      forall n | 0 <= n <= |actions[1..]|
        ensures Next(s, actions[0]).untrimmed + TrimsDue(actions[1..][..n]) >= 0
      {
        assert actions[..n + 1][1..] == actions[1..][..n];
        assert s.untrimmed + TrimsDue(actions[..n + 1]) >= 0;
      }
      t := EveryInterleavingRuns(Next(s, actions[0]), actions[1..]);
    }
  }
}
