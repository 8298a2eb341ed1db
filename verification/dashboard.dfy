/** The derived views of dashboard/src/pages/Dashboard.tsx: the stat cards,
    the five most recent tasks and the active-projects panel. Each query's
    data is `None` until it has loaded. */
module Dashboard {
  import opened Wrappers
  import opened Domain
  import Seqs
  import Arith

  predicate IsActive(p: Project) { p.status == ProjectActive }

  predicate IsCompleted(t: Task) { t.status == Completed }

  predicate IsRunning(a: Agent) { a.status == AgentRunning }

  datatype Stats = Stats(
    totalProjects: nat,
    activeProjects: nat,
    totalTasks: nat,
    completedTasks: nat,
    successRate: nat,
    activeAgents: nat)

  /** `Math.round(completed / total * 100)` for a non-empty task list, and 0
      for an empty or absent one. */
  function SuccessRate(completed: nat, total: nat): (rate: nat)
    requires completed <= total
    ensures total == 0 ==> rate == 0
    ensures total > 0 ==> 2 * rate * total <= 200 * completed + total < 2 * (rate + 1) * total
    ensures rate <= 100
  {
    if total == 0 then 0
    else
      Arith.PercentAtMostHundred(completed, total);
      Arith.RoundHalfUp(100 * completed, total)
  }

  /** The `stats` object: counts over whatever has loaded, 0 for data that
      has not. */
  function StatsOf(projects: Option<seq<Project>>, agents: Option<seq<Agent>>, tasks: Option<seq<Task>>): (s: Stats)
    ensures projects.None? ==> s.totalProjects == 0 && s.activeProjects == 0
    ensures tasks.None? ==> s.totalTasks == 0 && s.completedTasks == 0 && s.successRate == 0
    ensures agents.None? ==> s.activeAgents == 0
    ensures projects.Some? ==> s.totalProjects == |projects.value|
    ensures tasks.Some? ==> s.totalTasks == |tasks.value|
    ensures s.activeProjects <= s.totalProjects && s.completedTasks <= s.totalTasks
    ensures s.successRate <= 100
    ensures s.totalTasks == 0 ==> s.successRate == 0
    ensures s.successRate == SuccessRate(s.completedTasks, s.totalTasks)
  {
    var ps := projects.GetOr([]);
    var ts := tasks.GetOr([]);
    var as_ := agents.GetOr([]);
    var completed := |Seqs.Filter(ts, IsCompleted)|;
    Stats(|ps|, |Seqs.Filter(ps, IsActive)|, |ts|, completed,
          SuccessRate(completed, |ts|), |Seqs.Filter(as_, IsRunning)|)
  }

  /** Each count is the number of positions whose record has the counted
      status. */
  lemma StatsCount(projects: seq<Project>, agents: seq<Agent>, tasks: seq<Task>)
    ensures var s := StatsOf(Some(projects), Some(agents), Some(tasks));
      && s.activeProjects == |Seqs.Matching(projects, IsActive)|
      && s.completedTasks == |Seqs.Matching(tasks, IsCompleted)|
      && s.activeAgents == |Seqs.Matching(agents, IsRunning)|
  {
    Seqs.FilterCountsMatches(projects, IsActive);
    Seqs.FilterCountsMatches(tasks, IsCompleted);
    Seqs.FilterCountsMatches(agents, IsRunning);
  }

  /** All tasks completed is a 100% success rate, none completed is 0%. */
  lemma SuccessRateExtremes(total: nat)
    requires total > 0
    ensures SuccessRate(total, total) == 100
    ensures SuccessRate(0, total) == 0
  {
    var q := SuccessRate(total, total);
    Arith.MulMonotone(q + 1, 100, total);
    var z := SuccessRate(0, total);
    Arith.MulMonotone(1, z, total);
  }

  /** Newest first: no task is older than a task after it. */
  predicate NewestFirst(ts: seq<Task>) {
    forall i, j :: 0 <= i < j < |ts| ==> ts[i].createdAt >= ts[j].createdAt
  }

  /** Inserts `t` into a newest-first list ahead of every task that is not
      newer than it, so that of two tasks with the same time the one that
      came first stays first. */
  function Insert(t: Task, ts: seq<Task>): (r: seq<Task>)
    requires NewestFirst(ts)
    ensures NewestFirst(r)
    ensures multiset(r) == multiset(ts) + multiset{t}
    ensures |r| == |ts| + 1
  {
    if |ts| == 0 || ts[0].createdAt <= t.createdAt then
      PrependNewest(t, ts);
      [t] + ts
    else
      var rest := Insert(t, ts[1..]);
      assert ts == [ts[0]] + ts[1..];
      forall x | x in rest ensures x.createdAt <= ts[0].createdAt {
        assert x in multiset(rest);
        if x != t {
          assert x in ts[1..];
        }
      }
      PrependNewest(ts[0], rest);
      [ts[0]] + rest
  }

  /** A task no older than every task of a newest-first list may go first. */
  lemma PrependNewest(x: Task, s: seq<Task>)
    requires NewestFirst(s)
    requires forall y :: y in s ==> y.createdAt <= x.createdAt
    ensures NewestFirst([x] + s)
  {
    var r := [x] + s;
    forall i, j | 0 <= i < j < |r| ensures r[i].createdAt >= r[j].createdAt {
      if i == 0 {
        assert r[j] == s[j - 1];
      } else {
        assert r[i] == s[i - 1] && r[j] == s[j - 1];
      }
    }
  }

  /** `tasks.sort((a, b) => time(b) - time(a))`: the tasks, newest first. */
  function SortNewestFirst(ts: seq<Task>): (r: seq<Task>)
    ensures NewestFirst(r)
    ensures multiset(r) == multiset(ts)
  {
    if |ts| == 0 then []
    else
      assert ts == [ts[0]] + ts[1..];
      Insert(ts[0], SortNewestFirst(ts[1..]))
  }

  /** `recentTasks`: the first five of the sorted tasks, none before the
      tasks have loaded. */
  function RecentTasks(tasks: Option<seq<Task>>): (r: seq<Task>)
    ensures tasks.None? ==> r == []
    ensures tasks.Some? ==> |r| == if |tasks.value| < 5 then |tasks.value| else 5
    ensures NewestFirst(r)
    ensures tasks.Some? ==> multiset(r) <= multiset(tasks.value)
  {
    match tasks
    case None => []
    case Some(ts) =>
      var sorted := SortNewestFirst(ts);
      var r := Seqs.Take(sorted, 5);
      assert sorted == r + sorted[|r|..];
      r
  }

  /** The recent tasks are the newest ones: every task left out is no newer
      than the last one shown. */
  lemma RecentTasksAreNewest(ts: seq<Task>)
    ensures var r := RecentTasks(Some(ts));
      forall t :: t in multiset(ts) - multiset(r) ==> |r| == 5 && t.createdAt <= r[4].createdAt
  {
    var sorted := SortNewestFirst(ts);
    var r := RecentTasks(Some(ts));
    LeftOut(ts);
    if |sorted| > 5 {
      NoNewerAfter(sorted, 5);
      assert r[4] == sorted[4];
    }
  }

  /** The tasks `recentTasks` leaves out are the sorted list after its first five. */
  lemma {:induction false} LeftOut(ts: seq<Task>)
    ensures var sorted := SortNewestFirst(ts);
      var r := RecentTasks(Some(ts));
      && (|sorted| <= 5 ==> multiset(ts) - multiset(r) == multiset{})
      && (|sorted| > 5 ==> r == sorted[..5] && multiset(ts) - multiset(r) == multiset(sorted[5..]))
  {
    var sorted := SortNewestFirst(ts);
    var r := Seqs.Take(sorted, 5);
    var rest := sorted[|r|..];
    assert sorted == r + rest;
    assert multiset(sorted) == multiset(r) + multiset(rest);
  }

  /** In a newest-first list nothing after position `n` is newer than the
      task just before it. */
  lemma NoNewerAfter(s: seq<Task>, n: nat)
    requires NewestFirst(s) && 0 < n <= |s|
    ensures forall t :: t in multiset(s[n..]) ==> t.createdAt <= s[n - 1].createdAt
  {
    forall t | t in multiset(s[n..]) ensures t.createdAt <= s[n - 1].createdAt {
      assert t in s[n..];
      var k :| 0 <= k < |s[n..]| && s[n..][k] == t;
      assert s[n + k] == t;
    }
  }

  /** What the active-projects panel shows: a list of projects, or the
      "No active projects" placeholder. */
  datatype Panel = Listed(projects: seq<Project>) | NoActiveProjects

  /** The active projects, at most five, in list order. */
  function ActiveFive(ps: seq<Project>): (r: seq<Project>)
    ensures |r| <= 5
    ensures forall p :: p in r ==> IsActive(p) && p in ps
    ensures |r| == 0 <==> forall i :: 0 <= i < |ps| ==> !IsActive(ps[i])
    ensures var active := Seqs.Filter(ps, IsActive);
      && |r| == (if |active| < 5 then |active| else 5)
      && r == active[..|r|]
  {
    var active := Seqs.Filter(ps, IsActive);
    var r := Seqs.Take(active, 5);
    assert forall p :: p in r ==> p in active;
    Seqs.FilterEmpty(ps, IsActive);
    r
  }

  /** The panel as written: `list || placeholder`. An array is truthy even
      when empty, so the placeholder appears only while the projects have
      not loaded. */
  function ActivePanelAsWritten(projects: Option<seq<Project>>): (panel: Panel)
    ensures panel == NoActiveProjects <==> projects.None?
    ensures panel.Listed? ==> |panel.projects| <= 5 && forall p :: p in panel.projects ==> IsActive(p)
    ensures panel.Listed? ==>
              var active := Seqs.Filter(projects.value, IsActive);
              && |panel.projects| == (if |active| < 5 then |active| else 5)
              && panel.projects == active[..|panel.projects|]
  {
    match projects
    case None => NoActiveProjects
    case Some(ps) => Listed(ActiveFive(ps))
  }

  /** With the projects loaded and none of them active, the panel as
      written shows an empty list and no placeholder, where the intended
      panel shows the placeholder. */
  lemma EmptyPanelAsWritten(ps: seq<Project>)
    requires forall i :: 0 <= i < |ps| ==> !IsActive(ps[i])
    ensures ActivePanelAsWritten(Some(ps)) == Listed([])
    ensures ActivePanel(Some(ps)) == NoActiveProjects
  {
  }

  /** In every other case the two panels agree. */
  lemma PanelsAgreeOtherwise(projects: Option<seq<Project>>)
    requires projects.None? || exists i :: 0 <= i < |projects.value| && IsActive(projects.value[i])
    ensures ActivePanelAsWritten(projects) == ActivePanel(projects)
  {
  }

  /** The panel as evidently intended, and as the recent-tasks panel next to
      it does: the placeholder whenever there is no active project to list. */
  function ActivePanel(projects: Option<seq<Project>>): (panel: Panel)
    ensures panel == NoActiveProjects <==>
              projects.None? || forall i :: 0 <= i < |projects.value| ==> !IsActive(projects.value[i])
    ensures panel.Listed? ==>
              && 1 <= |panel.projects| <= 5
              && (forall p :: p in panel.projects ==> IsActive(p) && p in projects.value)
    ensures panel.Listed? ==>
              var active := Seqs.Filter(projects.value, IsActive);
              && |panel.projects| == (if |active| < 5 then |active| else 5)
              && panel.projects == active[..|panel.projects|]
  {
    match projects
    case None => NoActiveProjects
    case Some(ps) =>
      var r := ActiveFive(ps);
      if |r| == 0 then NoActiveProjects else Listed(r)
  }
}
