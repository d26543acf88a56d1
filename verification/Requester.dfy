/** Which process a confirmation names as the requester, after src/platform/win/utils.rs. */
module Requester {
  import opened Wrappers

  /** Process numbers have 32 bits. */
  const PIDS: nat := 0x1_0000_0000
  type Pid = p: nat | p < PIDS

  datatype Window = Window(handle: nat, pid: Pid, visible: bool)

  datatype Process = Process(pid: Pid, window: Option<Window>)

  function Pids(stack: seq<Process>): (pids: seq<Pid>)
    ensures |pids| == |stack|
  {
    seq(|stack|, k requires 0 <= k < |stack| => stack[k].pid)
  }

  // ------------------------------------------------------------ windows

  predicate Owns(w: Window, pid: Pid) {
    w.pid == pid
  }

  /** Some window of the process, a visible one if it has any; the first such in enumeration order. */
  ghost predicate IsPrimary(windows: seq<Window>, pid: Pid, r: Option<Window>) {
    match r
    case None => forall w :: w in windows ==> !Owns(w, pid)
    case Some(w) =>
      exists k ::
        && 0 <= k < |windows| && windows[k] == w && Owns(w, pid)
        && (forall j :: 0 <= j < k ==> !(Owns(windows[j], pid) && windows[j].visible))
        && (!w.visible ==>
            && (forall v :: v in windows ==> !(Owns(v, pid) && v.visible))
            && (forall j :: 0 <= j < k ==> !Owns(windows[j], pid)))
  }

  method FindPrimaryWindow(windows: seq<Window>, pid: Pid) returns (r: Option<Window>)
    ensures IsPrimary(windows, pid, r)
  {
    var owned: seq<Window> := [];
    ghost var at: seq<nat> := [];
    for i := 0 to |windows|
      invariant |at| == |owned|
      invariant forall a :: 0 <= a < |at| ==> at[a] < i && windows[at[a]] == owned[a] && Owns(owned[a], pid)
      invariant forall a, b :: 0 <= a < b < |at| ==> at[a] < at[b]
      invariant forall j :: 0 <= j < i && Owns(windows[j], pid) ==> j in at
    {
      if Owns(windows[i], pid) {
        owned := owned + [windows[i]];
        at := at + [i];
      }
    }
    if owned == [] {
      return None;
    }
    for a := 0 to |owned|
      invariant forall b :: 0 <= b < a ==> !owned[b].visible
    {
      if owned[a].visible {
        assert windows[at[a]] == owned[a];
        return Some(owned[a]);
      }
    }
    assert windows[at[0]] == owned[0];
    return Some(owned[0]);
  }

  /** A process has a (visible) primary window exactly when it owns any (visible) window. */
  lemma PrimaryReflectsOwnership(windows: seq<Window>, pid: Pid, r: Option<Window>)
    requires IsPrimary(windows, pid, r)
    ensures r.Some? ==> r.value in windows && r.value.pid == pid
    ensures r.Some? <==> exists w :: w in windows && w.pid == pid
    ensures (r.Some? && r.value.visible) <==> exists w :: w in windows && w.pid == pid && w.visible
  {
    if r.Some? {
      assert r.value in windows && Owns(r.value, pid);
    }
    assert forall w :: w in windows ==> (Owns(w, pid) <==> w.pid == pid);
  }

  // ------------------------------------------------------------ ancestry

  /** `k` steps up from `pid`, where `parent` gives 0 when there is no parent, and 0 is not a process. */
  function Ancestor(parent: Pid -> Pid, pid: Pid, k: nat): Pid
    decreases k
  {
    if k == 0 || pid == 0 then pid else Ancestor(parent, parent(pid), k - 1)
  }

  /** No process is its own ancestor. */
  ghost predicate Acyclic(parent: Pid -> Pid) {
    forall pid: Pid, k: nat :: pid != 0 && k > 0 ==> Ancestor(parent, pid, k) != pid
  }

  ghost predicate WalkEnds(parent: Pid -> Pid, start: Pid) {
    exists k: nat :: Ancestor(parent, start, k) == 0
  }

  /** The process, its parent, and so on, up to one that has no parent. */
  ghost predicate IsWalk(pids: seq<Pid>, parent: Pid -> Pid, start: Pid) {
    && (forall k :: 0 <= k < |pids| ==> pids[k] == Ancestor(parent, start, k) && pids[k] != 0)
    && Ancestor(parent, start, |pids|) == 0
  }

  lemma {:induction false} AncestorSum(parent: Pid -> Pid, pid: Pid, j: nat, k: nat)
    ensures Ancestor(parent, pid, j + k) == Ancestor(parent, Ancestor(parent, pid, j), k)
    decreases j
  {
    if j > 0 && pid != 0 {
      AncestorSum(parent, parent(pid), j - 1, k);
    }
  }

  /** Without cycles no process comes up twice on one walk. */
  lemma NoRepeats(parent: Pid -> Pid, start: Pid, i: nat, j: nat)
    requires Acyclic(parent) && i < j && Ancestor(parent, start, i) != 0
    ensures Ancestor(parent, start, i) != Ancestor(parent, start, j)
  {
    AncestorSum(parent, start, i, j - i);
  }

  /** Distinct numbers below `n` are at most `n` many. */
  lemma {:induction false} DistinctBelow(s: seq<Pid>, n: nat)
    requires forall i, j :: 0 <= i < j < |s| ==> s[i] != s[j]
    requires forall i :: 0 <= i < |s| ==> s[i] < n
    ensures |s| <= n
  {
    assert s != [] ==> s[0] < n;
    if n > 0 {
      if i :| 0 <= i < |s| && s[i] == n - 1 {
        var others := s[..i] + s[i + 1..];
        assert forall j :: 0 <= j < |others| ==> others[j] == s[if j < i then j else j + 1];
        DistinctBelow(others, n - 1);
      } else {
        DistinctBelow(s, n - 1);
      }
    }
  }

  /** Without cycles a walk is over before the process numbers run out. */
  lemma WalkIsShort(parent: Pid -> Pid, start: Pid, k: nat)
    requires Acyclic(parent) && Ancestor(parent, start, k) != 0
    ensures k < PIDS
  {
    var pids := seq(k + 1, j requires 0 <= j <= k => Ancestor(parent, start, j));
    forall i, j | 0 <= i < j < |pids|
      ensures pids[i] != pids[j]
    {
      AncestorSum(parent, start, i, k - i);
      StaysZero(parent, k - i);
      NoRepeats(parent, start, i, j);
    }
    DistinctBelow(pids, PIDS);
  }

  /** On a cycle the walk comes back for ever. */
  lemma {:induction false} RoundAndRound(parent: Pid -> Pid, pid: Pid, k: nat, rounds: nat)
    requires Ancestor(parent, pid, k) == pid
    ensures Ancestor(parent, pid, rounds * k) == pid
  {
    if rounds > 0 {
      RoundAndRound(parent, pid, k, rounds - 1);
      assert rounds * k == (rounds - 1) * k + k;
      AncestorSum(parent, pid, (rounds - 1) * k, k);
    }
  }

  lemma {:induction false} StaysZero(parent: Pid -> Pid, k: nat)
    ensures Ancestor(parent, 0, k) == 0
  {
  }

  lemma CycleNeverEnds(parent: Pid -> Pid, pid: Pid, k: nat)
    requires pid != 0 && k > 0 && Ancestor(parent, pid, k) == pid
    ensures !WalkEnds(parent, pid)
  {
    forall n: nat
      ensures Ancestor(parent, pid, n) != 0
    {
      RoundAndRound(parent, pid, k, n);
      assert n * k - n == n * (k - 1) >= 0;
      AncestorSum(parent, pid, n, n * k - n);
      StaysZero(parent, n * k - n);
    }
  }

  /** The walk ends from every process if and only if no process is its own ancestor. */
  lemma WalkEndsExactly(parent: Pid -> Pid)
    ensures (forall start :: WalkEnds(parent, start)) <==> Acyclic(parent)
  {
    if Acyclic(parent) {
      forall start
        ensures WalkEnds(parent, start)
      {
        if Ancestor(parent, start, PIDS) != 0 {
          WalkIsShort(parent, start, PIDS);
        }
      }
    } else {
      var pid: Pid, k: nat :| pid != 0 && k > 0 && Ancestor(parent, pid, k) == pid;
      CycleNeverEnds(parent, pid, k);
    }
  }

  const TWO_CYCLE: Pid -> Pid := pid => if pid == 4 then 8 else if pid == 8 then 4 else 0

  /** Two processes that each took over the number of the other's parent: the walk goes round while both live. */
  lemma CycleExample()
    ensures !WalkEnds(TWO_CYCLE, 4) && !Acyclic(TWO_CYCLE)
  {
    assert Ancestor(TWO_CYCLE, 4, 2) == Ancestor(TWO_CYCLE, 8, 1) == Ancestor(TWO_CYCLE, 4, 0) == 4;
    CycleNeverEnds(TWO_CYCLE, 4, 2);
  }

  // ------------------------------------------------------------ how far there is to go

  /** A walk ends exactly when it ends from the next process on. */
  lemma WalkEndsUp(parent: Pid -> Pid, pid: Pid)
    requires pid != 0
    ensures WalkEnds(parent, pid) <==> WalkEnds(parent, parent(pid))
  {
    if WalkEnds(parent, pid) {
      var k: nat :| Ancestor(parent, pid, k) == 0;
      assert Ancestor(parent, parent(pid), k - 1) == 0;
    }
    if WalkEnds(parent, parent(pid)) {
      var k: nat :| Ancestor(parent, parent(pid), k) == 0;
      assert Ancestor(parent, pid, k + 1) == 0;
    }
  }

  /** The steps of a walk that is known to end within `k`. */
  function StepsWithin(parent: Pid -> Pid, pid: Pid, k: nat): nat
    requires Ancestor(parent, pid, k) == 0
    decreases k
  {
    if pid == 0 then 0 else 1 + StepsWithin(parent, parent(pid), k - 1)
  }

  lemma {:induction false} StepsAgree(parent: Pid -> Pid, pid: Pid, j: nat, k: nat)
    requires Ancestor(parent, pid, j) == 0 && Ancestor(parent, pid, k) == 0
    ensures StepsWithin(parent, pid, j) == StepsWithin(parent, pid, k)
    decreases j
  {
    if pid != 0 {
      StepsAgree(parent, parent(pid), j - 1, k - 1);
    }
  }

  /** The steps still to go, if the walk ends. */
  ghost function WalkLength(parent: Pid -> Pid, pid: Pid): nat {
    if !WalkEnds(parent, pid) then 0
    else
      var k: nat :| Ancestor(parent, pid, k) == 0;
      StepsWithin(parent, pid, k)
  }

  lemma WalkLengthUp(parent: Pid -> Pid, pid: Pid)
    requires pid != 0 && WalkEnds(parent, pid)
    ensures WalkLength(parent, pid) == 1 + WalkLength(parent, parent(pid))
  {
    WalkEndsUp(parent, pid);
    var up := parent(pid);
    var k: nat :| Ancestor(parent, pid, k) == 0 && WalkLength(parent, pid) == StepsWithin(parent, pid, k);
    var j: nat :| Ancestor(parent, up, j) == 0 && WalkLength(parent, up) == StepsWithin(parent, up, j);
    assert StepsWithin(parent, pid, k) == 1 + StepsWithin(parent, up, k - 1);
    StepsAgree(parent, up, j, k - 1);
  }

  /** The walk up the parents, by which the source collects the process and its ancestors. */
  method CollectProcesses(start: Pid, parent: Pid -> Pid, windows: seq<Window>) returns (stack: seq<Process>)
    requires Acyclic(parent)
    ensures IsWalk(Pids(stack), parent, start)
    ensures forall k :: 0 <= k < |stack| ==> IsPrimary(windows, stack[k].pid, stack[k].window)
  {
    hide IsPrimary, Acyclic;
    stack := [];
    var pid := start;
    while pid != 0
      invariant forall k :: 0 <= k < |stack| ==> stack[k].pid == Ancestor(parent, start, k) && stack[k].pid != 0
      invariant pid == Ancestor(parent, start, |stack|)
      invariant forall k :: 0 <= k < |stack| ==> IsPrimary(windows, stack[k].pid, stack[k].window)
      decreases PIDS - |stack|
    {
      WalkIsShort(parent, start, |stack|);
      AncestorSum(parent, start, |stack|, 1);
      var window := FindPrimaryWindow(windows, pid);
      stack := stack + [Process(pid, window)];
      pid := parent(pid);
    }
  }

  // ------------------------------------------------------------ the choice

  predicate Shown(windows: seq<Window>, pid: Pid) {
    exists w :: w in windows && w.pid == pid && w.visible
  }

  predicate Windowed(windows: seq<Window>, pid: Pid) {
    exists w :: w in windows && w.pid == pid
  }

  /** The nearest process owning a visible window, else the nearest owning any window, else the first. */
  ghost predicate IsChoice(pids: seq<Pid>, windows: seq<Window>, k: nat) {
    && k < |pids|
    && if exists j :: 0 <= j < |pids| && Shown(windows, pids[j]) then
         Shown(windows, pids[k]) && forall j :: 0 <= j < k ==> !Shown(windows, pids[j])
       else if exists j :: 0 <= j < |pids| && Windowed(windows, pids[j]) then
         Windowed(windows, pids[k]) && forall j :: 0 <= j < k ==> !Windowed(windows, pids[j])
       else k == 0
  }

  lemma StackReflectsOwnership(stack: seq<Process>, windows: seq<Window>)
    requires forall k :: 0 <= k < |stack| ==> IsPrimary(windows, stack[k].pid, stack[k].window)
    ensures forall k :: 0 <= k < |stack| ==>
                          && (stack[k].window.Some? <==> Windowed(windows, stack[k].pid))
                          && ((stack[k].window.Some? && stack[k].window.value.visible)
                              <==> Shown(windows, stack[k].pid))
  {
    forall k | 0 <= k < |stack|
      ensures stack[k].window.Some? <==> Windowed(windows, stack[k].pid)
      ensures (stack[k].window.Some? && stack[k].window.value.visible) <==> Shown(windows, stack[k].pid)
    {
      PrimaryReflectsOwnership(windows, stack[k].pid, stack[k].window);
    }
  }

  /** The process that the confirmation names. From process 0 there is none to choose, and the source panics. */
  method ChooseRequester(start: Pid, parent: Pid -> Pid, windows: seq<Window>) returns (chosen: Process)
    requires start != 0 && Acyclic(parent)
    ensures exists pids, k: nat ::
              IsWalk(pids, parent, start) && IsChoice(pids, windows, k) && chosen.pid == pids[k]
    ensures IsPrimary(windows, chosen.pid, chosen.window)
  {
    var stack := CollectProcesses(start, parent, windows);
    ghost var pids := Pids(stack);
    StackReflectsOwnership(stack, windows);
    assert |stack| > 0;
    hide IsPrimary, IsWalk, Shown, Windowed;
    for i := 0 to |stack|
      invariant forall j :: 0 <= j < i ==> !Shown(windows, pids[j])
    {
      if stack[i].window.Some? && stack[i].window.value.visible {
        assert IsChoice(pids, windows, i);
        return stack[i];
      }
    }
    for i := 0 to |stack|
      invariant forall j :: 0 <= j < i ==> !Windowed(windows, pids[j])
    {
      if stack[i].window.Some? {
        assert IsChoice(pids, windows, i);
        return stack[i];
      }
    }
    assert IsChoice(pids, windows, 0);
    return stack[0];
  }
}
