/**
 * The pod dependency scheduler: the requirement queue built by `funcPodCntRequire`
 * and the loop of `funcSyncPodContainers` that creates the pod's containers on the
 * destination, the containers they require first.
 *
 * The destination is a set of container names; the reply to a create is an
 * oracle of the destination and the container name.  Python's `for` over a list
 * that the body shrinks is a loop over an index that goes on counting while the
 * elements shift, so the element after a removed one is skipped; the model keeps
 * that index.  The outer `while` has no progress guard, so the whole schedule is
 * given a number of passes.
 */
module Scheduler {
  import opened Text
  import opened Commands
  import opened Inspect

  // ---------------------------------------------------------------------------
  // The requirement queue (funcPodCntRequire)
  // ---------------------------------------------------------------------------

  /** A queue entry, `name:flag:migrated:required`; the migrated field is always `0`. */
  function EntryOf(name: string, flag: string, required: string): string {
    name + ":" + flag + ":0:" + required
  }

  /** The queue entry of one pod member: flagged with the containers it requires, or `None`. */
  function RequireEntry(name: string, cmd: string): string {
    if Contains(cmd, "--requires ") then EntryOf(name, "1", RequiredNames(cmd))
    else EntryOf(name, "0", "None")
  }

  /**
   * The queue for the pod's members in order.  A member whose create command could
   * not be read (`None`) makes the `in` test raise, and the run ends there.
   */
  function RequireQueue(members: seq<string>, cmds: string -> Option<string>): Option<seq<string>>
    decreases |members|
  {
    if members == [] then Some([])
    else
      var last := members[|members| - 1];
      match RequireQueue(members[..|members| - 1], cmds)
      case None => None
      case Some(q) =>
        match cmds(last)
        case None => None
        case Some(c) => Some(q + [RequireEntry(last, c)])
  }

  /** A queue at all exactly when every member's create command was read. */
  lemma {:induction false} RequireQueueSome(members: seq<string>, cmds: string -> Option<string>)
    ensures RequireQueue(members, cmds).Some? <==> forall k :: 0 <= k < |members| ==> cmds(members[k]).Some?
    decreases |members|
  {
    if members != [] {
      var front := members[..|members| - 1];
      RequireQueueSome(front, cmds);
      assert forall k :: 0 <= k < |front| ==> front[k] == members[k];
    }
  }

  /** One entry per member, in order. */
  lemma {:induction false} RequireQueueExact(members: seq<string>, cmds: string -> Option<string>)
    requires RequireQueue(members, cmds).Some?
    ensures |RequireQueue(members, cmds).value| == |members|
    ensures forall k :: 0 <= k < |members| ==>
              cmds(members[k]).Some?
              && RequireQueue(members, cmds).value[k] == RequireEntry(members[k], cmds(members[k]).value)
    decreases |members|
  {
    if members != [] {
      var front := members[..|members| - 1];
      RequireQueueExact(front, cmds);
      assert forall k :: 0 <= k < |front| ==> front[k] == members[k];
    }
  }

  /** Reading one more member's create command extends the queue by that member's entry. */
  lemma RequireQueueGrows(members: seq<string>, i: nat, cmds: string -> Option<string>)
    requires i < |members| && RequireQueue(members[..i], cmds).Some? && cmds(members[i]).Some?
    ensures RequireQueue(members[..i + 1], cmds)
            == Some(RequireQueue(members[..i], cmds).value + [RequireEntry(members[i], cmds(members[i]).value)])
  {
    assert members[..i + 1][..i] == members[..i];
  }

  /** The fields of a queue entry after `re.split(":")`; fewer than four fields make the indexing raise. */
  datatype Entry = Entry(name: string, flag: string, required: string)

  function ParseEntry(e: string): Option<Entry> {
    var parts := Split(e, ":");
    if |parts| < 4 then None else Some(Entry(parts[0], parts[1], parts[3]))
  }

  /** An entry built from colon-free fields reads back as those fields. */
  lemma EntryRoundTrip(name: string, flag: string, required: string)
    requires ':' !in name && ':' !in flag && ':' !in required
    ensures ParseEntry(EntryOf(name, flag, required)) == Some(Entry(name, flag, required))
  {
    var tail := "0" + [':'] + required;
    var mid := flag + [':'] + tail;
    assert ":0:" + required == [':'] + tail;
    ConcatAssoc5(name, [':'], flag, ":0:", required);
    ConcatAssoc(flag, [':'], tail);
    assert EntryOf(name, flag, required) == name + [':'] + mid;
    SplitCharCons(name, ':', mid);
    SplitCharCons(flag, ':', tail);
    SplitCharCons("0", ':', required);
    SplitCharNone(required, ':');
  }

  /** The entry of a member reads back as its name, its flag and the containers it requires. */
  lemma RequireEntryParses(name: string, cmd: string)
    requires ':' !in name
    requires Contains(cmd, "--requires ") ==> ':' !in RequiredNames(cmd)
    ensures ParseEntry(RequireEntry(name, cmd))
            == Some(if Contains(cmd, "--requires ") then Entry(name, "1", RequiredNames(cmd))
                    else Entry(name, "0", "None"))
  {
    if Contains(cmd, "--requires ") {
      EntryRoundTrip(name, "1", RequiredNames(cmd));
    } else {
      EntryRoundTrip(name, "0", "None");
    }
  }

  /** A parsed entry holds a colon. */
  lemma ParsedHasColon(e: string)
    requires ParseEntry(e).Some?
    ensures ':' in e
  {
    if IndexOf(e, ":").None? {
      assert Split(e, ":") == [e];
    }
    ContainsChar(e, ':');
  }

  // ---------------------------------------------------------------------------
  // List operations of the loop
  // ---------------------------------------------------------------------------

  /** Python's `list.remove(x)` for an `x` in the list; the list is unchanged otherwise. */
  function RemoveFirst(q: seq<string>, x: string): (r: seq<string>)
    ensures x in q ==> |r| == |q| - 1 && multiset(r) == multiset(q) - multiset{x}
    ensures x !in q ==> r == q
  {
    if q == [] then []
    else
      assert q == [q[0]] + q[1..];
      assert multiset(q) == multiset{q[0]} + multiset(q[1..]);
      if q[0] == x then q[1..]
      else [q[0]] + RemoveFirst(q[1..], x)
  }

  /** The element removed is the first occurrence. */
  lemma {:induction false} RemoveFirstAt(q: seq<string>, k: nat)
    requires k < |q| && q[k] !in q[..k]
    ensures RemoveFirst(q, q[k]) == q[..k] + q[k + 1..]
  {
    if k > 0 {
      assert q[1..][..k - 1] == q[1..k];
      assert q[1..][k - 1] == q[k];
      assert q[k] != q[0];
      RemoveFirstAt(q[1..], k - 1);
      assert q[1..][k..] == q[k + 1..];
    }
  }

  predicate StartsWith(s: string, p: string) {
    |p| <= |s| && s[..|p|] == p
  }

  /** `filter(lambda x: x.startswith(name), queue)`. */
  function Matching(q: seq<string>, name: string): (m: seq<string>)
    ensures forall e :: e in m ==> e in q && StartsWith(e, name)
    ensures forall k :: 0 <= k < |q| && StartsWith(q[k], name) ==> q[k] in m
  {
    if q == [] then []
    else
      var rest := Matching(q[1..], name);
      assert forall k :: 1 <= k < |q| ==> q[k] == q[1..][k - 1];
      (if StartsWith(q[0], name) then [q[0]] else []) + rest
  }

  /** Two entries starting with the name leave at least two in the filtered list. */
  lemma {:induction false} MatchingTwo(q: seq<string>, name: string, x: nat, y: nat)
    requires x < y < |q| && StartsWith(q[x], name) && StartsWith(q[y], name)
    ensures |Matching(q, name)| >= 2
  {
    assert q[y] == q[1..][y - 1];
    if x == 0 {
      assert q[y] in Matching(q[1..], name);
    } else {
      assert q[x] == q[1..][x - 1];
      MatchingTwo(q[1..], name, x - 1, y - 1);
    }
  }

  /** When exactly one entry starts with the name, the filter yields that entry alone. */
  lemma {:induction false} MatchingOnly(q: seq<string>, name: string, k: nat)
    requires k < |q| && StartsWith(q[k], name)
    requires forall x :: 0 <= x < |q| && x != k ==> !StartsWith(q[x], name)
    ensures Matching(q, name) == [q[k]]
  {
    if k == 0 {
      MatchingNone(q[1..], name);
    } else {
      MatchingOnly(q[1..], name, k - 1);
    }
  }

  lemma {:induction false} MatchingNone(q: seq<string>, name: string)
    requires forall x :: 0 <= x < |q| ==> !StartsWith(q[x], name)
    ensures Matching(q, name) == []
  {
    if q != [] {
      MatchingNone(q[1..], name);
    }
  }

  /**
   * Taking a required container off the queue after it was created: the filtered
   * list is printed, its brackets and quotes removed, and the text removed from
   * the queue.  The text is an entry only when exactly one entry starts with the
   * name; otherwise `remove` raises.
   */
  function DropByPrefix(q: seq<string>, name: string): (r: Option<seq<string>>)
    ensures r.Some? ==> |r.value| == |q| - 1 && multiset(r.value) <= multiset(q)
  {
    var m := Matching(q, name);
    if |m| == 1 then
      assert m[0] in m;
      Some(RemoveFirst(q, m[0]))
    else None
  }

  /** With exactly one entry starting with the name, that entry is the one removed. */
  lemma DropByPrefixSole(q: seq<string>, name: string, k: nat)
    requires k < |q| && StartsWith(q[k], name)
    requires forall x :: 0 <= x < |q| && x != k ==> !StartsWith(q[x], name)
    ensures DropByPrefix(q, name) == Some(q[..k] + q[k + 1..])
  {
    MatchingOnly(q, name, k);
    assert q[k] !in q[..k] by {
      forall x | 0 <= x < k ensures q[..k][x] != q[k] {
        assert !StartsWith(q[x], name);
      }
    }
    RemoveFirstAt(q, k);
  }

  /**
   * The other direction: the removal succeeds only when exactly one entry starts
   * with the name, and then it removes that entry.
   */
  lemma DropByPrefixNeedsSole(q: seq<string>, name: string)
    requires DropByPrefix(q, name).Some?
    ensures exists k :: 0 <= k < |q| && StartsWith(q[k], name)
                        && (forall x :: 0 <= x < |q| && x != k ==> !StartsWith(q[x], name))
                        && DropByPrefix(q, name) == Some(q[..k] + q[k + 1..])
  {
    var m := Matching(q, name);
    assert m[0] in m;
    var k :| 0 <= k < |q| && q[k] == m[0];
    forall x | 0 <= x < |q| && x != k ensures !StartsWith(q[x], name) {
      if StartsWith(q[x], name) {
        if x < k { MatchingTwo(q, name, x, k); } else { MatchingTwo(q, name, k, x); }
      }
    }
    DropByPrefixSole(q, name, k);
  }

  /** The text before the first colon of an entry: its container name. */
  function NameField(e: string): string {
    Split(e, ":")[0]
  }

  lemma NameFieldOf(name: string, rest: string)
    requires ':' !in name
    ensures NameField(name + ":" + rest) == name
  {
    assert name + ":" + rest == name + [':'] + rest;
    SplitCharCons(name, ':', rest);
  }

  /** The removal evidently intended: the first entry whose name field is the name. */
  function DropByName(q: seq<string>, name: string): seq<string> {
    if q == [] then []
    else if NameField(q[0]) == name then q[1..]
    else [q[0]] + DropByName(q[1..], name)
  }

  /** `DropByName` removes the first entry of that container and keeps every other entry in order. */
  lemma {:induction false} DropByNameExact(q: seq<string>, name: string, k: nat)
    requires k < |q| && NameField(q[k]) == name
    requires forall x :: 0 <= x < k ==> NameField(q[x]) != name
    ensures DropByName(q, name) == q[..k] + q[k + 1..]
  {
    var tail := q[1..];
    if k > 0 {
      assert NameField(q[0]) != name;
      forall x | 0 <= x < k - 1 ensures NameField(tail[x]) != name {
        assert tail[x] == q[x + 1];
      }
      DropByNameExact(tail, name, k - 1);
      SplitAround(q, k);
    } else {
      assert q[..k] + q[k + 1..] == tail;
    }
  }

  lemma SplitAround(q: seq<string>, k: nat)
    requires 0 < k < |q|
    ensures q[..k] + q[k + 1..] == [q[0]] + (q[1..][..k - 1] + q[1..][k..])
  {
  }

  /** With no entry for the container, `DropByName` changes nothing. */
  lemma {:induction false} DropByNameAbsent(q: seq<string>, name: string)
    requires forall x :: 0 <= x < |q| ==> NameField(q[x]) != name
    ensures DropByName(q, name) == q
  {
    if q != [] {
      DropByNameAbsent(q[1..], name);
    }
  }

  /**
   * Two queued containers whose names share a prefix: as written, creating the
   * shorter one makes the removal raise; the intended removal takes that
   * container's entry only.
   */
  lemma PrefixNamesCrash(name: string, more: string, rest1: string, rest2: string)
    requires ':' !in name && ':' !in more && more != []
    ensures DropByPrefix([name + ":" + rest1, name + more + ":" + rest2], name) == None
    ensures DropByName([name + ":" + rest1, name + more + ":" + rest2], name) == [name + more + ":" + rest2]
  {
    var q := [name + ":" + rest1, name + more + ":" + rest2];
    assert StartsWith(q[0], name) by { assert q[0][..|name|] == name; }
    assert StartsWith(q[1], name) by { assert q[1][..|name|] == name; }
    assert q[1..][1..] == [];
    assert Matching(q[1..], name) == [q[1]] + Matching(q[1..][1..], name);
    assert Matching(q, name) == [q[0]] + Matching(q[1..], name);
    NameFieldOf(name, rest1);
  }

  /**
   * Only a longer-named container is queued: as written, creating the required one
   * takes the other container's entry off the queue, so it is never migrated.
   */
  lemma PrefixNameTakesOther(name: string, more: string, rest: string)
    requires ':' !in name && ':' !in more && more != []
    ensures DropByPrefix([name + more + ":" + rest], name) == Some([])
    ensures DropByName([name + more + ":" + rest], name) == [name + more + ":" + rest]
  {
    var q := [name + more + ":" + rest];
    assert StartsWith(q[0], name) by { assert q[0][..|name|] == name; }
    assert q[1..] == [];
    assert Matching(q, name) == [q[0]] + Matching(q[1..], name);
    NameFieldOf(name + more, rest);
    assert |name + more| > |name|;
  }

  // ---------------------------------------------------------------------------
  // The scheduler (funcSyncPodContainers)
  // ---------------------------------------------------------------------------

  /** The queue, the containers on the destination, and those initialised, restored and started, in order. */
  datatype Sched = Sched(queue: seq<string>, dest: set<string>, started: seq<string>)

  datatype Halt = Going | Stop | Crash

  datatype Step = Step(st: Sched, halt: Halt)

  /**
   * What the scheduler learns from outside: the reply to creating a container,
   * given what the destination holds, and whether the volume step of a container
   * (`funcVolSendRestore`) completes; when it does not (no mount listing, or a
   * failed export), that step calls `exit(1)`.
   */
  datatype Hosts = Hosts(create: (set<string>, string) -> Reply, restore: string -> bool)

  /** The second element of `funcSyncContainer`'s result in loop mode. */
  function LoopReplyText(reply: Reply): (t: string)
    ensures reply.status == 0 ==> t == "OK"
  {
    if reply.status == 0 then "OK" else reply.text
  }

  /** The text of a successful create passes the `"OK" in` test and not the dependency test. */
  lemma SuccessText()
    ensures Contains("OK", "OK") && !Contains("OK", "cannot be used as a dependency")
  {
    assert OccursAt("OK", "OK", 0);
    ContainsAt("OK", "OK", 0);
  }

  /** The destination after a create. */
  function AfterCreate(dest: set<string>, name: string, reply: Reply): set<string> {
    if reply.status == 0 then dest + {name} else dest
  }

  /** The state after one required container, the requirement list (which the body shrinks), and whether to go on. */
  datatype RequirementDone = RequirementDone(st: Sched, reqs: seq<string>, halt: Halt)

  /**
   * One iteration of the inner `for`, on the required container at position `j`:
   * one already on the destination is taken off the queue if an entry equals its
   * name; otherwise it is created and, depending on the reply, left for a later
   * pass, restored, started and dequeued, or the run stops.  A volume step that
   * fails stops the run before the container is started or dequeued.
   */
  function RequirementStep(st: Sched, reqs: seq<string>, j: nat, hosts: Hosts): (r: RequirementDone)
    requires j < |reqs|
    ensures |r.reqs| <= |reqs|
    ensures multiset(r.st.queue) <= multiset(st.queue)
    ensures |r.st.queue| <= |st.queue|
    ensures st.dest <= r.st.dest
  {
    var name := reqs[j];
    if name in st.dest then
      RequirementDone(st.(queue := RemoveFirst(st.queue, name)), reqs, Going)
    else
      var reply := hosts.create(st.dest, name);
      var text := LoopReplyText(reply);
      var dest := AfterCreate(st.dest, name, reply);
      if Contains(text, "cannot be used as a dependency") then
        RequirementDone(st.(dest := dest), reqs, Going)
      else if !Contains(text, "OK") || !hosts.restore(name) then RequirementDone(st.(dest := dest), reqs, Stop)
      else
        var started := st.started + [name];
        match DropByPrefix(st.queue, name)
        case None => RequirementDone(Sched(st.queue, dest, started), reqs, Crash)
        case Some(q) => RequirementDone(Sched(q, dest, started), RemoveFirst(reqs, name), Going)
  }

  /** The inner loop over the containers an entry requires, from position `j`. */
  function Requirements(st: Sched, reqs: seq<string>, j: nat, hosts: Hosts): (r: Step)
    ensures multiset(r.st.queue) <= multiset(st.queue)
    ensures |r.st.queue| <= |st.queue|
    ensures st.dest <= r.st.dest
    decreases |reqs| - j
  {
    if j >= |reqs| then Step(st, Going)
    else
      var s := RequirementStep(st, reqs, j, hosts);
      if s.halt != Going then Step(s.st, s.halt) else Requirements(s.st, s.reqs, j + 1, hosts)
  }

  /** One iteration of the outer `for`, on the entry at position `i`. */
  function Visit(st: Sched, i: nat, hosts: Hosts): (r: Step)
    requires i < |st.queue|
    ensures multiset(r.st.queue) <= multiset(st.queue)
    ensures |r.st.queue| <= |st.queue|
  {
    var e := st.queue[i];
    match ParseEntry(e)
    case None => Step(st, Crash)
    case Some(entry) =>
      if entry.flag == "1" && |st.queue| != 1 then
        Requirements(st, Split(entry.required, ","), 0, hosts)
      else
        var reply := hosts.create(st.dest, entry.name);
        var dest := AfterCreate(st.dest, entry.name, reply);
        if !hosts.restore(entry.name) then Step(st.(dest := dest), Stop)
        else Step(Sched(RemoveFirst(st.queue, e), dest, st.started + [entry.name]), Going)
  }

  /** The outer `for` over the queue, from position `i`. */
  function Outer(st: Sched, i: nat, hosts: Hosts): (r: Step)
    ensures multiset(r.st.queue) <= multiset(st.queue)
    decreases |st.queue| - i
  {
    if i >= |st.queue| then Step(st, Going)
    else
      var v := Visit(st, i, hosts);
      if v.halt != Going then v else Outer(v.st, i + 1, hosts)
  }

  /** One pass of the `while` body. */
  function Pass(st: Sched, hosts: Hosts): Step {
    Outer(st, 0, hosts)
  }

  datatype Ending = Done | Stopped | Crashed | Unfinished

  datatype Outcome = Outcome(st: Sched, ending: Ending)

  /** The `while` loop around any pass, given at most `passes` passes. */
  function Repeat(st: Sched, pass: Sched -> Step, passes: nat): Outcome
    decreases passes
  {
    if st.queue == [] then Outcome(st, Done)
    else if passes == 0 then Outcome(st, Unfinished)
    else
      var p := pass(st);
      match p.halt
      case Stop => Outcome(p.st, Stopped)
      case Crash => Outcome(p.st, Crashed)
      case Going => Repeat(p.st, pass, passes - 1)
  }

  /** A pass of the scheduler, as a function of the scheduler state. */
  function PassOf(hosts: Hosts): Sched -> Step {
    s => Pass(s, hosts)
  }

  /** The `while` loop of `funcSyncPodContainers`, given at most `passes` passes. */
  function Schedule(st: Sched, hosts: Hosts, passes: nat): Outcome {
    Repeat(st, PassOf(hosts), passes)
  }

  /** One pass of `Repeat` on a non-empty queue. */
  lemma RepeatOnce(st: Sched, pass: Sched -> Step, passes: nat, p: Step)
    requires st.queue != [] && passes > 0 && pass(st) == p
    ensures p.halt == Stop ==> Repeat(st, pass, passes) == Outcome(p.st, Stopped)
    ensures p.halt == Crash ==> Repeat(st, pass, passes) == Outcome(p.st, Crashed)
    ensures p.halt == Going ==> Repeat(st, pass, passes) == Repeat(p.st, pass, passes - 1)
  {
  }

  lemma ScheduleArgs(st: Sched, hosts: Hosts, m: nat, n: nat)
    requires m == n
    ensures Schedule(st, hosts, m) == Schedule(st, hosts, n)
  {
  }

  /** The global queue and the destination, with the methods that work on them. */
  class PodScheduler {
    var queue: seq<string>
    var dest: set<string>
    var started: seq<string>

    function State(): Sched
      reads this
    {
      Sched(queue, dest, started)
    }

    constructor (remote: set<string>)
      ensures State() == Sched([], remote, [])
    {
      queue := [];
      dest := remote;
      started := [];
    }

    /** `funcPodCntRequire`: one entry appended per member; `false` where the script raises. */
    method BuildQueue(members: seq<string>, cmds: string -> Option<string>) returns (ok: bool)
      modifies this
      ensures ok <==> RequireQueue(members, cmds).Some?
      ensures ok ==> queue == old(queue) + RequireQueue(members, cmds).value
      ensures dest == old(dest) && started == old(started)
    {
      var i := 0;
      while i < |members|
        invariant 0 <= i <= |members|
        invariant RequireQueue(members[..i], cmds).Some?
        invariant queue == old(queue) + RequireQueue(members[..i], cmds).value
        invariant dest == old(dest) && started == old(started)
      {
        var cmd := cmds(members[i]);
        if cmd.None? {
          RequireQueueSome(members, cmds);
          return false;
        }
        RequireQueueGrows(members, i, cmds);
        queue := queue + [RequireEntry(members[i], cmd.value)];
        i := i + 1;
      }
      assert members[..i] == members;
      return true;
    }

    /** One iteration of the inner `for`, as `RequirementStep` describes it. */
    method RunRequirementStep(reqs: seq<string>, j: nat, hosts: Hosts) returns (left: seq<string>, halt: Halt)
      requires j < |reqs|
      modifies this
      ensures RequirementDone(State(), left, halt) == RequirementStep(old(State()), reqs, j, hosts)
    {
      left := reqs;
      halt := Going;
      var name := reqs[j];
      if name in dest {
        if name in queue {
          queue := RemoveFirst(queue, name);
        }
        return;
      }
      var reply := hosts.create(dest, name);
      var text := LoopReplyText(reply);
      if reply.status == 0 {
        dest := dest + {name};
      }
      if Contains(text, "cannot be used as a dependency") {
        return;
      }
      if !Contains(text, "OK") || !hosts.restore(name) {
        return reqs, Stop;
      }
      started := started + [name];
      var found := Matching(queue, name);
      if |found| != 1 {
        return reqs, Crash;
      }
      queue := RemoveFirst(queue, found[0]);
      left := RemoveFirst(reqs, name);
    }

    /** The inner `for` over the containers one entry requires, as `Requirements` describes it. */
    method RunRequirements(reqs: seq<string>, hosts: Hosts) returns (halt: Halt)
      modifies this
      ensures Step(State(), halt) == Requirements(old(State()), reqs, 0, hosts)
    {
      var left := reqs;
      var j := 0;
      while j < |left|
        invariant Requirements(State(), left, j, hosts) == Requirements(old(State()), reqs, 0, hosts)
        decreases |left| - j
      {
        left, halt := RunRequirementStep(left, j, hosts);
        if halt != Going {
          return;
        }
        j := j + 1;
      }
      return Going;
    }

    /** One iteration of the outer `for`, on the entry at position `i`, as `Visit` describes it. */
    method RunVisit(i: nat, hosts: Hosts) returns (halt: Halt)
      requires i < |queue|
      modifies this
      ensures Step(State(), halt) == Visit(old(State()), i, hosts)
    {
      var e := queue[i];
      var parsed := ParseEntry(e);
      if parsed.None? {
        return Crash;
      }
      var entry := parsed.value;
      if entry.flag == "1" && |queue| != 1 {
        halt := RunRequirements(Split(entry.required, ","), hosts);
      } else {
        var reply := hosts.create(dest, entry.name);
        if reply.status == 0 {
          dest := dest + {entry.name};
        }
        if !hosts.restore(entry.name) {
          return Stop;
        }
        started := started + [entry.name];
        queue := RemoveFirst(queue, e);
        halt := Going;
      }
    }

    /** One pass of `funcSyncPodContainers`' `while` body, as `Pass` describes it. */
    method RunPass(hosts: Hosts) returns (halt: Halt)
      modifies this
      ensures Step(State(), halt) == Pass(old(State()), hosts)
    {
      var i := 0;
      while i < |queue|
        invariant Outer(State(), i, hosts) == Pass(old(State()), hosts)
        decreases |queue| - i
      {
        halt := RunVisit(i, hosts);
        if halt != Going {
          return;
        }
        i := i + 1;
      }
      return Going;
    }

    /** One turn of the `while` loop: a pass, and what is left of the schedule after it. */
    method RunOnePass(hosts: Hosts, ghost left: nat) returns (halt: Halt)
      requires queue != [] && left > 0
      modifies this
      ensures halt == Going ==> Schedule(State(), hosts, left - 1) == Schedule(old(State()), hosts, left)
      ensures halt == Stop ==> Outcome(State(), Stopped) == Schedule(old(State()), hosts, left)
      ensures halt == Crash ==> Outcome(State(), Crashed) == Schedule(old(State()), hosts, left)
    {
      ghost var before := State();
      halt := RunPass(hosts);
      RepeatOnce(before, PassOf(hosts), left, Step(State(), halt));
    }

    /** The `while` loop of `funcSyncPodContainers`, for at most `passes` passes. */
    method Migrate(hosts: Hosts, passes: nat) returns (ending: Ending)
      modifies this
      ensures Outcome(State(), ending) == Schedule(old(State()), hosts, passes)
    {
      var left := passes;
      while queue != [] && left > 0
        invariant Schedule(State(), hosts, left) == Schedule(old(State()), hosts, passes)
        decreases left
      {
        var halt := RunOnePass(hosts, left);
        if halt != Going {
          ending := if halt == Stop then Stopped else Crashed;
          return;
        }
        ghost var was := left;
        left := left - 1;
        ScheduleArgs(State(), hosts, left, was - 1);
      }
      ending := if queue == [] then Done else Unfinished;
    }
  }

  // ---------------------------------------------------------------------------
  // Properties of the schedule
  // ---------------------------------------------------------------------------

  /**
   * An entry visited in the direct branch (not flagged, or the only one left) is
   * created, whatever the create replies; when its volume step completes it is
   * started and taken off the queue in that visit, and otherwise the run stops
   * with the entry still queued.
   */
  lemma DirectVisit(st: Sched, i: nat, hosts: Hosts)
    requires i < |st.queue| && st.queue[i] !in st.queue[..i]
    requires ParseEntry(st.queue[i]).Some?
    requires ParseEntry(st.queue[i]).value.flag != "1" || |st.queue| == 1
    ensures var name := ParseEntry(st.queue[i]).value.name;
            var dest := AfterCreate(st.dest, name, hosts.create(st.dest, name));
            Visit(st, i, hosts)
            == if hosts.restore(name) then Step(Sched(st.queue[..i] + st.queue[i + 1..], dest, st.started + [name]), Going)
               else Step(Sched(st.queue, dest, st.started), Stop)
  {
    RemoveFirstAt(st.queue, i);
  }

  /**
   * An entry left alone in the queue is migrated even when it is flagged, and the
   * schedule is done, when its volume step completes.
   */
  lemma SoleEntryMigrated(e: string, dest: set<string>, started: seq<string>, hosts: Hosts, passes: nat)
    requires ParseEntry(e).Some? && passes > 0
    requires hosts.restore(ParseEntry(e).value.name)
    ensures var name := ParseEntry(e).value.name;
            Schedule(Sched([e], dest, started), hosts, passes)
            == Outcome(Sched([], AfterCreate(dest, name, hosts.create(dest, name)), started + [name]), Done)
  {
    var st := Sched([e], dest, started);
    DirectVisit(st, 0, hosts);
    var v := Visit(st, 0, hosts);
    assert Pass(st, hosts) == Outer(v.st, 1, hosts) == v;
    var pass := s => Pass(s, hosts);
    assert pass(st) == v;
    assert Repeat(st, pass, passes) == Repeat(v.st, pass, passes - 1);
  }

  /**
   * Removing the entry under the loop index skips the next one: a pass over two
   * entries without requirements migrates the first only (its volume step
   * completing).
   */
  lemma RemovalSkipsNext(a: string, b: string, dest: set<string>, started: seq<string>, hosts: Hosts)
    requires ':' !in a && ':' !in b && hosts.restore(a)
    ensures var st := Sched([EntryOf(a, "0", "None"), EntryOf(b, "0", "None")], dest, started);
            Pass(st, hosts)
            == Step(Sched([EntryOf(b, "0", "None")], AfterCreate(dest, a, hosts.create(dest, a)), started + [a]), Going)
  {
    var st := Sched([EntryOf(a, "0", "None"), EntryOf(b, "0", "None")], dest, started);
    EntryRoundTrip(a, "0", "None");
    DirectVisit(st, 0, hosts);
    var v := Visit(st, 0, hosts);
    assert v.st.queue == [EntryOf(b, "0", "None")];
    assert Pass(st, hosts) == Outer(v.st, 1, hosts);
  }

  /** A required container whose create reports it cannot serve as a dependency stays queued. */
  lemma UnmetRequirementStays(st: Sched, reqs: seq<string>, j: nat, hosts: Hosts)
    requires j < |reqs| && reqs[j] !in st.dest
    requires Contains(LoopReplyText(hosts.create(st.dest, reqs[j])), "cannot be used as a dependency")
    ensures Requirements(st, reqs, j, hosts) == Requirements(st, reqs, j + 1, hosts)
  {
    SuccessText();
  }

  /**
   * A required container created with status 0 is on the destination.  When its
   * volume step completes it is started and its entry, when it is the only one
   * starting with that name, leaves the queue; otherwise the run stops there.
   */
  lemma CreatedRequirementDequeued(st: Sched, reqs: seq<string>, j: nat, hosts: Hosts, k: nat)
    requires j < |reqs| && reqs[j] !in st.dest
    requires hosts.create(st.dest, reqs[j]).status == 0
    requires k < |st.queue| && StartsWith(st.queue[k], reqs[j])
    requires forall x :: 0 <= x < |st.queue| && x != k ==> !StartsWith(st.queue[x], reqs[j])
    ensures hosts.restore(reqs[j]) ==>
              Requirements(st, reqs, j, hosts)
              == Requirements(Sched(st.queue[..k] + st.queue[k + 1..], st.dest + {reqs[j]}, st.started + [reqs[j]]),
                              RemoveFirst(reqs, reqs[j]), j + 1, hosts)
    ensures !hosts.restore(reqs[j]) ==>
              Requirements(st, reqs, j, hosts) == Step(st.(dest := st.dest + {reqs[j]}), Stop)
  {
    SuccessText();
    DropByPrefixSole(st.queue, reqs[j], k);
  }

  /** Any other create reply for a required container stops the run. */
  lemma OtherReplyStops(st: Sched, reqs: seq<string>, j: nat, hosts: Hosts)
    requires j < |reqs| && reqs[j] !in st.dest
    requires !Contains(LoopReplyText(hosts.create(st.dest, reqs[j])), "cannot be used as a dependency")
    requires !Contains(LoopReplyText(hosts.create(st.dest, reqs[j])), "OK")
    ensures Requirements(st, reqs, j, hosts) == Step(st, Stop)
  {
    SuccessText();
  }

  /**
   * A required container whose create is answered "OK" but whose volume step does
   * not complete stops the run, with the queue and the started list as they were.
   */
  lemma RequirementRestoreFails(st: Sched, reqs: seq<string>, j: nat, hosts: Hosts)
    requires j < |reqs| && reqs[j] !in st.dest
    requires !Contains(LoopReplyText(hosts.create(st.dest, reqs[j])), "cannot be used as a dependency")
    requires Contains(LoopReplyText(hosts.create(st.dest, reqs[j])), "OK")
    requires !hosts.restore(reqs[j])
    ensures Requirements(st, reqs, j, hosts)
            == Step(st.(dest := AfterCreate(st.dest, reqs[j], hosts.create(st.dest, reqs[j]))), Stop)
  {
  }

  /** The loop reports done only with an empty queue, and never adds to a queue that its passes do not add to. */
  lemma {:induction false} RepeatEnds(st: Sched, pass: Sched -> Step, passes: nat)
    requires forall s :: multiset(pass(s).st.queue) <= multiset(s.queue)
    ensures var o := Repeat(st, pass, passes);
            && (o.ending == Done ==> o.st.queue == [])
            && (o.ending == Unfinished ==> o.st.queue != [])
            && (st.queue == [] ==> o == Outcome(st, Done))
            && multiset(o.st.queue) <= multiset(st.queue)
    decreases passes
  {
    if st.queue != [] && passes > 0 {
      var p := pass(st);
      if p.halt == Going {
        RepeatEnds(p.st, pass, passes - 1);
      }
    }
  }

  /** The schedule reports done only with an empty queue, and never adds to the queue. */
  lemma ScheduleEnds(st: Sched, hosts: Hosts, passes: nat)
    ensures var o := Schedule(st, hosts, passes);
            && (o.ending == Done ==> o.st.queue == [])
            && (o.ending == Unfinished ==> o.st.queue != [])
            && (st.queue == [] ==> o == Outcome(st, Done))
            && multiset(o.st.queue) <= multiset(st.queue)
  {
    var pass := s => Pass(s, hosts);
    forall s ensures multiset(pass(s).st.queue) <= multiset(s.queue) {
      assert pass(s) == Outer(s, 0, hosts);
    }
    RepeatEnds(st, pass, passes);
  }

  /**
   * Every queued entry is flagged, every container it requires is on the
   * destination already, and no required name is itself a queue entry.
   */
  predicate Stuck(st: Sched) {
    && |st.queue| >= 2
    && forall k :: 0 <= k < |st.queue| ==>
         && ParseEntry(st.queue[k]).Some?
         && ParseEntry(st.queue[k]).value.flag == "1"
         && forall n :: n in Split(ParseEntry(st.queue[k]).value.required, ",") ==> n in st.dest && n !in st.queue
  }

  lemma {:induction false} RequirementsMet(st: Sched, reqs: seq<string>, j: nat, hosts: Hosts)
    requires forall n :: n in reqs ==> n in st.dest && n !in st.queue
    ensures Requirements(st, reqs, j, hosts) == Step(st, Going)
    decreases |reqs| - j
  {
    if j < |reqs| {
      assert reqs[j] in reqs;
      assert RemoveFirst(st.queue, reqs[j]) == st.queue;
      assert st.(queue := st.queue) == st;
      RequirementsMet(st, reqs, j + 1, hosts);
    }
  }

  lemma {:induction false} OuterStuck(st: Sched, i: nat, hosts: Hosts)
    requires Stuck(st)
    ensures Outer(st, i, hosts) == Step(st, Going)
    decreases |st.queue| - i
  {
    if i < |st.queue| {
      var entry := ParseEntry(st.queue[i]).value;
      RequirementsMet(st, Split(entry.required, ","), 0, hosts);
      assert Visit(st, i, hosts) == Step(st, Going);
      OuterStuck(st, i + 1, hosts);
    }
  }

  /**
   * A queue of flagged entries whose requirements already exist on the destination
   * never shrinks: the flag is never rewritten and the removal of an existing
   * requirement compares a bare name with whole entries, so every pass leaves the
   * state as it was and the loop never ends.
   */
  lemma {:induction false} StuckForever(st: Sched, hosts: Hosts, passes: nat)
    requires Stuck(st)
    ensures Pass(st, hosts) == Step(st, Going)
    ensures Schedule(st, hosts, passes) == Outcome(st, Unfinished)
  {
    OuterStuck(st, 0, hosts);
    NoProgressForever(st, s => Pass(s, hosts), passes);
  }

  /** A pass that changes nothing is repeated as often as the loop is given passes. */
  lemma {:induction false} NoProgressForever(st: Sched, pass: Sched -> Step, passes: nat)
    requires st.queue != [] && pass(st) == Step(st, Going)
    ensures Repeat(st, pass, passes) == Outcome(st, Unfinished)
    decreases passes
  {
    if passes > 0 {
      NoProgressForever(st, pass, passes - 1);
    }
  }

  /** Two pod members that each require containers already on the destination are stuck. */
  lemma TwoFlaggedStuck(a: string, ra: string, b: string, rb: string,
                        dest: set<string>, started: seq<string>, hosts: Hosts, passes: nat)
    requires ':' !in a && ':' !in ra && ':' !in b && ':' !in rb
    requires forall n :: n in Split(ra, ",") ==> n in dest
    requires forall n :: n in Split(rb, ",") ==> n in dest
    ensures Schedule(Sched([EntryOf(a, "1", ra), EntryOf(b, "1", rb)], dest, started), hosts, passes)
            == Outcome(Sched([EntryOf(a, "1", ra), EntryOf(b, "1", rb)], dest, started), Unfinished)
  {
    var st := Sched([EntryOf(a, "1", ra), EntryOf(b, "1", rb)], dest, started);
    EntryRoundTrip(a, "1", ra);
    EntryRoundTrip(b, "1", rb);
    SplitPiecesWithout(ra, ',', ':');
    SplitPiecesWithout(rb, ',', ':');
    ParsedHasColon(st.queue[0]);
    ParsedHasColon(st.queue[1]);
    assert Stuck(st);
    StuckForever(st, hosts, passes);
  }

  /**
   * The prefix removal in a whole pass: a container requiring `name`, queued before
   * `name` and a longer name starting with it, makes the pass raise once `name` is
   * created.
   */
  lemma PassCrashesOnPrefixNames(w: string, name: string, more: string,
                                 dest: set<string>, started: seq<string>, hosts: Hosts)
    requires ':' !in w && ':' !in name && ':' !in more && ',' !in name
    requires w != [] && name != [] && more != [] && w[0] != name[0]
    requires name !in dest && hosts.create(dest, name).status == 0 && hosts.restore(name)
    ensures Pass(Sched([EntryOf(w, "1", name), EntryOf(name, "0", "None"), EntryOf(name + more, "0", "None")], dest, started), hosts).halt
            == Crash
  {
    var q := [EntryOf(w, "1", name), EntryOf(name, "0", "None"), EntryOf(name + more, "0", "None")];
    var st := Sched(q, dest, started);
    EntryRoundTrip(w, "1", name);
    SplitCharNone(name, ',');
    PrefixQueueDrop(w, name, more);
    SuccessText();
    assert RequirementStep(st, [name], 0, hosts).halt == Crash;
    assert Requirements(st, [name], 0, hosts).halt == Crash;
    assert ParseEntry(q[0]) == Some(Entry(w, "1", name));
    assert Visit(st, 0, hosts) == Requirements(st, [name], 0, hosts);
    assert Pass(st, hosts) == Visit(st, 0, hosts);
  }

  /** Two of the three entries start with `name`, so the removal text is not an entry. */
  lemma PrefixQueueDrop(w: string, name: string, more: string)
    requires w != [] && name != [] && w[0] != name[0]
    ensures DropByPrefix([EntryOf(w, "1", name), EntryOf(name, "0", "None"), EntryOf(name + more, "0", "None")], name)
            == None
  {
    var q := [EntryOf(w, "1", name), EntryOf(name, "0", "None"), EntryOf(name + more, "0", "None")];
    assert !StartsWith(q[0], name) by {
      assert q[0][0] == w[0];
    }
    assert q[1][..|name|] == name;
    assert q[2][..|name|] == name;
    assert q[1..][1..][1..] == [];
    assert Matching(q[1..][1..], name) == [q[2]] + Matching(q[1..][1..][1..], name);
    assert Matching(q[1..], name) == [q[1]] + Matching(q[1..][1..], name);
    assert Matching(q, name) == Matching(q[1..], name);
  }
}
