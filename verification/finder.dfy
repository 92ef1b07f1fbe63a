/** The program's main: parse the arguments, walk the directory, group the files by
    size, hash every group of two or more, regroup it by digest and hand every digest
    group of two or more to the interactive step. The console, the clock-free file
    system and the digest are parameters; the run yields the events the user sees and
    the input lines left unread. */
module Finder {
  import opened Entries
  import opened Seqs
  import opened Traverse
  import opened SizeGroups
  import opened Hashing
  import opened HashGroups
  import opened KeepLine
  import opened Resolver

  /** The parsed command line: the directory named ("" when none was) and whether -r was
      given. */
  datatype Options = Options(directory: string, recursive: bool)

  /** The first n arguments are all "-r" or empty: none of them fills the buffer. */
  predicate OnlyFlags(args: seq<string>, n: nat)
    requires n <= |args|
  {
    forall j :: 0 <= j < n ==> args[j] == "-r" || args[j] == ""
  }

  /** The argument loop over argv[1..]: "-r" anywhere sets recursive; any other argument
      is copied into the directory buffer while the buffer is still empty, so the first
      non-empty argument other than "-r" names the directory. */
  function ParseArgs(args: seq<string>): (o: Options)
    ensures o.recursive <==> "-r" in args
    ensures o.directory == "" <==> OnlyFlags(args, |args|)
    ensures o.directory != "" ==>
      exists k :: 0 <= k < |args| && args[k] == o.directory && args[k] != "-r" && OnlyFlags(args, k)
  {
    ParseFrom(args, 0, Options("", false))
  }

  function ParseFrom(args: seq<string>, i: nat, o: Options): (r: Options)
    requires i <= |args|
    requires o.recursive <==> "-r" in args[..i]
    requires o.directory == "" <==> OnlyFlags(args, i)
    requires o.directory != "" ==>
      exists k :: 0 <= k < i && args[k] == o.directory && args[k] != "-r" && OnlyFlags(args, k)
    ensures r.recursive <==> "-r" in args
    ensures r.directory == "" <==> OnlyFlags(args, |args|)
    ensures r.directory != "" ==>
      exists k :: 0 <= k < |args| && args[k] == r.directory && args[k] != "-r" && OnlyFlags(args, k)
    decreases |args| - i
  {
    if i == |args| then
      assert args[..i] == args;
      o
    else
      assert args[..i + 1] == args[..i] + [args[i]];
      var next :=
        if args[i] == "-r" then o.(recursive := true)
        else if o.directory == "" then o.(directory := args[i])
        else o;
      ParseFrom(args, i + 1, next)
  }

  /** The directory walked: the one named, or the current directory. */
  function Directory(o: Options, cwd: string): string {
    if o.directory == "" then cwd else o.directory
  }

  /** What the user sees, in order: the error line for a file that could not be hashed,
      and each duplicate group with what became of it. */
  datatype Event =
    | HashFailed(path: string)
    | Handled(group: seq<Entry>, outcome: Outcome)

  /** The events of a stretch of the run, the input lines left, and whether the user
      quit. */
  datatype Run = Run(events: seq<Event>, rest: seq<string>, quit: bool)

  predicate IsQuit(e: Event) {
    e.Handled? && e.outcome == Quit
  }

  /** The input left is a suffix of the input given. */
  predicate Suffix(rest: seq<string>, input: seq<string>) {
    |rest| <= |input| && rest == input[|input| - |rest|..]
  }

  /** The input left after an event: an error line reads nothing, and a handled group
      reads the lines HandleDuplicateGroup consumed. */
  function After(e: Event, input: seq<string>, isSymlink: string -> bool, deleteFile: string -> DeleteStatus)
    : (left: seq<string>)
    ensures Suffix(left, input)
    ensures e.Handled? ==> |left| == |input| - HandleDuplicateGroup(e.group, input, isSymlink, deleteFile).consumed
  {
    if e.HashFailed? then input
    else input[HandleDuplicateGroup(e.group, input, isSymlink, deleteFile).consumed..]
  }

  /** A handled group carries the outcome HandleDuplicateGroup gives on the input. */
  predicate Answers(e: Event, input: seq<string>, isSymlink: string -> bool, deleteFile: string -> DeleteStatus) {
    e.Handled? ==> e.outcome == HandleDuplicateGroup(e.group, input, isSymlink, deleteFile).outcome
  }

  /** The events are what the interactive step answers when each offered group is handed
      to it in turn, on the input the earlier ones left; rest is what is left after the
      last event. */
  predicate Replays(events: seq<Event>, input: seq<string>, rest: seq<string>,
                    isSymlink: string -> bool, deleteFile: string -> DeleteStatus)
    decreases |events|
  {
    if |events| == 0 then rest == input
    else
      && Answers(events[0], input, isSymlink, deleteFile)
      && Replays(events[1..], After(events[0], input, isSymlink, deleteFile), rest, isSymlink, deleteFile)
  }

  lemma {:induction false} ReplaysAppend(a: seq<Event>, b: seq<Event>, input: seq<string>, mid: seq<string>,
                                         rest: seq<string>, isSymlink: string -> bool, deleteFile: string -> DeleteStatus)
    requires Replays(a, input, mid, isSymlink, deleteFile)
    requires Replays(b, mid, rest, isSymlink, deleteFile)
    ensures Replays(a + b, input, rest, isSymlink, deleteFile)
    decreases |a|
  {
    if |a| == 0 {
      assert a + b == b;
    } else {
      ReplaysAppend(a[1..], b, After(a[0], input, isSymlink, deleteFile), mid, rest, isSymlink, deleteFile);
      ReplaysCons(a[0], a[1..] + b, input, rest, isSymlink, deleteFile);
      ConsAppend(a, b);
    }
  }

  /** One event in front of a replayed run. */
  lemma ReplaysCons(e: Event, events: seq<Event>, input: seq<string>, rest: seq<string>,
                    isSymlink: string -> bool, deleteFile: string -> DeleteStatus)
    requires Answers(e, input, isSymlink, deleteFile)
    requires Replays(events, After(e, input, isSymlink, deleteFile), rest, isSymlink, deleteFile)
    ensures Replays([e] + events, input, rest, isSymlink, deleteFile)
  {
    assert ([e] + events)[0] == e && ([e] + events)[1..] == events;
  }

  /** When the k-th event is the last and a handled one after error lines, the input left
      is what the handler left of the input as given. */
  lemma {:induction false} ReplaysRest(events: seq<Event>, input: seq<string>, rest: seq<string>, k: nat,
                                       isSymlink: string -> bool, deleteFile: string -> DeleteStatus)
    requires Replays(events, input, rest, isSymlink, deleteFile)
    requires k < |events| == k + 1 && events[k].Handled?
    requires forall i :: 0 <= i < k ==> events[i].HashFailed?
    ensures rest == input[HandleDuplicateGroup(events[k].group, input, isSymlink, deleteFile).consumed..]
  {
    if k > 0 {
      forall i | 0 <= i < k - 1 ensures events[1..][i].HashFailed? {
        assert events[1..][i] == events[i + 1];
      }
      assert events[1..][k - 1] == events[k];
      ReplaysRest(events[1..], input, rest, k - 1, isSymlink, deleteFile);
    } else {
      assert events[1..] == [];
    }
  }

  /** A handled group in front of a replayed run: the group reads its lines first. */
  lemma ReplaysHandled(g: seq<Entry>, events: seq<Event>, input: seq<string>, rest: seq<string>,
                       isSymlink: string -> bool, deleteFile: string -> DeleteStatus)
    requires var res := HandleDuplicateGroup(g, input, isSymlink, deleteFile);
      Replays(events, input[res.consumed..], rest, isSymlink, deleteFile)
    ensures Replays([Handled(g, HandleDuplicateGroup(g, input, isSymlink, deleteFile).outcome)] + events,
                    input, rest, isSymlink, deleteFile)
  {
    var e := Handled(g, HandleDuplicateGroup(g, input, isSymlink, deleteFile).outcome);
    assert ([e] + events)[0] == e && ([e] + events)[1..] == events;
  }

  /** Error lines read no input. */
  lemma {:induction false} ReplaysFailures(errors: seq<string>, input: seq<string>,
                                           isSymlink: string -> bool, deleteFile: string -> DeleteStatus)
    ensures Replays(Failures(errors), input, input, isSymlink, deleteFile)
    decreases |errors|
  {
    if |errors| > 0 {
      assert Failures(errors)[1..] == Failures(errors[1..]);
      ReplaysFailures(errors[1..], input, isSymlink, deleteFile);
    }
  }

  /** The events before the k-th are error lines, so the k-th group is handled on the
      input as given. */
  lemma {:induction false} ReplaysThroughFailures(events: seq<Event>, input: seq<string>, rest: seq<string>, k: nat,
                                                  isSymlink: string -> bool, deleteFile: string -> DeleteStatus)
    requires Replays(events, input, rest, isSymlink, deleteFile)
    requires k < |events| && events[k].Handled?
    requires forall i :: 0 <= i < k ==> events[i].HashFailed?
    ensures events[k].outcome == HandleDuplicateGroup(events[k].group, input, isSymlink, deleteFile).outcome
  {
    if k > 0 {
      assert events[0].HashFailed?;
      forall i | 0 <= i < k - 1 ensures events[1..][i].HashFailed? {
        assert events[1..][i] == events[i + 1];
      }
      assert events[1..][k - 1] == events[k];
      ReplaysThroughFailures(events[1..], input, rest, k - 1, isSymlink, deleteFile);
    }
  }

  /** A run that quits ends with the quit, and only a run that quits contains one. */
  predicate QuitLast(r: Run) {
    && (r.quit <==> exists i :: 0 <= i < |r.events| && IsQuit(r.events[i]))
    && (forall i :: 0 <= i < |r.events| && IsQuit(r.events[i]) ==> i == |r.events| - 1)
  }

  lemma QuitLastPrepend(evs: seq<Event>, r: Run)
    requires forall i :: 0 <= i < |evs| ==> !IsQuit(evs[i])
    requires QuitLast(r)
    ensures QuitLast(Run(evs + r.events, r.rest, r.quit))
  {
    var all := evs + r.events;
    forall i | |evs| <= i < |all| ensures all[i] == r.events[i - |evs|] {
    }
    if r.quit {
      var i :| 0 <= i < |r.events| && IsQuit(r.events[i]);
      assert IsQuit(all[|evs| + i]);
    }
  }

  /** What HandleDuplicateGroup guarantees about its outcome for group g: a delete
      list leaves a member out and names only members, and deletion went through the
      deletion loop. */
  predicate Sound(g: seq<Entry>, o: Outcome, isSymlink: string -> bool, deleteFile: string -> DeleteStatus) {
    && ((o.ConfirmClosed? || o.Cancelled? || o.Completed?) ==> |o.toDelete| < |g| && MemberPaths(o.toDelete, g))
    && (o.Completed? ==> o.reports == DeleteAll(o.toDelete, isSymlink, deleteFile))
  }

  lemma HandleSound(g: seq<Entry>, input: seq<string>, isSymlink: string -> bool, deleteFile: string -> DeleteStatus)
    ensures Sound(g, HandleDuplicateGroup(g, input, isSymlink, deleteFile).outcome, isSymlink, deleteFile)
  {
    NeverDeletesAll(g, input, isSymlink, deleteFile);
  }

  /** The event reports the handling of one of the groups, one with two or more
      members. */
  predicate HandledIn(e: Event, groups: seq<seq<Entry>>, isSymlink: string -> bool, deleteFile: string -> DeleteStatus) {
    e.Handled? && |e.group| > 1 && e.group in groups && Sound(e.group, e.outcome, isSymlink, deleteFile)
  }

  predicate AllHandledIn(events: seq<Event>, groups: seq<seq<Entry>>,
                         isSymlink: string -> bool, deleteFile: string -> DeleteStatus) {
    forall i :: 0 <= i < |events| ==> HandledIn(events[i], groups, isSymlink, deleteFile)
  }

  lemma AllHandledInPrepend(event: Event, events: seq<Event>, groups: seq<seq<Entry>>,
                            isSymlink: string -> bool, deleteFile: string -> DeleteStatus)
    requires |groups| > 0
    requires HandledIn(event, groups, isSymlink, deleteFile)
    requires AllHandledIn(events, groups[1..], isSymlink, deleteFile)
    ensures AllHandledIn([event] + events, groups, isSymlink, deleteFile)
  {
    var all := [event] + events;
    forall i | 1 <= i < |all| ensures HandledIn(all[i], groups, isSymlink, deleteFile) {
      assert all[i] == events[i - 1];
      assert all[i].group in groups[1..];
    }
  }

  lemma AllHandledInTail(events: seq<Event>, groups: seq<seq<Entry>>,
                         isSymlink: string -> bool, deleteFile: string -> DeleteStatus)
    requires |groups| > 0
    requires AllHandledIn(events, groups[1..], isSymlink, deleteFile)
    ensures AllHandledIn(events, groups, isSymlink, deleteFile)
  {
    forall i | 0 <= i < |events| ensures HandledIn(events[i], groups, isSymlink, deleteFile) {
      assert events[i].group in groups[1..];
    }
  }

  /** One thing a run is meant to show: the error line for a path, or the offer of a
      digest group to the user. */
  datatype Step = Fail(path: string) | Offer(group: seq<Entry>)

  /** The event carries out the step. */
  predicate Matches(e: Event, s: Step) {
    match s
    case Fail(p) => e == HashFailed(p)
    case Offer(g) => e.Handled? && e.group == g
  }

  /** The run carries out the plan from its start, step by step, and all of it unless the
      user quit. */
  predicate Follows(r: Run, plan: seq<Step>) {
    && |r.events| <= |plan|
    && (forall i :: 0 <= i < |r.events| ==> Matches(r.events[i], plan[i]))
    && (!r.quit ==> |r.events| == |plan|)
  }

  lemma FollowsAppend(a: Run, p: seq<Step>, b: Run, q: seq<Step>)
    requires Follows(a, p) && !a.quit && Follows(b, q)
    ensures Follows(Run(a.events + b.events, b.rest, b.quit), p + q)
  {
    var evs := a.events + b.events;
    forall i | 0 <= i < |evs| ensures Matches(evs[i], (p + q)[i]) {
      if i < |a.events| {
        assert evs[i] == a.events[i] && (p + q)[i] == p[i];
      } else {
        assert evs[i] == b.events[i - |a.events|] && (p + q)[i] == q[i - |p|];
      }
    }
  }

  /** One event that carries out one step. */
  lemma FollowsOne(e: Event, s: Step, rest: seq<string>)
    requires Matches(e, s)
    ensures Follows(Run([e], rest, false), [s])
  {
    assert [e][0] == e && [s][0] == s;
  }

  lemma FollowsQuit(r: Run, p: seq<Step>, q: seq<Step>)
    requires Follows(r, p) && r.quit
    ensures Follows(r, p + q)
  {
    forall i | 0 <= i < |r.events| ensures Matches(r.events[i], (p + q)[i]) {
      assert (p + q)[i] == p[i];
    }
  }

  /** The offers of the loop over digest groups: every group of two or more members, in
      order, and nothing else. */
  function Offers(groups: seq<seq<Entry>>): (plan: seq<Step>)
    ensures forall s :: s in plan <==> s.Offer? && s.group in groups && |s.group| > 1
  {
    if |groups| == 0 then []
    else
      assert forall g :: g in groups <==> g == groups[0] || g in groups[1..] by {
        assert groups == [groups[0]] + groups[1..];
      }
      (if |groups[0]| > 1 then [Offer(groups[0])] else []) + Offers(groups[1..])
  }

  /** The error lines for the paths, in order. */
  function Fails(errors: seq<string>): (plan: seq<Step>)
    ensures |plan| == |errors|
    ensures forall i :: 0 <= i < |errors| ==> plan[i] == Fail(errors[i])
    ensures forall s :: s in plan <==> s.Fail? && s.path in errors
  {
    seq(|errors|, i requires 0 <= i < |errors| => Fail(errors[i]))
  }

  /** The digest groups of a size group, once it is hashed. */
  function HashGroupsOf(g: seq<Entry>, readFile: string -> ReadResult, sha256: seq<byte> -> Digest)
    : seq<seq<Entry>>
  {
    GroupByHash(ComputeHashes(g, readFile, sha256).entries)
  }

  /** What a size group of two or more is meant to show: an error line for every member
      that could not be hashed, in list order, then an offer of every digest group of two
      or more. */
  function GroupPlan(g: seq<Entry>, readFile: string -> ReadResult, sha256: seq<byte> -> Digest): seq<Step> {
    Fails(ComputeHashes(g, readFile, sha256).errors) + Offers(HashGroupsOf(g, readFile, sha256))
  }

  /** What the loop over the size groups from group n on is meant to show: the plans of
      the groups of two or more, in order. */
  function Plan(groups: seq<seq<Entry>>, n: nat, readFile: string -> ReadResult, sha256: seq<byte> -> Digest)
    : seq<Step>
    requires n <= |groups|
    decreases |groups| - n
  {
    if n == |groups| then []
    else (if |groups[n]| > 1 then GroupPlan(groups[n], readFile, sha256) else []) + Plan(groups, n + 1, readFile, sha256)
  }

  /** Size group g offers h: g has two or more members and h is one of its digest groups
      with two or more. */
  predicate OffersGroup(g: seq<Entry>, h: seq<Entry>, readFile: string -> ReadResult, sha256: seq<byte> -> Digest) {
    |g| > 1 && |h| > 1 && h in HashGroupsOf(g, readFile, sha256)
  }

  /** Size group g reports path p: g has two or more members and p could not be hashed. */
  predicate ReportsPath(g: seq<Entry>, p: string, readFile: string -> ReadResult, sha256: seq<byte> -> Digest) {
    |g| > 1 && p in ComputeHashes(g, readFile, sha256).errors
  }

  /** A size group's plan offers exactly its digest groups of two or more and reports
      exactly its members that could not be hashed. */
  lemma GroupPlanMembers(g: seq<Entry>, readFile: string -> ReadResult, sha256: seq<byte> -> Digest,
                         h: seq<Entry>, p: string)
    ensures Offer(h) in GroupPlan(g, readFile, sha256) <==> |h| > 1 && h in HashGroupsOf(g, readFile, sha256)
    ensures Fail(p) in GroupPlan(g, readFile, sha256) <==> p in ComputeHashes(g, readFile, sha256).errors
  {
    var fails := Fails(ComputeHashes(g, readFile, sha256).errors);
    var offers := Offers(HashGroupsOf(g, readFile, sha256));
    assert Offer(h) !in fails;
    assert Fail(p) !in offers;
  }

  /** The plan offers exactly the digest groups of two or more of the size groups of two
      or more. */
  lemma PlanOffers(groups: seq<seq<Entry>>, n: nat, readFile: string -> ReadResult,
                    sha256: seq<byte> -> Digest, h: seq<Entry>)
    requires n <= |groups|
    ensures Offer(h) in Plan(groups, n, readFile, sha256) <==>
      exists k :: n <= k < |groups| && OffersGroup(groups[k], h, readFile, sha256)
  {
    if Offer(h) in Plan(groups, n, readFile, sha256) {
      var k := PlanOfferOrigin(groups, n, readFile, sha256, h);
    }
    if exists k :: n <= k < |groups| && OffersGroup(groups[k], h, readFile, sha256) {
      var k :| n <= k < |groups| && OffersGroup(groups[k], h, readFile, sha256);
      OfferInPlan(groups, n, readFile, sha256, h, k);
    }
  }

  /** The size group an offer of the plan comes from. */
  lemma {:induction false} PlanOfferOrigin(groups: seq<seq<Entry>>, n: nat, readFile: string -> ReadResult,
                                           sha256: seq<byte> -> Digest, h: seq<Entry>)
    returns (k: nat)
    requires n <= |groups| && Offer(h) in Plan(groups, n, readFile, sha256)
    ensures n <= k < |groups| && OffersGroup(groups[k], h, readFile, sha256)
    decreases |groups| - n
  {
    var here := if |groups[n]| > 1 then GroupPlan(groups[n], readFile, sha256) else [];
    var later := Plan(groups, n + 1, readFile, sha256);
    assert Plan(groups, n, readFile, sha256) == here + later;
    if Offer(h) in here {
      GroupPlanMembers(groups[n], readFile, sha256, h, "");
      k := n;
    } else {
      k := PlanOfferOrigin(groups, n + 1, readFile, sha256, h);
    }
  }

  /** The plan offers every digest group of two or more of a size group of two or more. */
  lemma {:induction false} OfferInPlan(groups: seq<seq<Entry>>, n: nat, readFile: string -> ReadResult,
                                       sha256: seq<byte> -> Digest, h: seq<Entry>, k: nat)
    requires n <= k < |groups| && OffersGroup(groups[k], h, readFile, sha256)
    ensures Offer(h) in Plan(groups, n, readFile, sha256)
    decreases |groups| - n
  {
    var here := if |groups[n]| > 1 then GroupPlan(groups[n], readFile, sha256) else [];
    var later := Plan(groups, n + 1, readFile, sha256);
    assert Plan(groups, n, readFile, sha256) == here + later;
    if k == n {
      GroupPlanMembers(groups[n], readFile, sha256, h, "");
    } else {
      OfferInPlan(groups, n + 1, readFile, sha256, h, k);
    }
  }

  /** The plan reports exactly the members of the size groups of two or more that could
      not be hashed. */
  lemma PlanFails(groups: seq<seq<Entry>>, n: nat, readFile: string -> ReadResult,
                   sha256: seq<byte> -> Digest, p: string)
    requires n <= |groups|
    ensures Fail(p) in Plan(groups, n, readFile, sha256) <==>
      exists k :: n <= k < |groups| && ReportsPath(groups[k], p, readFile, sha256)
  {
    if Fail(p) in Plan(groups, n, readFile, sha256) {
      var k := PlanFailOrigin(groups, n, readFile, sha256, p);
    }
    if exists k :: n <= k < |groups| && ReportsPath(groups[k], p, readFile, sha256) {
      var k :| n <= k < |groups| && ReportsPath(groups[k], p, readFile, sha256);
      FailInPlan(groups, n, readFile, sha256, p, k);
    }
  }

  /** The size group an error line of the plan comes from. */
  lemma {:induction false} PlanFailOrigin(groups: seq<seq<Entry>>, n: nat, readFile: string -> ReadResult,
                                          sha256: seq<byte> -> Digest, p: string)
    returns (k: nat)
    requires n <= |groups| && Fail(p) in Plan(groups, n, readFile, sha256)
    ensures n <= k < |groups| && ReportsPath(groups[k], p, readFile, sha256)
    decreases |groups| - n
  {
    var here := if |groups[n]| > 1 then GroupPlan(groups[n], readFile, sha256) else [];
    var later := Plan(groups, n + 1, readFile, sha256);
    assert Plan(groups, n, readFile, sha256) == here + later;
    if Fail(p) in here {
      GroupPlanMembers(groups[n], readFile, sha256, [], p);
      k := n;
    } else {
      k := PlanFailOrigin(groups, n + 1, readFile, sha256, p);
    }
  }

  /** The plan reports every member of a size group of two or more that could not be
      hashed. */
  lemma {:induction false} FailInPlan(groups: seq<seq<Entry>>, n: nat, readFile: string -> ReadResult,
                                      sha256: seq<byte> -> Digest, p: string, k: nat)
    requires n <= k < |groups| && ReportsPath(groups[k], p, readFile, sha256)
    ensures Fail(p) in Plan(groups, n, readFile, sha256)
    decreases |groups| - n
  {
    var here := if |groups[n]| > 1 then GroupPlan(groups[n], readFile, sha256) else [];
    var later := Plan(groups, n + 1, readFile, sha256);
    assert Plan(groups, n, readFile, sha256) == here + later;
    if k == n {
      GroupPlanMembers(groups[n], readFile, sha256, [], p);
    } else {
      FailInPlan(groups, n + 1, readFile, sha256, p, k);
    }
  }

  /** The group h is offered: some event handled exactly h. */
  predicate Offered(events: seq<Event>, h: seq<Entry>) {
    exists n :: 0 <= n < |events| && events[n].Handled? && events[n].group == h
  }

  /** A run that carried out all of a plan offered exactly the groups the plan offers and
      reported exactly the paths it reports. */
  lemma FollowedSteps(r: Run, plan: seq<Step>, h: seq<Entry>, p: string)
    requires Follows(r, plan) && !r.quit
    ensures Offered(r.events, h) <==> Offer(h) in plan
    ensures HashFailed(p) in r.events <==> Fail(p) in plan
  {
    if Offered(r.events, h) {
      var n :| 0 <= n < |r.events| && r.events[n].Handled? && r.events[n].group == h;
      assert Matches(r.events[n], plan[n]);
      assert plan[n] == Offer(h);
    }
    if Offer(h) in plan {
      var n :| 0 <= n < |plan| && plan[n] == Offer(h);
      assert Matches(r.events[n], plan[n]);
    }
    if HashFailed(p) in r.events {
      var n :| 0 <= n < |r.events| && r.events[n] == HashFailed(p);
      assert Matches(r.events[n], plan[n]);
      assert plan[n] == Fail(p);
    }
    if Fail(p) in plan {
      var n :| 0 <= n < |plan| && plan[n] == Fail(p);
      assert Matches(r.events[n], plan[n]);
    }
  }

  /** The loop over the digest groups of one size group: the groups of one member are
      passed over; a quit ends the program. */
  function HandleHashGroups(groups: seq<seq<Entry>>, input: seq<string>,
                            isSymlink: string -> bool, deleteFile: string -> DeleteStatus)
    : (r: Run)
    ensures Suffix(r.rest, input)
    ensures QuitLast(r)
    ensures AllHandledIn(r.events, groups, isSymlink, deleteFile)
    ensures Follows(r, Offers(groups))
    ensures Replays(r.events, input, r.rest, isSymlink, deleteFile)
    decreases |groups|
  {
    if |groups| == 0 then Run([], input, false)
    else if |groups[0]| <= 1 then
      var r := HandleHashGroups(groups[1..], input, isSymlink, deleteFile);
      AllHandledInTail(r.events, groups, isSymlink, deleteFile);
      assert Offers(groups) == [] + Offers(groups[1..]);
      r
    else
      var res := HandleDuplicateGroup(groups[0], input, isSymlink, deleteFile);
      var event := Handled(groups[0], res.outcome);
      if res.outcome == Quit then
        FirstGroupQuits(groups, input, isSymlink, deleteFile);
        Run([event], input[res.consumed..], true)
      else
        var r := HandleHashGroups(groups[1..], input[res.consumed..], isSymlink, deleteFile);
        HandleSound(groups[0], input, isSymlink, deleteFile);
        FirstGroupContinues(groups, input, input[res.consumed..], event, r, isSymlink, deleteFile);
        FirstGroupFollows(groups, input, event, r, isSymlink, deleteFile);
        Run([event] + r.events, r.rest, r.quit)
  }

  /** The user quit at the first digest group: the run is that one event. */
  lemma FirstGroupQuits(groups: seq<seq<Entry>>, input: seq<string>,
                        isSymlink: string -> bool, deleteFile: string -> DeleteStatus)
    requires |groups| > 0 && |groups[0]| > 1
    requires HandleDuplicateGroup(groups[0], input, isSymlink, deleteFile).outcome == Quit
    ensures var res := HandleDuplicateGroup(groups[0], input, isSymlink, deleteFile);
      var r := Run([Handled(groups[0], Quit)], input[res.consumed..], true);
      && Suffix(r.rest, input) && QuitLast(r)
      && AllHandledIn(r.events, groups, isSymlink, deleteFile)
      && Follows(r, Offers(groups))
      && Replays(r.events, input, r.rest, isSymlink, deleteFile)
  {
    var res := HandleDuplicateGroup(groups[0], input, isSymlink, deleteFile);
    var event := Handled(groups[0], Quit);
    HandleSound(groups[0], input, isSymlink, deleteFile);
    assert HandledIn(event, groups, isSymlink, deleteFile);
    assert Offers(groups) == [Offer(groups[0])] + Offers(groups[1..]);
    assert IsQuit([event][0]);
    ReplaysHandled(groups[0], [], input, input[res.consumed..], isSymlink, deleteFile);
    assert [event] + [] == [event];
  }

  /** The first digest group was handled without a quit and the loop went on with the
      rest of the groups on the input left: the run stays sound and quits last. */
  lemma FirstGroupContinues(groups: seq<seq<Entry>>, input: seq<string>, mid: seq<string>, event: Event, r: Run,
                            isSymlink: string -> bool, deleteFile: string -> DeleteStatus)
    requires |groups| > 0 && |groups[0]| > 1
    requires event.Handled? && event.group == groups[0] && event.outcome != Quit
    requires Sound(groups[0], event.outcome, isSymlink, deleteFile)
    requires Suffix(mid, input) && Suffix(r.rest, mid) && QuitLast(r)
    requires AllHandledIn(r.events, groups[1..], isSymlink, deleteFile)
    ensures var all := Run([event] + r.events, r.rest, r.quit);
      && Suffix(all.rest, input) && QuitLast(all)
      && AllHandledIn(all.events, groups, isSymlink, deleteFile)
  {
    QuitLastPrepend([event], r);
    assert HandledIn(event, groups, isSymlink, deleteFile);
    AllHandledInPrepend(event, r.events, groups, isSymlink, deleteFile);
  }

  /** The same step, for the plan and the input: the first group is the first offer, and
      it reads its lines before the rest of the run. */
  lemma FirstGroupFollows(groups: seq<seq<Entry>>, input: seq<string>, event: Event, r: Run,
                          isSymlink: string -> bool, deleteFile: string -> DeleteStatus)
    requires |groups| > 0 && |groups[0]| > 1
    requires event.Handled? && event.group == groups[0] && event.outcome != Quit
    requires Answers(event, input, isSymlink, deleteFile)
    requires Follows(r, Offers(groups[1..]))
    requires Replays(r.events, After(event, input, isSymlink, deleteFile), r.rest, isSymlink, deleteFile)
    ensures var all := Run([event] + r.events, r.rest, r.quit);
      && Follows(all, Offers(groups))
      && Replays(all.events, input, all.rest, isSymlink, deleteFile)
  {
    var mid := After(event, input, isSymlink, deleteFile);
    assert Offers(groups) == [Offer(groups[0])] + Offers(groups[1..]);
    FollowsOne(event, Offer(groups[0]), mid);
    FollowsAppend(Run([event], mid, false), [Offer(groups[0])], r, Offers(groups[1..]));
    ReplaysCons(event, r.events, input, r.rest, isSymlink, deleteFile);
  }

  /** The error lines ComputeHashes prints. */
  function Failures(errors: seq<string>): (evs: seq<Event>)
    ensures |evs| == |errors|
    ensures forall i :: 0 <= i < |errors| ==> evs[i] == HashFailed(errors[i])
  {
    seq(|errors|, i requires 0 <= i < |errors| => HashFailed(errors[i]))
  }

  /** What an event says about the errors and digest groups of the size group it came
      from: a failed path is one that could not be hashed, and a handled group is one of
      the digest groups. */
  predicate EventIn(errors: seq<string>, hgs: seq<seq<Entry>>, e: Event,
                    isSymlink: string -> bool, deleteFile: string -> DeleteStatus)
  {
    && (e.HashFailed? ==> e.path in errors)
    && (e.Handled? ==> HandledIn(e, hgs, isSymlink, deleteFile))
  }

  /** What an event of the size-group loop says about the size group g it came from. */
  predicate EventOf(g: seq<Entry>, e: Event, readFile: string -> ReadResult, sha256: seq<byte> -> Digest,
                    isSymlink: string -> bool, deleteFile: string -> DeleteStatus)
  {
    var hashed := ComputeHashes(g, readFile, sha256);
    EventIn(hashed.errors, GroupByHash(hashed.entries), e, isSymlink, deleteFile)
  }

  /** The event comes from one of the size groups with two or more members. */
  ghost predicate FromSizeGroup(e: Event, groups: seq<seq<Entry>>, readFile: string -> ReadResult,
                                sha256: seq<byte> -> Digest, isSymlink: string -> bool,
                                deleteFile: string -> DeleteStatus)
  {
    exists k :: 0 <= k < |groups| && |groups[k]| > 1 && EventOf(groups[k], e, readFile, sha256, isSymlink, deleteFile)
  }

  ghost predicate AllFromSizeGroups(events: seq<Event>, groups: seq<seq<Entry>>, readFile: string -> ReadResult,
                                    sha256: seq<byte> -> Digest, isSymlink: string -> bool,
                                    deleteFile: string -> DeleteStatus)
  {
    forall i :: 0 <= i < |events| ==> FromSizeGroup(events[i], groups, readFile, sha256, isSymlink, deleteFile)
  }

  /** The events of size group n, when it has two or more members. */
  lemma GroupAtEvents(events: seq<Event>, groups: seq<seq<Entry>>, n: nat, readFile: string -> ReadResult,
                      sha256: seq<byte> -> Digest, isSymlink: string -> bool, deleteFile: string -> DeleteStatus)
    requires n < |groups| && |groups[n]| > 1
    requires forall i :: 0 <= i < |events| ==> EventOf(groups[n], events[i], readFile, sha256, isSymlink, deleteFile)
    ensures AllFromSizeGroups(events, groups, readFile, sha256, isSymlink, deleteFile)
  {
    forall i | 0 <= i < |events| ensures FromSizeGroup(events[i], groups, readFile, sha256, isSymlink, deleteFile) {
      assert EventOf(groups[n], events[i], readFile, sha256, isSymlink, deleteFile);
    }
  }

  lemma AppendGroupEvents(a: seq<Event>, b: seq<Event>, groups: seq<seq<Entry>>, readFile: string -> ReadResult,
                          sha256: seq<byte> -> Digest, isSymlink: string -> bool, deleteFile: string -> DeleteStatus)
    requires AllFromSizeGroups(a, groups, readFile, sha256, isSymlink, deleteFile)
    requires AllFromSizeGroups(b, groups, readFile, sha256, isSymlink, deleteFile)
    ensures AllFromSizeGroups(a + b, groups, readFile, sha256, isSymlink, deleteFile)
  {
    forall i | 0 <= i < |a + b| ensures FromSizeGroup((a + b)[i], groups, readFile, sha256, isSymlink, deleteFile) {
      if i < |a| {
        assert (a + b)[i] == a[i];
      } else {
        assert (a + b)[i] == b[i - |a|];
      }
    }
  }

  /** One pass of main's loop for a size group of two or more: hash it, regroup it by
      digest, handle every digest group of two or more. The error lines come first, then
      the handled groups, and everything it reports comes from this size group. */
  function HashAndHandle(g: seq<Entry>, input: seq<string>, readFile: string -> ReadResult,
                         sha256: seq<byte> -> Digest, isSymlink: string -> bool, deleteFile: string -> DeleteStatus)
    : (r: Run)
    ensures Suffix(r.rest, input)
    ensures QuitLast(r)
    ensures forall i :: 0 <= i < |r.events| ==> EventOf(g, r.events[i], readFile, sha256, isSymlink, deleteFile)
    ensures var errors := ComputeHashes(g, readFile, sha256).errors;
      |errors| <= |r.events| && forall i :: 0 <= i < |errors| ==> r.events[i] == HashFailed(errors[i])
    ensures Follows(r, GroupPlan(g, readFile, sha256))
    ensures Replays(r.events, input, r.rest, isSymlink, deleteFile)
  {
    var hashed := ComputeHashes(g, readFile, sha256);
    var here := HandleHashGroups(HashGroupsOf(g, readFile, sha256), input, isSymlink, deleteFile);
    GroupEvents(hashed.errors, GroupByHash(hashed.entries), here.events, isSymlink, deleteFile);
    WithErrorLines(hashed.errors, here, input, Offers(HashGroupsOf(g, readFile, sha256)), isSymlink, deleteFile)
  }

  /** The error lines of a size group put in front of the run over its digest groups:
      they come first, read no input and carry out the failure steps of the plan. */
  function WithErrorLines(errors: seq<string>, here: Run, input: seq<string>, offers: seq<Step>,
                          isSymlink: string -> bool, deleteFile: string -> DeleteStatus)
    : (r: Run)
    requires QuitLast(here) && Follows(here, offers)
    requires Replays(here.events, input, here.rest, isSymlink, deleteFile)
    ensures r.events == Failures(errors) + here.events && r.rest == here.rest && r.quit == here.quit
    ensures QuitLast(r)
    ensures |errors| <= |r.events| && forall i :: 0 <= i < |errors| ==> r.events[i] == HashFailed(errors[i])
    ensures Replays(r.events, input, r.rest, isSymlink, deleteFile)
    ensures Follows(r, Fails(errors) + offers)
  {
    var failed := Failures(errors);
    var r := Run(failed + here.events, here.rest, here.quit);
    QuitLastPrepend(failed, here);
    FailuresFirst(errors, here.events);
    ReplaysFailures(errors, input, isSymlink, deleteFile);
    ReplaysAppend(failed, here.events, input, input, here.rest, isSymlink, deleteFile);
    assert Follows(Run(failed, input, false), Fails(errors));
    FollowsAppend(Run(failed, input, false), Fails(errors), here, offers);
    r
  }

  /** The error lines put in front of other events are the first events, in order. */
  lemma FailuresFirst(errors: seq<string>, later: seq<Event>)
    ensures |errors| <= |Failures(errors) + later|
    ensures forall i :: 0 <= i < |errors| ==> (Failures(errors) + later)[i] == HashFailed(errors[i])
  {
    var events := Failures(errors) + later;
    forall i | 0 <= i < |errors| ensures events[i] == HashFailed(errors[i]) {
      assert events[i] == Failures(errors)[i];
    }
  }

  /** The error lines of a size group and the outcomes for its digest groups come from
      that size group. */
  lemma GroupEvents(errors: seq<string>, hgs: seq<seq<Entry>>, handled: seq<Event>,
                    isSymlink: string -> bool, deleteFile: string -> DeleteStatus)
    requires AllHandledIn(handled, hgs, isSymlink, deleteFile)
    ensures var events := Failures(errors) + handled;
      forall i :: 0 <= i < |events| ==> EventIn(errors, hgs, events[i], isSymlink, deleteFile)
  {
    var failed := Failures(errors);
    var events := failed + handled;
    forall i | 0 <= i < |events| ensures EventIn(errors, hgs, events[i], isSymlink, deleteFile) {
      if i < |failed| {
        assert events[i] == HashFailed(errors[i]);
      } else {
        assert events[i] == handled[i - |failed|];
      }
    }
  }

  /** The loop over the size groups, from group n on: every group of two or more is
      hashed and regrouped by digest, and its digest groups are handled, until the user
      quits. */
  function HandleSizeGroups(groups: seq<seq<Entry>>, n: nat, input: seq<string>,
                            readFile: string -> ReadResult, sha256: seq<byte> -> Digest,
                            isSymlink: string -> bool, deleteFile: string -> DeleteStatus)
    : (r: Run)
    requires n <= |groups|
    ensures Suffix(r.rest, input)
    ensures QuitLast(r)
    ensures AllFromSizeGroups(r.events, groups, readFile, sha256, isSymlink, deleteFile)
    ensures Follows(r, Plan(groups, n, readFile, sha256))
    ensures Replays(r.events, input, r.rest, isSymlink, deleteFile)
    decreases |groups| - n
  {
    if n == |groups| then Run([], input, false)
    else if |groups[n]| <= 1 then
      PlanSkips(groups, n, readFile, sha256);
      HandleSizeGroups(groups, n + 1, input, readFile, sha256, isSymlink, deleteFile)
    else
      var here := HashAndHandle(groups[n], input, readFile, sha256, isSymlink, deleteFile);
      if here.quit then
        SizeGroupQuits(groups, n, here, readFile, sha256, isSymlink, deleteFile);
        here
      else
        var r := HandleSizeGroups(groups, n + 1, here.rest, readFile, sha256, isSymlink, deleteFile);
        SizeGroupContinues(groups, n, here, r, readFile, sha256, isSymlink, deleteFile);
        ReplaysAppend(here.events, r.events, input, here.rest, r.rest, isSymlink, deleteFile);
        Run(here.events + r.events, r.rest, r.quit)
  }

  /** A size group of one member adds nothing to the plan. */
  lemma PlanSkips(groups: seq<seq<Entry>>, n: nat, readFile: string -> ReadResult, sha256: seq<byte> -> Digest)
    requires n < |groups| && |groups[n]| <= 1
    ensures Plan(groups, n, readFile, sha256) == Plan(groups, n + 1, readFile, sha256)
  {
    assert Plan(groups, n, readFile, sha256) == [] + Plan(groups, n + 1, readFile, sha256);
  }

  /** The user quit during size group n: what was shown is a prefix of the plan from n. */
  lemma SizeGroupQuits(groups: seq<seq<Entry>>, n: nat, here: Run, readFile: string -> ReadResult,
                       sha256: seq<byte> -> Digest, isSymlink: string -> bool, deleteFile: string -> DeleteStatus)
    requires n < |groups| && |groups[n]| > 1 && here.quit
    requires forall i :: 0 <= i < |here.events| ==> EventOf(groups[n], here.events[i], readFile, sha256, isSymlink, deleteFile)
    requires Follows(here, GroupPlan(groups[n], readFile, sha256))
    ensures AllFromSizeGroups(here.events, groups, readFile, sha256, isSymlink, deleteFile)
    ensures Follows(here, Plan(groups, n, readFile, sha256))
  {
    var plan := GroupPlan(groups[n], readFile, sha256);
    assert Plan(groups, n, readFile, sha256) == plan + Plan(groups, n + 1, readFile, sha256);
    GroupAtEvents(here.events, groups, n, readFile, sha256, isSymlink, deleteFile);
    FollowsQuit(here, plan, Plan(groups, n + 1, readFile, sha256));
  }

  /** Size group n was handled without a quit and the loop went on from n + 1. */
  lemma SizeGroupContinues(groups: seq<seq<Entry>>, n: nat, here: Run, r: Run, readFile: string -> ReadResult,
                           sha256: seq<byte> -> Digest, isSymlink: string -> bool, deleteFile: string -> DeleteStatus)
    requires n < |groups| && |groups[n]| > 1 && !here.quit
    requires forall i :: 0 <= i < |here.events| ==> EventOf(groups[n], here.events[i], readFile, sha256, isSymlink, deleteFile)
    requires Follows(here, GroupPlan(groups[n], readFile, sha256))
    requires QuitLast(here) && QuitLast(r)
    requires AllFromSizeGroups(r.events, groups, readFile, sha256, isSymlink, deleteFile)
    requires Follows(r, Plan(groups, n + 1, readFile, sha256))
    ensures var all := Run(here.events + r.events, r.rest, r.quit);
      && QuitLast(all)
      && AllFromSizeGroups(all.events, groups, readFile, sha256, isSymlink, deleteFile)
      && Follows(all, Plan(groups, n, readFile, sha256))
  {
    var plan := GroupPlan(groups[n], readFile, sha256);
    assert Plan(groups, n, readFile, sha256) == plan + Plan(groups, n + 1, readFile, sha256);
    GroupAtEvents(here.events, groups, n, readFile, sha256, isSymlink, deleteFile);
    assert forall i :: 0 <= i < |here.events| ==> !IsQuit(here.events[i]);
    QuitLastPrepend(here.events, r);
    AppendGroupEvents(here.events, r.events, groups, readFile, sha256, isSymlink, deleteFile);
    FollowsAppend(here, plan, r, Plan(groups, n + 1, readFile, sha256));
  }

  /** The whole program. listingOf says what enumerating a directory path returns. */
  function FindDuplicates(args: seq<string>, cwd: string, listingOf: string -> Listing,
                          readFile: string -> ReadResult, sha256: seq<byte> -> Digest,
                          isSymlink: string -> bool, deleteFile: string -> DeleteStatus,
                          input: seq<string>)
    : (r: Run)
    ensures Suffix(r.rest, input)
    ensures QuitLast(r)
    ensures Follows(r, Plan(SizeGroupsOf(Files(args, cwd, listingOf)), 0, readFile, sha256))
    ensures Replays(r.events, input, r.rest, isSymlink, deleteFile)
  {
    HandleSizeGroups(SizeGroupsOf(Files(args, cwd, listingOf)), 0, input, readFile, sha256, isSymlink, deleteFile)
  }

  /** A group of two or more whose members all have a digest, the same digest, and the
      same size. */
  predicate AgreeingGroup(g: seq<Entry>) {
    |g| > 1 && forall x, y :: x in g && y in g ==> x.hash.Some? && x.hash == y.hash && x.size == y.size
  }

  /** Every member has the path and size of an entry of the file list. */
  predicate FromWalk(g: seq<Entry>, files: seq<Entry>) {
    forall x :: x in g ==> exists f :: f in files && f.path == x.path && f.size == x.size
  }

  /** A handled group from the size groups of a file list is a group of true duplicates
      drawn from that list. */
  lemma HandledGroupAgrees(files: seq<Entry>, e: Event, readFile: string -> ReadResult,
                           sha256: seq<byte> -> Digest, isSymlink: string -> bool,
                           deleteFile: string -> DeleteStatus)
    requires FromSizeGroup(e, SizeGroupsOf(files), readFile, sha256, isSymlink, deleteFile)
    requires e.Handled?
    ensures AgreeingGroup(e.group)
    ensures FromWalk(e.group, files)
  {
    var k, j := HandledGroupOrigin(SizeGroupsOf(files), e, readFile, sha256, isSymlink, deleteFile);
    var hashed := ComputeHashes(SizeGroupsOf(files)[k], readFile, sha256);
    forall x, y | x in e.group && y in e.group
      ensures x.hash.Some? && x.hash == y.hash && x.size == y.size
    {
      PairAgrees(files, k, hashed, j, x, y, readFile, sha256);
    }
    forall x | x in e.group
      ensures exists f :: f in files && f.path == x.path && f.size == x.size
    {
      var f := SizeGroupMember(files, k, hashed, x, readFile, sha256, j);
    }
  }

  /** Two members of digest group j of size group k agree on digest and size. */
  lemma PairAgrees(files: seq<Entry>, k: nat, hashed: Hashed, j: nat, x: Entry, y: Entry,
                   readFile: string -> ReadResult, sha256: seq<byte> -> Digest)
    requires k < |SizeGroupsOf(files)|
    requires hashed == ComputeHashes(SizeGroupsOf(files)[k], readFile, sha256)
    requires j < |GroupByHash(hashed.entries)| && |GroupByHash(hashed.entries)[j]| > 1
    requires x in GroupByHash(hashed.entries)[j] && y in GroupByHash(hashed.entries)[j]
    ensures x.hash.Some? && x.hash == y.hash && x.size == y.size
  {
    HashGroupMembersEqual(hashed.entries, j, x, y);
    var fx := SizeGroupMember(files, k, hashed, x, readFile, sha256, j);
    var fy := SizeGroupMember(files, k, hashed, y, readFile, sha256, j);
    SizeGroupUniform(files, k, fx);
    SizeGroupUniform(files, k, fy);
  }

  /** The size group k and its digest group j a handled group is. */
  lemma HandledGroupOrigin(groups: seq<seq<Entry>>, e: Event, readFile: string -> ReadResult,
                           sha256: seq<byte> -> Digest, isSymlink: string -> bool,
                           deleteFile: string -> DeleteStatus)
    returns (k: nat, j: nat)
    requires FromSizeGroup(e, groups, readFile, sha256, isSymlink, deleteFile)
    requires e.Handled?
    ensures k < |groups| && |e.group| > 1
    ensures var hgs := GroupByHash(ComputeHashes(groups[k], readFile, sha256).entries);
      j < |hgs| && hgs[j] == e.group
  {
    var k' :| 0 <= k' < |groups| && |groups[k']| > 1 && EventOf(groups[k'], e, readFile, sha256, isSymlink, deleteFile);
    var hashed := ComputeHashes(groups[k'], readFile, sha256);
    var hgs := GroupByHash(hashed.entries);
    assert HandledIn(e, hgs, isSymlink, deleteFile);
    var j' :| 0 <= j' < |hgs| && hgs[j'] == e.group;
    k, j := k', j';
  }

  /** A member of digest group j of size group k is an entry of size group k, digest
      aside, and hence of the list. */
  lemma SizeGroupMember(files: seq<Entry>, k: nat, hashed: Hashed, x: Entry,
                        readFile: string -> ReadResult, sha256: seq<byte> -> Digest, j: nat)
    returns (f: Entry)
    requires k < |SizeGroupsOf(files)|
    requires hashed == ComputeHashes(SizeGroupsOf(files)[k], readFile, sha256)
    requires j < |GroupByHash(hashed.entries)| && x in GroupByHash(hashed.entries)[j]
    ensures f in SizeGroupsOf(files)[k] && f in files && f.path == x.path && f.size == x.size
  {
    var groups := SizeGroupsOf(files);
    HashGroupWithin(hashed.entries, j, x);
    ComputeHashesKeepsPaths(groups[k], readFile, sha256, x);
    f :| f in groups[k] && f.path == x.path && f.size == x.size;
    FlattenMember(groups, k, f);
    assert f in multiset(Flatten(groups));
  }

  /** Some size group of two or more holds a file at path p. */
  predicate InCandidateGroup(groups: seq<seq<Entry>>, p: string) {
    exists k, i :: 0 <= k < |groups| && |groups[k]| > 1 && 0 <= i < |groups[k]| && groups[k][i].path == p
  }

  /** An error line names a file of a size group of two or more that could not be
      read to the end. */
  lemma FailureIsMember(groups: seq<seq<Entry>>, e: Event, readFile: string -> ReadResult,
                        sha256: seq<byte> -> Digest, isSymlink: string -> bool, deleteFile: string -> DeleteStatus)
    requires FromSizeGroup(e, groups, readFile, sha256, isSymlink, deleteFile)
    requires e.HashFailed?
    ensures ComputeFileHash(readFile(e.path), sha256) == None
    ensures InCandidateGroup(groups, e.path)
  {
    var k :| 0 <= k < |groups| && |groups[k]| > 1 && EventOf(groups[k], e, readFile, sha256, isSymlink, deleteFile);
    var hashed := ComputeHashes(groups[k], readFile, sha256);
    assert e.path in hashed.errors;
    var i :| 0 <= i < |groups[k]| && groups[k][i].path == e.path && hashed.entries[i].hash.None?;
  }

  /** The entries the program groups: the walk of the directory the arguments name. */
  function Files(args: seq<string>, cwd: string, listingOf: string -> Listing): (files: seq<Entry>)
    ensures var o := ParseArgs(args); var dir := Directory(o, cwd);
      files == Reverse(Discovered(dir, listingOf(dir), o.recursive))
  {
    var o := ParseArgs(args);
    var dir := Directory(o, cwd);
    TraverseIsReversedDiscovery(dir, listingOf(dir), o.recursive, []);
    assert Reverse(Discovered(dir, listingOf(dir), o.recursive)) + [] == Reverse(Discovered(dir, listingOf(dir), o.recursive));
    TraverseDirectory(dir, listingOf(dir), o.recursive, [])
  }

  lemma FindDuplicatesEvents(args: seq<string>, cwd: string, listingOf: string -> Listing,
                             readFile: string -> ReadResult, sha256: seq<byte> -> Digest,
                             isSymlink: string -> bool, deleteFile: string -> DeleteStatus,
                             input: seq<string>)
    ensures AllFromSizeGroups(FindDuplicates(args, cwd, listingOf, readFile, sha256, isSymlink, deleteFile, input).events,
                              SizeGroupsOf(Files(args, cwd, listingOf)), readFile, sha256, isSymlink, deleteFile)
  {
  }

  /** A run the user did not quit offers exactly the digest groups of two or more of the
      size groups of two or more, and prints an error line for exactly the members of
      those size groups that could not be hashed. */
  lemma EveryDuplicateGroupOffered(args: seq<string>, cwd: string, listingOf: string -> Listing,
                                   readFile: string -> ReadResult, sha256: seq<byte> -> Digest,
                                   isSymlink: string -> bool, deleteFile: string -> DeleteStatus,
                                   input: seq<string>, h: seq<Entry>, p: string)
    ensures var r := FindDuplicates(args, cwd, listingOf, readFile, sha256, isSymlink, deleteFile, input);
      var groups := SizeGroupsOf(Files(args, cwd, listingOf));
      !r.quit ==>
        && (Offered(r.events, h) <==> exists k :: 0 <= k < |groups| && OffersGroup(groups[k], h, readFile, sha256))
        && (HashFailed(p) in r.events <==> exists k :: 0 <= k < |groups| && ReportsPath(groups[k], p, readFile, sha256))
  {
    var r := FindDuplicates(args, cwd, listingOf, readFile, sha256, isSymlink, deleteFile, input);
    RunCompletesPlan(r, SizeGroupsOf(Files(args, cwd, listingOf)), readFile, sha256, h, p);
  }

  /** The k-th step of the plan is its first offer: every step before it is an error
      line. */
  predicate FirstOffer(plan: seq<Step>, k: nat) {
    k < |plan| && plan[k].Offer? && forall i :: 0 <= i < k ==> plan[i].Fail?
  }

  /** Typing "q" at the first group offered ends the program right there. */
  lemma FirstOfferQuits(args: seq<string>, cwd: string, listingOf: string -> Listing,
                        readFile: string -> ReadResult, sha256: seq<byte> -> Digest,
                        isSymlink: string -> bool, deleteFile: string -> DeleteStatus,
                        input: seq<string>, k: nat)
    ensures QuitsAtFirstOffer(FindDuplicates(args, cwd, listingOf, readFile, sha256, isSymlink, deleteFile, input),
                              Plan(SizeGroupsOf(Files(args, cwd, listingOf)), 0, readFile, sha256), input, k)
  {
    var r := FindDuplicates(args, cwd, listingOf, readFile, sha256, isSymlink, deleteFile, input);
    var groups := SizeGroupsOf(Files(args, cwd, listingOf));
    var plan := Plan(groups, 0, readFile, sha256);
    if FirstOffer(plan, k) && |plan[k].group| > 1 && NamesSimilar(plan[k].group) && |input| > 0 && input[0] == "q" {
      QuitOnFirstOffer(r, plan, input, k, isSymlink, deleteFile);
    }
  }

  /** When the k-th step is the plan's first offer, its names pass the similarity check
      and the first line typed is "q", the run ends with that group's quit, after only the
      error lines before it, having read one line. */
  predicate QuitsAtFirstOffer(r: Run, plan: seq<Step>, input: seq<string>, k: nat) {
    FirstOffer(plan, k) && |plan[k].group| > 1 && NamesSimilar(plan[k].group) && |input| > 0 && input[0] == "q" ==>
      && r.quit && |r.events| == k + 1
      && r.events[k] == Handled(plan[k].group, Quit)
      && r.rest == input[1..]
  }

  /** A run that follows a plan and replays the input quits at the plan's first offer
      when the first line typed is "q" and the group passes the similarity check. */
  lemma QuitOnFirstOffer(r: Run, plan: seq<Step>, input: seq<string>, k: nat,
                         isSymlink: string -> bool, deleteFile: string -> DeleteStatus)
    requires Follows(r, plan) && QuitLast(r) && Replays(r.events, input, r.rest, isSymlink, deleteFile)
    requires FirstOffer(plan, k) && |plan[k].group| > 1 && NamesSimilar(plan[k].group)
    requires |input| > 0 && input[0] == "q"
    ensures r.quit && |r.events| == k + 1 && r.events[k] == Handled(plan[k].group, Quit)
    ensures r.rest == input[1..]
  {
    ReachesFirstOffer(r, plan, k);
    assert Matches(r.events[k], plan[k]);
    ReplaysThroughFailures(r.events, input, r.rest, k, isSymlink, deleteFile);
    KeepLineOutcomes(plan[k].group, input, isSymlink, deleteFile);
    assert IsQuit(r.events[k]);
    ReplaysRest(r.events, input, r.rest, k, isSymlink, deleteFile);
  }

  /** A run that follows a plan gets at least as far as the plan's first offer: the error
      lines before it cannot quit. */
  lemma ReachesFirstOffer(r: Run, plan: seq<Step>, k: nat)
    requires Follows(r, plan) && QuitLast(r) && FirstOffer(plan, k)
    ensures k < |r.events|
    ensures forall i :: 0 <= i < k ==> r.events[i].HashFailed?
  {
    forall i | 0 <= i < k && i < |r.events| ensures r.events[i].HashFailed? {
      assert Matches(r.events[i], plan[i]);
    }
  }

  /** A run that carried out the whole plan of some size groups offered and reported
      what those size groups call for. */
  lemma RunCompletesPlan(r: Run, groups: seq<seq<Entry>>, readFile: string -> ReadResult,
                         sha256: seq<byte> -> Digest, h: seq<Entry>, p: string)
    requires Follows(r, Plan(groups, 0, readFile, sha256))
    ensures !r.quit ==>
      && (Offered(r.events, h) <==> exists k :: 0 <= k < |groups| && OffersGroup(groups[k], h, readFile, sha256))
      && (HashFailed(p) in r.events <==> exists k :: 0 <= k < |groups| && ReportsPath(groups[k], p, readFile, sha256))
  {
    if !r.quit {
      FollowedSteps(r, Plan(groups, 0, readFile, sha256), h, p);
      PlanOffers(groups, 0, readFile, sha256, h);
      PlanFails(groups, 0, readFile, sha256, p);
    }
  }

  /** Only true duplicates reach the user: every group offered has two or more files, all
      of one size and with one digest, and each of them was found by the walk. */
  lemma OfferedGroupsAreDuplicates(args: seq<string>, cwd: string, listingOf: string -> Listing,
                                   readFile: string -> ReadResult, sha256: seq<byte> -> Digest,
                                   isSymlink: string -> bool, deleteFile: string -> DeleteStatus,
                                   input: seq<string>)
    ensures var r := FindDuplicates(args, cwd, listingOf, readFile, sha256, isSymlink, deleteFile, input);
      forall n :: 0 <= n < |r.events| && r.events[n].Handled? ==>
        AgreeingGroup(r.events[n].group) && FromWalk(r.events[n].group, Files(args, cwd, listingOf))
  {
    FindDuplicatesEvents(args, cwd, listingOf, readFile, sha256, isSymlink, deleteFile, input);
    var r := FindDuplicates(args, cwd, listingOf, readFile, sha256, isSymlink, deleteFile, input);
    EventsAgree(r.events, Files(args, cwd, listingOf), readFile, sha256, isSymlink, deleteFile);
  }

  lemma EventsAgree(events: seq<Event>, files: seq<Entry>, readFile: string -> ReadResult,
                    sha256: seq<byte> -> Digest, isSymlink: string -> bool, deleteFile: string -> DeleteStatus)
    requires AllFromSizeGroups(events, SizeGroupsOf(files), readFile, sha256, isSymlink, deleteFile)
    ensures forall n :: 0 <= n < |events| && events[n].Handled? ==>
      AgreeingGroup(events[n].group) && FromWalk(events[n].group, files)
  {
    forall n | 0 <= n < |events| && events[n].Handled?
      ensures AgreeingGroup(events[n].group) && FromWalk(events[n].group, files)
    {
      HandledGroupAgrees(files, events[n], readFile, sha256, isSymlink, deleteFile);
    }
  }

  /** An error line is printed only for a file that shares its size with another file
      and could not be read to the end. */
  lemma ErrorsOnlyForCandidates(args: seq<string>, cwd: string, listingOf: string -> Listing,
                                readFile: string -> ReadResult, sha256: seq<byte> -> Digest,
                                isSymlink: string -> bool, deleteFile: string -> DeleteStatus,
                                input: seq<string>)
    ensures var r := FindDuplicates(args, cwd, listingOf, readFile, sha256, isSymlink, deleteFile, input);
      forall n :: 0 <= n < |r.events| && r.events[n].HashFailed? ==>
        && ComputeFileHash(readFile(r.events[n].path), sha256) == None
        && InCandidateGroup(SizeGroupsOf(Files(args, cwd, listingOf)), r.events[n].path)
  {
    var r := FindDuplicates(args, cwd, listingOf, readFile, sha256, isSymlink, deleteFile, input);
    FindDuplicatesEvents(args, cwd, listingOf, readFile, sha256, isSymlink, deleteFile, input);
    forall n | 0 <= n < |r.events| && r.events[n].HashFailed?
      ensures ComputeFileHash(readFile(r.events[n].path), sha256) == None
      ensures InCandidateGroup(SizeGroupsOf(Files(args, cwd, listingOf)), r.events[n].path)
    {
      FailureIsMember(SizeGroupsOf(Files(args, cwd, listingOf)), r.events[n], readFile, sha256, isSymlink, deleteFile);
    }
  }

  /** A completed deletion passed no symbolic link to DeleteFile, left a member of the
      group, and named only members. */
  predicate SafeOutcome(g: seq<Entry>, o: Outcome, isSymlink: string -> bool) {
    o.Completed? ==>
      && (forall p :: p in Attempted(o.reports) ==> !isSymlink(p))
      && |o.toDelete| < |g|
      && MemberPaths(o.toDelete, g)
  }

  /** Across the whole run, no symbolic link is passed to DeleteFile and no group loses
      all of its members. */
  lemma DeletionIsSafe(args: seq<string>, cwd: string, listingOf: string -> Listing,
                       readFile: string -> ReadResult, sha256: seq<byte> -> Digest,
                       isSymlink: string -> bool, deleteFile: string -> DeleteStatus,
                       input: seq<string>)
    ensures var r := FindDuplicates(args, cwd, listingOf, readFile, sha256, isSymlink, deleteFile, input);
      forall n :: 0 <= n < |r.events| && r.events[n].Handled? ==>
        SafeOutcome(r.events[n].group, r.events[n].outcome, isSymlink)
  {
    FindDuplicatesEvents(args, cwd, listingOf, readFile, sha256, isSymlink, deleteFile, input);
    var r := FindDuplicates(args, cwd, listingOf, readFile, sha256, isSymlink, deleteFile, input);
    EventsSafe(r.events, SizeGroupsOf(Files(args, cwd, listingOf)), readFile, sha256, isSymlink, deleteFile);
  }

  lemma EventsSafe(events: seq<Event>, groups: seq<seq<Entry>>, readFile: string -> ReadResult,
                   sha256: seq<byte> -> Digest, isSymlink: string -> bool, deleteFile: string -> DeleteStatus)
    requires AllFromSizeGroups(events, groups, readFile, sha256, isSymlink, deleteFile)
    ensures forall n :: 0 <= n < |events| && events[n].Handled? ==>
      SafeOutcome(events[n].group, events[n].outcome, isSymlink)
  {
    forall n | 0 <= n < |events| && events[n].Handled?
      ensures SafeOutcome(events[n].group, events[n].outcome, isSymlink)
    {
      HandledIsSafe(groups, events[n], readFile, sha256, isSymlink, deleteFile);
    }
  }

  /** The outcome for a group from the size groups is safe. */
  lemma HandledIsSafe(groups: seq<seq<Entry>>, e: Event, readFile: string -> ReadResult,
                      sha256: seq<byte> -> Digest, isSymlink: string -> bool, deleteFile: string -> DeleteStatus)
    requires FromSizeGroup(e, groups, readFile, sha256, isSymlink, deleteFile)
    requires e.Handled?
    ensures SafeOutcome(e.group, e.outcome, isSymlink)
  {
    var k :| 0 <= k < |groups| && |groups[k]| > 1 && EventOf(groups[k], e, readFile, sha256, isSymlink, deleteFile);
    var hashed := ComputeHashes(groups[k], readFile, sha256);
    assert HandledIn(e, GroupByHash(hashed.entries), isSymlink, deleteFile);
    assert Sound(e.group, e.outcome, isSymlink, deleteFile);
    if e.outcome.Completed? {
      DeleteAllAttempts(e.outcome.toDelete, isSymlink, deleteFile);
    }
  }

  /** CountFiles: the length of a list, counted by walking it. */
  method CountFiles(list: seq<Entry>) returns (count: nat)
    ensures count == |list|
  {
    count := 0;
    var rest := list;
    while |rest| > 0
      invariant count + |rest| == |list|
    {
      count := count + 1;
      rest := rest[1..];
    }
  }
}
