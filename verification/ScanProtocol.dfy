/** The scan: a worker that drops the lock while it looks at a photo, and a client
    that adds, moves, removes, starts and stops meanwhile. Every locked section is
    one step. */
module ScanProtocol {
  import opened Wrappers
  import opened PhotoTables

  /** Where the worker is whenever it does not hold the lock. */
  datatype Phase =
    | Stopped
    | Starting
    | Inferring(path: string, pending: seq<string>)

  /** The one client either is free or waits for the worker to end. */
  datatype Client = Free | Joining

  datatype State = State(tables: Tables, running: bool, phase: Phase, client: Client)

  /** Locked sections, with what the outside world decides: the order in which the
      queue is listed, and what inference found. */
  datatype Event =
    | WorkerStart(listing: seq<string>)
    | WorkerUnloadable(listing: seq<string>)
    | WorkerStore(labels: seq<string>, faces: seq<Embedding>, listing: seq<string>)
    | AddFile(path: string)
    | RemoveFile(path: string)
    | RemoveEverything
    | MoveFile(from: string, to: string)
    | ScanBuffer(path: string, labels: seq<string>, faces: seq<Embedding>)
    | Scan
    | Stop
    | Wait
    | Joined

  predicate IsWorker(ev: Event) {
    ev.WorkerStart? || ev.WorkerUnloadable? || ev.WorkerStore?
  }

  ghost predicate NoRepeats(l: seq<string>) {
    forall i, j :: 0 <= i < j < |l| ==> l[i] != l[j]
  }

  /** The rows of the queue in some order. */
  ghost predicate IsListing(l: seq<string>, queue: set<string>) {
    NoRepeats(l) && forall p :: p in l <==> p in queue
  }

  /** The tables after a section. */
  function NextTables(s: State, ev: Event, matches: Matcher): Tables {
    match ev
    case WorkerUnloadable(_) => if s.phase.Inferring? then ChangedRemove(s.tables, s.phase.path) else s.tables
    case WorkerStore(labels, faces, _) =>
      if s.phase.Inferring? then StorePhoto(s.tables, s.phase.path, labels, faces, matches) else s.tables
    case AddFile(path) => ChangedAdd(s.tables, path)
    case RemoveFile(path) => PhotoRemove(s.tables, path)
    case RemoveEverything => RemoveAll(s.tables)
    case MoveFile(from, to) => var moved := PhotoMove(s.tables, from, to);
      if moved.Success? then moved.value else s.tables
    case ScanBuffer(path, labels, faces) => StorePhoto(s.tables, path, labels, faces, matches)
    case _ => s.tables
  }

  function Pending(s: State): seq<string> {
    if s.phase.Inferring? then s.phase.pending else []
  }

  /** How a worker section goes on until the lock is dropped or the thread ends: stopped,
      next photo of the list, end on an empty queue, or a new list. */
  function Continue(s: State, pending: seq<string>, listing: seq<string>): State
    requires s.running && pending == [] && s.tables.changed != {} ==> listing != []
  {
    if !s.running then s.(phase := Stopped)
    else if pending != [] then s.(phase := Inferring(pending[0], pending[1..]))
    else if s.tables.changed == {} then s.(running := false, phase := Stopped)
    else s.(phase := Inferring(listing[0], listing[1..]))
  }

  ghost predicate Enabled(s: State, ev: Event, matches: Matcher) {
    match ev
    case WorkerStart(listing) => s.phase.Starting? && IsListing(listing, s.tables.changed)
    case WorkerUnloadable(listing) => s.phase.Inferring? && IsListing(listing, NextTables(s, ev, matches).changed)
    case WorkerStore(_, _, listing) => s.phase.Inferring? && IsListing(listing, NextTables(s, ev, matches).changed)
    case Joined => s.client.Joining? && s.phase.Stopped?
    case _ => s.client.Free?
  }

  lemma ListingNotEmpty(l: seq<string>, queue: set<string>)
    requires IsListing(l, queue) && queue != {}
    ensures l != []
  {
    assert (forall p :: p !in queue) ==> queue == {};
  }

  ghost function Step(s: State, ev: Event, matches: Matcher): (next: State)
    requires Enabled(s, ev, matches)
    ensures next.tables == NextTables(s, ev, matches)
  {
    var t := s.(tables := NextTables(s, ev, matches));
    match ev
    case WorkerStart(listing) => ContinueWith(t, Pending(s), listing)
    case WorkerUnloadable(listing) => ContinueWith(t, Pending(s), listing)
    case WorkerStore(_, _, listing) => ContinueWith(t, Pending(s), listing)
    case Scan => if s.running then t else t.(running := true, phase := Starting)
    case Stop => if s.running then t.(running := false, client := Joining) else t
    case Wait => if s.running then t.(client := Joining) else t
    case Joined => t.(client := Free)
    case _ => t
  }

  ghost function ContinueWith(s: State, pending: seq<string>, listing: seq<string>): (next: State)
    requires IsListing(listing, s.tables.changed)
    ensures next.tables == s.tables
  {
    if s.tables.changed != {} then ListingNotEmpty(listing, s.tables.changed); Continue(s, pending, listing)
    else Continue(s, pending, listing)
  }

  // ---------------------------------------------------------------------------
  // What every step keeps
  // ---------------------------------------------------------------------------

  /** Integrity of the database; a running scan has a live worker; a free client sees
      no worker unless a scan is running; the worker's list repeats nothing. */
  ghost predicate Inv(s: State) {
    && Sound(s.tables)
    && (s.running ==> !s.phase.Stopped?)
    && (s.client.Free? && !s.running ==> s.phase.Stopped?)
    && (s.phase.Inferring? ==> NoRepeats([s.phase.path] + s.phase.pending))
  }

  lemma TablesStaySound(s: State, ev: Event, matches: Matcher)
    requires Sound(s.tables) && MatchesKnown(matches)
    ensures Sound(NextTables(s, ev, matches))
  {
    match ev
    case WorkerUnloadable(_) => if s.phase.Inferring? { RestIsSound(s.tables, [], 0, 0, 0, s.phase.path); }
    case WorkerStore(labels, faces, _) =>
      if s.phase.Inferring? { StorePhotoMeans(s.tables, s.phase.path, labels, faces, matches, "", 0); }
    case AddFile(path) => RestIsSound(s.tables, [], 0, 0, 0, path);
    case RemoveFile(path) => PhotoRemoveIsSound(s.tables, path);
    case RemoveEverything => RestIsSound(s.tables, [], 0, 0, 0, "");
    case MoveFile(from, to) => PhotoMoveIsSound(s.tables, from, to);
    case ScanBuffer(path, labels, faces) => StorePhotoMeans(s.tables, path, labels, faces, matches, "", 0);
    case _ =>
  }

  lemma StepKeepsInv(s: State, ev: Event, matches: Matcher)
    requires Inv(s) && Enabled(s, ev, matches) && MatchesKnown(matches)
    ensures Inv(Step(s, ev, matches))
  {
    TablesStaySound(s, ev, matches);
    if IsWorker(ev) {
      ContinueKeepsList(s, ev, matches);
    }
  }

  lemma ContinueKeepsList(s: State, ev: Event, matches: Matcher)
    requires Inv(s) && Enabled(s, ev, matches) && IsWorker(ev)
    ensures var next := Step(s, ev, matches);
            && (next.phase.Inferring? ==> next.running && NoRepeats([next.phase.path] + next.phase.pending))
            && !next.phase.Starting? && next.client == s.client
            && (next.phase.Stopped? ==> !next.running)
  {
    var next := Step(s, ev, matches);
    if next.phase.Inferring? {
      if Pending(s) != [] {
        var list := [s.phase.path] + s.phase.pending;
        assert [next.phase.path] + next.phase.pending == s.phase.pending == list[1..];
      } else {
        assert [next.phase.path] + next.phase.pending == ev.listing;
      }
    }
  }

  // ---------------------------------------------------------------------------
  // How a path leaves the queue
  // ---------------------------------------------------------------------------

  /** The sections that may take a path off the queue. */
  ghost predicate Leaves(s: State, ev: Event, path: string) {
    || (ev.WorkerStore? && s.phase.Inferring? && s.phase.path == path)
    || (ev.WorkerUnloadable? && s.phase.Inferring? && s.phase.path == path)
    || (ev.ScanBuffer? && ev.path == path)
    || ev.RemoveEverything?
  }

  /** Storing a photo takes its path off the queue and creates its row. */
  lemma StoreTakesOff(s: State, ev: Event, matches: Matcher)
    requires Inv(s) && Enabled(s, ev, matches) && MatchesKnown(matches) && (ev.WorkerStore? || ev.ScanBuffer?)
    ensures var path, next := if ev.WorkerStore? then s.phase.path else ev.path, NextTables(s, ev, matches);
            next.changed == s.tables.changed - {path} && path in Paths(next)
  {
    var path := if ev.WorkerStore? then s.phase.path else ev.path;
    StorePhotoMeans(s.tables, path, ev.labels, ev.faces, matches, "", 0);
  }

  /** A path leaves the queue only in the section that creates its photo row, when its
      image cannot be loaded, or when everything is removed; it joins only by being added. */
  lemma QueueChangesOnlySo(s: State, ev: Event, matches: Matcher, path: string)
    requires Inv(s) && Enabled(s, ev, matches) && MatchesKnown(matches)
    ensures var next := Step(s, ev, matches);
            && (path in s.tables.changed && path !in next.tables.changed ==> Leaves(s, ev, path))
            && (path !in s.tables.changed && path in next.tables.changed ==> ev == AddFile(path))
            && (ev == AddFile(path) ==> path in next.tables.changed)
            && (Leaves(s, ev, path) ==> path !in next.tables.changed)
            && (Leaves(s, ev, path) && (ev.WorkerStore? || ev.ScanBuffer?) ==> path in Paths(next.tables))
  {
    if ev.WorkerStore? || ev.ScanBuffer? {
      StoreTakesOff(s, ev, matches);
    } else {
      OtherQueueChanges(s, ev, matches, path);
    }
  }

  lemma OtherQueueChanges(s: State, ev: Event, matches: Matcher, path: string)
    requires Inv(s) && Enabled(s, ev, matches) && !ev.WorkerStore? && !ev.ScanBuffer?
    ensures var before, next := s.tables.changed, NextTables(s, ev, matches).changed;
            && (path in before && path !in next ==> Leaves(s, ev, path))
            && (path !in before && path in next ==> ev == AddFile(path))
            && (Leaves(s, ev, path) ==> path !in next)
  {
  }

  /** A worker section ends the thread when it was stopped or, with the flag cleared, on an empty queue. */
  lemma WhereWorkerEnds(s: State, ev: Event, matches: Matcher)
    requires Enabled(s, ev, matches) && IsWorker(ev)
    ensures var next := Step(s, ev, matches);
            && next.phase.Stopped? == !next.running
            && (s.running && !next.running ==> next.tables.changed == {})
  {
  }

  // ---------------------------------------------------------------------------
  // Whole runs
  // ---------------------------------------------------------------------------

  ghost predicate IsRun(states: seq<State>, events: seq<Event>, matches: Matcher) {
    && |states| == |events| + 1
    && forall k :: 0 <= k < |events| ==> IsStep(states[k], events[k], states[k + 1], matches)
  }

  ghost predicate IsStep(s: State, ev: Event, next: State, matches: Matcher) {
    Enabled(s, ev, matches) && next == Step(s, ev, matches)
  }

  /** The state of a fresh process on an existing database. */
  ghost predicate Initial(s: State) {
    Sound(s.tables) && !s.running && s.phase.Stopped? && s.client.Free?
  }

  /** Over every interleaving the database stays sound and the protocol invariant holds. */
  lemma {:induction false} RunsKeepInv(states: seq<State>, events: seq<Event>, matches: Matcher, k: nat)
    requires IsRun(states, events, matches) && Initial(states[0]) && MatchesKnown(matches) && k < |states|
    ensures Inv(states[k])
  {
    if k > 0 {
      RunsKeepInv(states, events, matches, k - 1);
      assert IsStep(states[k - 1], events[k - 1], states[k - 1 + 1], matches);
      StepKeepsInv(states[k - 1], events[k - 1], matches);
    }
  }

  /** Between a moment when a path is queued and one when it is not, some step took it
      off for one of the allowed reasons. */
  lemma {:induction false} NothingIsLost(states: seq<State>, events: seq<Event>, matches: Matcher, i: nat, j: nat,
                                         path: string) returns (k: nat)
    requires IsRun(states, events, matches) && Initial(states[0]) && MatchesKnown(matches)
    requires i <= j < |states| && path in states[i].tables.changed && path !in states[j].tables.changed
    ensures i <= k < j && Leaves(states[k], events[k], path) && path in states[k].tables.changed
  {
    assert i < j;
    RunsKeepInv(states, events, matches, j - 1);
    assert IsStep(states[j - 1], events[j - 1], states[j - 1 + 1], matches);
    if path in states[j - 1].tables.changed {
      QueueChangesOnlySo(states[j - 1], events[j - 1], matches, path);
      k := j - 1;
    } else {
      k := NothingIsLost(states, events, matches, i, j - 1, path);
    }
  }

  /** Whatever was added, stopped and started in between: once a scan has ended unstopped,
      every path that was queued has been stored, found unloadable, or removed with
      everything else. */
  lemma ScanCompletes(states: seq<State>, events: seq<Event>, matches: Matcher, i: nat, j: nat, path: string)
      returns (k: nat)
    requires IsRun(states, events, matches) && Initial(states[0]) && MatchesKnown(matches)
    requires i <= j < |events| && path in states[i].tables.changed
    requires IsWorker(events[j]) && states[j].running && states[j + 1].phase.Stopped?
    ensures i <= k <= j && Leaves(states[k], events[k], path)
    ensures events[k].WorkerStore? || events[k].ScanBuffer? ==> path in Paths(states[k + 1].tables)
  {
    assert IsStep(states[j], events[j], states[j + 1], matches);
    WhereWorkerEnds(states[j], events[j], matches);
    k := NothingIsLost(states, events, matches, i, j + 1, path);
    RunsKeepInv(states, events, matches, k);
    assert IsStep(states[k], events[k], states[k + 1], matches);
    QueueChangesOnlySo(states[k], events[k], matches, path);
  }

  // ---------------------------------------------------------------------------
  // A worker left alone finishes
  // ---------------------------------------------------------------------------

  /** The paths on the worker's list that are no longer queued. */
  ghost function Stale(list: seq<string>, queue: set<string>): set<string> {
    set p | p in list && p !in queue
  }

  /** How many sections a worker still has before it if nobody interferes, at most. */
  ghost function Work(s: State): nat {
    match s.phase
    case Stopped => 0
    case Starting => 1 + 2 * |s.tables.changed|
    case Inferring(path, pending) => 2 * |s.tables.changed| + |Stale([path] + pending, s.tables.changed)|
  }

  /** Looking at one photo shrinks the queue, or the part of the list that is stale. */
  lemma LookingShrinks(path: string, pending: seq<string>, queue: set<string>)
    requires NoRepeats([path] + pending)
    ensures 2 * |queue - {path}| + |Stale(pending, queue - {path})| < 2 * |queue| + |Stale([path] + pending, queue)|
  {
    forall k | 0 <= k < |pending| ensures pending[k] != path {
      assert ([path] + pending)[0] != ([path] + pending)[k + 1];
    }
    assert Stale(pending, queue - {path}) == Stale(pending, queue);
    if path in queue {
      assert Stale([path] + pending, queue) == Stale(pending, queue);
    } else {
      assert queue - {path} == queue;
      assert Stale([path] + pending, queue) == Stale(pending, queue) + {path};
    }
  }

  /** Only an ended worker has no work left. */
  lemma WorkIsZeroAtTheEnd(s: State)
    ensures Work(s) == 0 <==> s.phase.Stopped?
  {
    if s.phase.Inferring? {
      var p := s.phase.path;
      assert ([p] + s.phase.pending)[0] == p;
      if p in s.tables.changed {
        assert |s.tables.changed| > 0;
      } else {
        assert p in Stale([p] + s.phase.pending, s.tables.changed);
      }
    }
  }

  /** A photo being looked at is off the queue afterwards, and nothing else is. */
  lemma LookedAtLeaves(s: State, ev: Event, matches: Matcher)
    requires Inv(s) && IsWorker(ev) && !ev.WorkerStart? && s.phase.Inferring? && MatchesKnown(matches)
    ensures NextTables(s, ev, matches).changed == s.tables.changed - {s.phase.path}
  {
    if ev.WorkerStore? {
      StorePhotoMeans(s.tables, s.phase.path, ev.labels, ev.faces, matches, "", 0);
    }
  }

  /** What a continuing worker has before it is its remaining list, or a list that is all queued. */
  lemma ContinueWork(s: State, pending: seq<string>, listing: seq<string>)
    requires IsListing(listing, s.tables.changed)
    ensures Work(ContinueWith(s, pending, listing)) <= 2 * |s.tables.changed| + |Stale(pending, s.tables.changed)|
  {
    var next := ContinueWith(s, pending, listing);
    if next.phase.Inferring? {
      var list := [next.phase.path] + next.phase.pending;
      if pending != [] {
        assert list == pending;
      } else {
        assert list == listing;
        assert Stale(list, s.tables.changed) == {};
      }
    }
  }

  lemma WorkerStepShrinks(s: State, ev: Event, matches: Matcher)
    requires Inv(s) && Enabled(s, ev, matches) && IsWorker(ev) && MatchesKnown(matches)
    ensures Work(Step(s, ev, matches)) < Work(s)
  {
    var t := s.(tables := NextTables(s, ev, matches));
    ContinueWork(t, Pending(s), ev.listing);
    if s.phase.Inferring? {
      LookedAtLeaves(s, ev, matches);
      LookingShrinks(s.phase.path, s.phase.pending, s.tables.changed);
    } else {
      assert Stale([], s.tables.changed) == {};
    }
  }

  /** Until it has ended the worker can always take its next section. */
  lemma WorkerCanStep(s: State, matches: Matcher) returns (ev: Event)
    requires !s.phase.Stopped?
    ensures IsWorker(ev) && Enabled(s, ev, matches)
  {
    if s.phase.Starting? {
      var l := SomeListing(s.tables.changed);
      ev := WorkerStart(l);
    } else {
      var l := SomeListing(s.tables.changed - {s.phase.path});
      ev := WorkerUnloadable(l);
    }
  }

  lemma {:induction false} SomeListing(queue: set<string>) returns (l: seq<string>)
    ensures IsListing(l, queue)
    decreases |queue|
  {
    assert (forall p :: p !in queue) ==> queue == {};
    if queue == {} {
      l := [];
    } else {
      var p :| p in queue;
      var rest := SomeListing(queue - {p});
      l := rest + [p];
    }
  }

  /** From any reachable state, a worker that is left alone ends within `Work` sections;
      if it was not stopped before, it then has emptied the queue and cleared the flag. */
  lemma {:induction false} QuietWorkerEnds(states: seq<State>, events: seq<Event>, matches: Matcher, i: nat)
    requires IsRun(states, events, matches) && Initial(states[0]) && MatchesKnown(matches) && i < |states|
    requires forall k :: i <= k < |events| ==> IsWorker(events[k])
    ensures |events| - i + Work(states[|events|]) <= Work(states[i])
    ensures |events| - i == Work(states[i]) ==> states[|events|].phase.Stopped?
    ensures states[i].running && states[|events|].phase.Stopped? ==>
              states[|events|].tables.changed == {} && !states[|events|].running
    decreases |events| - i
  {
    WorkIsZeroAtTheEnd(states[|events|]);
    RunsKeepInv(states, events, matches, i);
    if i < |events| {
      assert IsStep(states[i], events[i], states[i + 1], matches);
      WorkerStepShrinks(states[i], events[i], matches);
      QuietWorkerEnds(states, events, matches, i + 1);
      if states[i].running && !states[i + 1].running {
        WhereWorkerEnds(states[i], events[i], matches);
        RunsKeepInv(states, events, matches, i + 1);
        EndedStaysEnded(states, events, matches, i + 1);
      }
    }
  }

  /** No worker section follows the end of the thread. */
  lemma EndedStaysEnded(states: seq<State>, events: seq<Event>, matches: Matcher, i: nat)
    requires IsRun(states, events, matches) && i < |states| && states[i].phase.Stopped?
    requires forall k :: i <= k < |events| ==> IsWorker(events[k])
    ensures i == |events|
  {
    assert i < |events| ==> IsStep(states[i], events[i], states[i + 1], matches);
  }

  /** No section of the worker can be taken. */
  ghost predicate WorkerIsStuck(s: State, matches: Matcher) {
    forall ev :: IsWorker(ev) ==> !Enabled(s, ev, matches)
  }

  /** A scan left alone until its worker can do nothing more has ended, and its queue is empty. */
  lemma QuietScanEnds(states: seq<State>, events: seq<Event>, matches: Matcher, i: nat)
    requires IsRun(states, events, matches) && Initial(states[0]) && MatchesKnown(matches) && i < |states|
    requires forall k :: i <= k < |events| ==> IsWorker(events[k])
    requires states[i].running && WorkerIsStuck(states[|events|], matches)
    ensures states[|events|].phase.Stopped? && !states[|events|].running && states[|events|].tables.changed == {}
  {
    if !states[|events|].phase.Stopped? {
      var ev := WorkerCanStep(states[|events|], matches);
      assert false;
    }
    QuietWorkerEnds(states, events, matches, i);
  }

  /** Every path queued at its beginning was stored, or could not be loaded. */
  lemma QuietScanHandlesAll(states: seq<State>, events: seq<Event>, matches: Matcher, i: nat, path: string)
      returns (k: nat)
    requires IsRun(states, events, matches) && Initial(states[0]) && MatchesKnown(matches) && i < |states|
    requires forall k :: i <= k < |events| ==> IsWorker(events[k])
    requires states[i].running && WorkerIsStuck(states[|events|], matches)
    requires path in states[i].tables.changed
    ensures states[|events|].phase.Stopped? && !states[|events|].running && states[|events|].tables.changed == {}
    ensures i <= k < |events| && states[k].phase.Inferring? && states[k].phase.path == path
    ensures events[k].WorkerUnloadable? || (events[k].WorkerStore? && path in Paths(states[k + 1].tables))
  {
    QuietScanEnds(states, events, matches, i);
    k := NothingIsLost(states, events, matches, i, |events|, path);
    RunsKeepInv(states, events, matches, k);
    assert IsStep(states[k], events[k], states[k + 1], matches);
    QueueChangesOnlySo(states[k], events[k], matches, path);
  }

  // ---------------------------------------------------------------------------
  // From a request to its end
  // ---------------------------------------------------------------------------

  /** After a request to scan, a scan is running and has a worker. */
  lemma ScanIsOn(states: seq<State>, events: seq<Event>, matches: Matcher, i: nat)
    requires IsRun(states, events, matches) && Initial(states[0]) && MatchesKnown(matches)
    requires i < |events| && events[i] == Scan
    ensures states[i + 1].running && !states[i + 1].phase.Stopped? && states[i + 1].tables == states[i].tables
    ensures !states[i].running ==> states[i].phase.Stopped? && states[i + 1].phase.Starting?
  {
    RunsKeepInv(states, events, matches, i);
    RunsKeepInv(states, events, matches, i + 1);
    assert IsStep(states[i], events[i], states[i + 1], matches);
  }

  /** A request to scan with only the worker at work after it: once that can do nothing more, the queue
      is empty and every path queued at the request was stored, or could not be loaded. */
  lemma RequestedScanHandlesAll(states: seq<State>, events: seq<Event>, matches: Matcher, i: nat)
    requires IsRun(states, events, matches) && Initial(states[0]) && MatchesKnown(matches)
    requires i < |events| && events[i] == Scan && forall k :: i < k < |events| ==> IsWorker(events[k])
    requires WorkerIsStuck(states[|events|], matches)
    ensures states[|events|].phase.Stopped? && !states[|events|].running && states[|events|].tables.changed == {}
    ensures forall path :: path in states[i].tables.changed ==> Handled(states, events, i + 1, path)
  {
    ScanIsOn(states, events, matches, i);
    QuietScanEnds(states, events, matches, i + 1);
    forall path | path in states[i].tables.changed ensures Handled(states, events, i + 1, path) {
      var k := QuietScanHandlesAll(states, events, matches, i + 1, path);
    }
  }

  /** At some section from the i-th on the worker looked at the path and could not load it, or stored it. */
  ghost predicate Handled(states: seq<State>, events: seq<Event>, i: nat, path: string)
    requires |states| == |events| + 1
  {
    exists k :: i <= k < |events| && states[k].phase.Inferring? && states[k].phase.path == path
                && (events[k].WorkerUnloadable? || (events[k].WorkerStore? && path in Paths(states[k + 1].tables)))
  }

  /** A photo added, and a scan requested at any later time: when the worker, left alone, can do nothing
      more, the photo is off the queue for an allowed reason. */
  lemma AddedIsHandled(states: seq<State>, events: seq<Event>, matches: Matcher, a: nat, i: nat, path: string)
      returns (k: nat)
    requires IsRun(states, events, matches) && Initial(states[0]) && MatchesKnown(matches)
    requires a < i < |events| && events[a] == AddFile(path) && events[i] == Scan
    requires forall k :: i < k < |events| ==> IsWorker(events[k])
    requires WorkerIsStuck(states[|events|], matches)
    ensures a < k < |events| && Leaves(states[k], events[k], path)
    ensures events[k].WorkerStore? || events[k].ScanBuffer? ==> path in Paths(states[k + 1].tables)
  {
    assert IsStep(states[a], events[a], states[a + 1], matches);
    RequestedScanHandlesAll(states, events, matches, i);
    k := NothingIsLost(states, events, matches, a + 1, |events|, path);
    RunsKeepInv(states, events, matches, k);
    assert IsStep(states[k], events[k], states[k + 1], matches);
    QueueChangesOnlySo(states[k], events[k], matches, path);
  }

  /** The worker goes through its list in order and leaves nothing out, also what is no longer queued. */
  lemma {:induction false} ListIsWalked(states: seq<State>, events: seq<Event>, matches: Matcher, i: nat, m: nat)
    requires IsRun(states, events, matches) && i < |states| && states[i].running && states[i].phase.Inferring?
    requires m < |states[i].phase.pending| && i + m < |events|
    requires forall k :: i <= k < |events| ==> IsWorker(events[k])
    ensures states[i + m + 1].running
    ensures states[i + m + 1].phase == Inferring(states[i].phase.pending[m], states[i].phase.pending[m + 1..])
  {
    if m > 0 { ListIsWalked(states, events, matches, i, m - 1); }
    assert IsStep(states[i + m], events[i + m], states[i + m + 1], matches);
  }

  /** While the client waits, only the worker takes sections. */
  lemma {:induction false} OnlyWorkerWhileJoining(states: seq<State>, events: seq<Event>, matches: Matcher, i: nat,
                                                  j: nat)
    requires IsRun(states, events, matches) && i <= j < |states| && states[i].client.Joining?
    requires forall k :: i <= k < j ==> events[k] != Joined
    ensures states[j].client.Joining? && forall k :: i <= k < j ==> IsWorker(events[k])
  {
    if i < j {
      OnlyWorkerWhileJoining(states, events, matches, i, j - 1);
      assert IsStep(states[j - 1], events[j - 1], states[j - 1 + 1], matches);
    }
  }

  /** A stop that finds a scan running takes effect at once: at most the section the worker is about to
      take comes between, and the client goes on after it. */
  lemma StopTakesEffect(states: seq<State>, events: seq<Event>, matches: Matcher, i: nat, j: nat)
    requires IsRun(states, events, matches) && Initial(states[0]) && MatchesKnown(matches)
    requires i < j < |events| && events[i] == Stop && states[i].running
    requires events[j] == Joined && forall k :: i < k < j ==> events[k] != Joined
    ensures j == i + 2 && IsWorker(events[i + 1])
    ensures states[j].phase.Stopped? && !states[j].running && states[j + 1].client.Free?
  {
    RunsKeepInv(states, events, matches, i);
    assert IsStep(states[i], events[i], states[i + 1], matches);
    assert IsStep(states[i + 1], events[i + 1], states[i + 1 + 1], matches);
    OnlyWorkerWhileJoining(states, events, matches, i + 1, j);
    WhereWorkerEnds(states[i + 1], events[i + 1], matches);
    if j > i + 2 {
      assert IsStep(states[i + 2], events[i + 2], states[i + 2 + 1], matches);
    }
    assert IsStep(states[j], events[j], states[j + 1], matches);
  }

  /** A wait that finds a scan running returns when that has emptied the queue: every path queued at the
      wait was stored, or could not be loaded. */
  lemma WaitSeesTheEnd(states: seq<State>, events: seq<Event>, matches: Matcher, i: nat, j: nat)
    requires IsRun(states, events, matches) && Initial(states[0]) && MatchesKnown(matches)
    requires i < j < |events| && events[i] == Wait && states[i].running
    requires events[j] == Joined && forall k :: i < k < j ==> events[k] != Joined
    ensures !states[j].running && states[j].tables.changed == {} && states[j + 1].client.Free?
    ensures forall path :: path in states[i].tables.changed ==> Handled(states, events, i + 1, path)
  {
    RunsKeepInv(states, events, matches, i);
    assert IsStep(states[i], events[i], states[i + 1], matches);
    OnlyWorkerWhileJoining(states, events, matches, i + 1, j);
    assert IsStep(states[j], events[j], states[j + 1], matches);
    var past, done := states[..j + 1], events[..j];
    FrontIsRun(states, events, matches, j);
    QuietScanEnds(past, done, matches, i + 1);
    forall path | path in states[i].tables.changed ensures Handled(states, events, i + 1, path) {
      var k := QuietScanHandlesAll(past, done, matches, i + 1, path);
      assert states[k] == past[k] && events[k] == done[k] && states[k + 1] == past[k + 1];
    }
  }

  lemma FrontIsRun(states: seq<State>, events: seq<Event>, matches: Matcher, j: nat)
    requires IsRun(states, events, matches) && j <= |events|
    ensures IsRun(states[..j + 1], events[..j], matches)
  {
    forall k | 0 <= k < j ensures IsStep(states[..j + 1][k], events[..j][k], states[..j + 1][k + 1], matches) {
      assert IsStep(states[k], events[k], states[k + 1], matches);
    }
  }
}
