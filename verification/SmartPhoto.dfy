/** The object the client and the worker share, one method for each locked section. */
module SmartPhoto {
  import opened Wrappers
  import opened PhotoTables
  import opened ScanProtocol

  class SmartPhotoLibrary {
    const matches: Matcher
    var tables: Tables
    var scanRunning: bool
    /** Where the scan thread is while it does not hold the lock. */
    var phase: Phase
    var client: Client

    ghost function Now(): State
      reads this
    {
      State(tables, scanRunning, phase, client)
    }

    ghost predicate Valid()
      reads this
    {
      MatchesKnown(matches) && Inv(Now())
    }

    constructor (matches: Matcher)
      requires MatchesKnown(matches)
      ensures Valid() && this.matches == matches && Now() == State(EMPTY, false, Stopped, Free)
    {
      this.matches := matches;
      tables := EMPTY;
      scanRunning := false;
      phase := Stopped;
      client := Free;
    }

    // --- The client -----------------------------------------------------------

    /** Queues a file under its resolved path; a path that does not resolve is refused. */
    method AddPhoto(resolved: Option<string>) returns (rc: int)
      requires Valid() && client.Free?
      modifies `tables
      ensures Valid() && rc == if resolved.Some? then 0 else -1
      ensures Now() == if resolved.Some? then Step(old(Now()), AddFile(resolved.value), matches) else old(Now())
      ensures resolved.Some? ==> tables.changed == old(tables.changed) + {resolved.value}
    {
      if resolved.None? { return -1; }
      StepKeepsInv(Now(), AddFile(resolved.value), matches);
      tables := ChangedAdd(tables, resolved.value);
      return 0;
    }

    method RemovePhoto(path: string)
      requires Valid() && client.Free?
      modifies `tables
      ensures Valid() && Now() == Step(old(Now()), RemoveFile(path), matches)
      ensures path !in Paths(tables)
    {
      StepKeepsInv(Now(), RemoveFile(path), matches);
      PhotoRemoveIsSound(tables, path);
      tables := PhotoRemove(tables, path);
    }

    method RemoveAllPhotos()
      requires Valid() && client.Free?
      modifies `tables
      ensures Valid() && Now() == Step(old(Now()), RemoveEverything, matches)
      ensures tables.changed == {} && Paths(tables) == {} && tables.objects == map[] && tables.persons == map[]
    {
      StepKeepsInv(Now(), RemoveEverything, matches);
      QueuedAndEmptied(tables, "");
      tables := RemoveAll(tables);
    }

    method MovePhoto(from: string, to: string) returns (rc: int)
      requires Valid() && client.Free?
      modifies `tables
      ensures Valid() && Now() == Step(old(Now()), MoveFile(from, to), matches)
      ensures rc == -1 <==> from != to && from in Paths(old(tables)) && to in Paths(old(tables))
      ensures rc == 0 || rc == -1
      ensures Paths(tables) == if rc == 0 && from in Paths(old(tables)) then Paths(old(tables)) - {from} + {to}
                               else Paths(old(tables))
    {
      StepKeepsInv(Now(), MoveFile(from, to), matches);
      PhotoMoveIsSound(tables, from, to);
      var moved := PhotoMove(tables, from, to);
      if moved.Failure? { return -1; }
      tables := moved.value;
      return 0;
    }

    method StartScan()
      requires Valid() && client.Free?
      modifies `scanRunning, `phase
      ensures Valid() && Now() == Step(old(Now()), Scan, matches)
      ensures scanRunning && !phase.Stopped?
      ensures !old(scanRunning) ==> phase.Starting?
    {
      StepKeepsInv(Now(), Scan, matches);
      if scanRunning { return; }
      scanRunning := true;
      phase := Starting;
    }

    /** Asks the scan to stop and waits; fails when none is running. */
    method StopScan() returns (rc: int)
      requires Valid() && client.Free?
      modifies `scanRunning, `client
      ensures Valid() && Now() == Step(old(Now()), Stop, matches)
      ensures !scanRunning && (client.Joining? <==> old(scanRunning))
      ensures rc == if old(scanRunning) then 0 else -1
    {
      StepKeepsInv(Now(), Stop, matches);
      if !scanRunning { return -1; }
      scanRunning := false;
      client := Joining;
      return 0;
    }

    method WaitScan() returns (rc: int)
      requires Valid() && client.Free?
      modifies `client
      ensures Valid() && Now() == Step(old(Now()), Wait, matches)
      ensures client.Joining? <==> old(scanRunning)
      ensures rc == if old(scanRunning) then 0 else -1
    {
      StepKeepsInv(Now(), Wait, matches);
      if !scanRunning { return -1; }
      client := Joining;
      return 0;
    }

    method JoinReturns()
      requires Valid() && client.Joining? && phase.Stopped?
      modifies `client
      ensures Valid() && Now() == Step(old(Now()), Joined, matches) && client.Free?
    {
      StepKeepsInv(Now(), Joined, matches);
      client := Free;
    }

    /** Stores a photo whose contents the client brought along; contents that are no image
        are refused. */
    method ScanFileBuffer(path: string, image: Option<(seq<string>, seq<Embedding>)>) returns (rc: int)
      requires Valid() && client.Free?
      modifies `tables
      ensures Valid() && rc == if image.Some? then 0 else -1
      ensures Now() == if image.Some? then Step(old(Now()), ScanBuffer(path, image.value.0, image.value.1), matches)
                       else old(Now())
    {
      if image.None? { return -1; }
      var (labels, faces) := image.value;
      StepKeepsInv(Now(), ScanBuffer(path, labels, faces), matches);
      tables := UpdateTables(tables, path, labels, faces);
      return 0;
    }

    // --- The scan thread ------------------------------------------------------

    /** The rows of the queue, in whatever order the database gives them. */
    method ListChanged() returns (listing: seq<string>)
      ensures IsListing(listing, tables.changed)
    {
      listing := [];
      var left := tables.changed;
      while left != {}
        invariant left <= tables.changed && NoRepeats(listing)
        invariant forall p :: p in listing <==> p in tables.changed && p !in left
        decreases |left|
      {
        assert (forall p :: p !in left) ==> left == {};
        var p :| p in left;
        left := left - {p};
        listing := listing + [p];
      }
    }

    /** The loop heads passed before the lock is dropped again or the thread ends. */
    method GoOn(pending: seq<string>) returns (ghost listing: seq<string>)
      modifies `scanRunning, `phase
      ensures IsListing(listing, tables.changed) && Now() == ContinueWith(old(Now()), pending, listing)
    {
      var order := ListChanged();
      listing := order;
      if tables.changed != {} { ListingNotEmpty(order, tables.changed); }
      assert order != [] ==> order[0] in tables.changed;
      if !scanRunning {
        phase := Stopped;
      } else if pending != [] {
        phase := Inferring(pending[0], pending[1..]);
      } else if order == [] {
        scanRunning := false;
        phase := Stopped;
      } else {
        phase := Inferring(order[0], order[1..]);
      }
    }

    method ThreadStarts() returns (ghost listing: seq<string>)
      requires Valid() && phase.Starting?
      modifies `scanRunning, `phase
      ensures Valid() && Enabled(old(Now()), WorkerStart(listing), matches)
      ensures Now() == Step(old(Now()), WorkerStart(listing), matches)
    {
      ghost var s := Now();
      listing := GoOn([]);
      StepKeepsInv(s, WorkerStart(listing), matches);
    }

    method PhotoUnloadable() returns (ghost listing: seq<string>)
      requires Valid() && phase.Inferring?
      modifies `tables, `scanRunning, `phase
      ensures Valid() && Enabled(old(Now()), WorkerUnloadable(listing), matches)
      ensures Now() == Step(old(Now()), WorkerUnloadable(listing), matches)
    {
      ghost var s := Now();
      tables := ChangedRemove(tables, phase.path);
      listing := GoOn(phase.pending);
      StepKeepsInv(s, WorkerUnloadable(listing), matches);
    }

    method PhotoInferred(labels: seq<string>, faces: seq<Embedding>) returns (ghost listing: seq<string>)
      requires Valid() && phase.Inferring?
      modifies `tables, `scanRunning, `phase
      ensures Valid() && Enabled(old(Now()), WorkerStore(labels, faces, listing), matches)
      ensures Now() == Step(old(Now()), WorkerStore(labels, faces, listing), matches)
    {
      ghost var s := Now();
      tables := UpdateTables(tables, phase.path, labels, faces);
      listing := GoOn(phase.pending);
      StepKeepsInv(s, WorkerStore(labels, faces, listing), matches);
    }

    // --- Writing what inference found -----------------------------------------

    method UpdateTables(t: Tables, path: string, labels: seq<string>, faces: seq<Embedding>) returns (u: Tables)
      ensures u == StorePhoto(t, path, labels, faces, matches)
    {
      u := ChangedRemove(t, path);
      var (added, photo) := PhotoAdd(u, path);
      u := ObjectToDb(added, photo, labels);
      u := FaceIdToDb(u, photo, faces);
    }

    method ObjectToDb(t: Tables, photo: int, labels: seq<string>) returns (u: Tables)
      ensures u == StoreLabels(t, photo, labels)
    {
      u := t;
      for k := 0 to |labels|
        invariant u == StoreLabels(t, photo, labels[..k])
      {
        assert labels[..k + 1][..k] == labels[..k];
        var (named, id) := ObjectAdd(u, labels[k]);
        u := PhotoObjectAdd(named, photo, id);
      }
      assert labels[..|labels|] == labels;
    }

    /** Links the persons each face matches; faces without a match are kept for later
        and become new persons. */
    method FaceIdToDb(t: Tables, photo: int, faces: seq<Embedding>) returns (u: Tables)
      ensures u == StoreFaces(t, photo, faces, matches)
    {
      u := t;
      var newFaces: seq<Embedding> := [];
      for k := 0 to |faces|
        invariant u == LinkPersons(t, photo, KnownPersons(t.persons, faces[..k], matches))
        invariant newFaces == NewFaces(t.persons, faces[..k], matches)
        invariant u.persons == t.persons
      {
        assert faces[..k + 1][..k] == faces[..k];
        var ids := matches(u.persons, faces[k]);
        ghost var known := KnownPersons(t.persons, faces[..k], matches);
        if ids != [] {
          u := LinkAll(t, u, photo, known, ids);
        } else {
          newFaces := newFaces + [faces[k]];
          assert known + [] == known;
        }
      }
      assert faces[..|faces|] == faces;
      ghost var linked := u;
      for k := 0 to |newFaces|
        invariant u == AddPersons(linked, photo, newFaces[..k])
      {
        assert newFaces[..k + 1][..k] == newFaces[..k];
        var (added, id) := PersonAdd(u, newFaces[k]);
        u := PhotoPersonAdd(added, photo, id);
      }
      assert newFaces[..|newFaces|] == newFaces;
    }

    method LinkAll(ghost t: Tables, u0: Tables, photo: int, ghost known: seq<int>, ids: seq<int>) returns (u: Tables)
      requires u0 == LinkPersons(t, photo, known)
      ensures u == LinkPersons(t, photo, known + ids) && u.persons == u0.persons
    {
      u := u0;
      assert known + ids[..0] == known;
      for k := 0 to |ids|
        invariant u == LinkPersons(t, photo, known + ids[..k]) && u.persons == u0.persons
      {
        ghost var more := known + ids[..k + 1];
        assert more[..|more| - 1] == known + ids[..k];
        u := PhotoPersonAdd(u, photo, ids[k]);
      }
      assert ids[..|ids|] == ids;
    }
  }
}
