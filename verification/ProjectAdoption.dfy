/** A worker adopting the orchestrator's projects: any number of requests, each suspended at its awaits, one lock and
    one recorded generation. Every stretch of code between two awaits is one step. */
module ProjectAdoption {
  import opened Options

  datatype Request = Request(project: string, generation: int)

  datatype Outcome = Adopted | Skipped | UnknownProject | SwitchFailed | Raised

  /** Waiting for the lock; then, holding it, before the project is loaded, before the switch, and after it. */
  datatype Phase = Waiting | Loading | Switching | Switched | Ended(outcome: Outcome)

  datatype Adoption = Adoption(request: Request, phase: Phase)

  datatype State = State(adoptions: map<nat, Adoption>, holder: Option<nat>, project: string, recorded: int, settled: bool)

  const NOTHING_ADOPTED := -1

  function Start(project: string): State {
    State(map[], None, project, NOTHING_ADOPTED, false)
  }

  datatype Action =
    | Arrive(id: nat, request: Request)
    | TakeLock(id: nat)
    | Loaded(id: nat, found: bool)
    | Switch(id: nat, succeeded: bool, moved: bool)
    | Record(id: nat)
    | Raise(id: nat, moved: bool)
    | Settle(id: nat)

  predicate IsStale(s: State, generation: int) {
    generation <= s.recorded
  }

  predicate InPhase(s: State, id: nat, phase: Phase) {
    id in s.adoptions && s.adoptions[id].phase == phase
  }

  function Moved(s: State, id: nat, phase: Phase): State
    requires id in s.adoptions
  {
    s.(adoptions := s.adoptions[id := s.adoptions[id].(phase := phase)])
  }

  /** The adoption ends and gives up the lock. */
  function Released(s: State, id: nat, outcome: Outcome): State
    requires id in s.adoptions
  {
    Moved(s, id, Ended(outcome)).(holder := None)
  }

  predicate Holds(phase: Phase) {
    phase == Loading || phase == Switching || phase == Switched
  }

  predicate Succeeded(phase: Phase) {
    phase == Ended(Adopted) || phase == Ended(Skipped)
  }

  /** The project a switch that did not succeed leaves: the one before, or when `moved` the one asked for. */
  function LeftBy(s: State, id: nat, moved: bool): string
    requires id in s.adoptions
  {
    if moved then s.adoptions[id].request.project else s.project
  }

  /** One step; a step that is not possible changes nothing. A switch first sets the project and then awaits, so when it
      fails and cannot be rolled back, or is broken off, the project may be the one asked for. */
  function Next(s: State, a: Action): State {
    match a
    case Arrive(id, request) =>
      if id in s.adoptions then s else s.(adoptions := s.adoptions[id := Adoption(request, Waiting)])
    case TakeLock(id) =>
      if !InPhase(s, id, Waiting) || s.holder.Some? then s
      else if IsStale(s, s.adoptions[id].request.generation) then Released(s, id, Skipped)
      else Moved(s, id, Loading).(holder := Some(id))
    case Loaded(id, found) =>
      if !InPhase(s, id, Loading) then s
      else if found then Moved(s, id, Switching) else Released(s, id, UnknownProject)
    case Switch(id, succeeded, moved) =>
      if !InPhase(s, id, Switching) then s
      else if succeeded then Moved(s, id, Switched).(project := s.adoptions[id].request.project)
      else Released(s, id, SwitchFailed).(project := LeftBy(s, id, moved))
    case Record(id) =>
      if !InPhase(s, id, Switched) then s
      else
        var generation := s.adoptions[id].request.generation;
        Released(s, id, Adopted).(recorded := if generation > s.recorded then generation else s.recorded)
    case Raise(id, moved) =>
      if InPhase(s, id, Waiting) then Moved(s, id, Ended(Raised))
      else if InPhase(s, id, Loading) || InPhase(s, id, Switched) then Released(s, id, Raised)
      else if InPhase(s, id, Switching) then Released(s, id, Raised).(project := LeftBy(s, id, moved))
      else s
    case Settle(id) =>
      if id in s.adoptions && Succeeded(s.adoptions[id].phase) then s.(settled := true) else s
  }

  function After(s: State, run: seq<Action>): State
    decreases run
  {
    if run == [] then s else After(Next(s, run[0]), run[1..])
  }

  // ----- What every run keeps

  /** The step ends an adoption without success, after it has changed the project. */
  predicate Strays(s: State, a: Action) {
    match a
    case Switch(id, succeeded, moved) => InPhase(s, id, Switching) && !succeeded && moved
    case Raise(id, moved) => InPhase(s, id, Switched) || (InPhase(s, id, Switching) && moved)
    case _ => false
  }

  /** The step switches the project. */
  predicate Succeeds(s: State, a: Action) {
    a.Switch? && InPhase(s, a.id, Switching) && a.succeeded
  }

  /** Whether the run ends astray: an adoption strayed, and no switch has succeeded since. */
  predicate Astray(s: State, run: seq<Action>, astray: bool)
    decreases run
  {
    if run == [] then astray
    else Astray(Next(s, run[0]), run[1..], Strays(s, run[0]) || (astray && !Succeeds(s, run[0])))
  }

  /** The project is the one whose generation is recorded: that of a completed adoption, or the one the worker started
      with. */
  ghost predicate ProjectIsRecorded(s: State, start: string) {
    || (s.recorded == NOTHING_ADOPTED && s.project == start)
    || exists id :: InPhase(s, id, Ended(Adopted)) && s.adoptions[id].request == Request(s.project, s.recorded)
  }

  /** At most one adoption is past the lock, it is the holder, and its generation is newer than the recorded one. */
  ghost predicate LockInv(s: State) {
    && (forall id :: id in s.adoptions && Holds(s.adoptions[id].phase) <==> s.holder == Some(id))
    && (forall id :: id in s.adoptions && Holds(s.adoptions[id].phase) ==> s.adoptions[id].request.generation > s.recorded)
    && (forall id :: id in s.adoptions && Succeeded(s.adoptions[id].phase) ==> s.adoptions[id].request.generation <= s.recorded)
  }

  /** Some completed adoption's generation is the recorded one. */
  ghost predicate RecordInv(s: State) {
    && s.recorded >= NOTHING_ADOPTED
    && (s.recorded > NOTHING_ADOPTED ==>
          exists id :: InPhase(s, id, Ended(Adopted)) && s.adoptions[id].request.generation == s.recorded)
    && (s.settled ==> exists id :: id in s.adoptions && Succeeded(s.adoptions[id].phase))
  }

  /** The project was left by an adoption that failed, newer than the recorded one. */
  ghost predicate LeftAstray(s: State) {
    exists id :: id in s.adoptions && Failed(s.adoptions[id].phase) && s.adoptions[id].request.project == s.project
                 && s.adoptions[id].request.generation > s.recorded
  }

  predicate Failed(phase: Phase) {
    phase == Ended(SwitchFailed) || phase == Ended(Raised)
  }

  ghost predicate ProjectInv(s: State, start: string, astray: bool) {
    && (forall id :: InPhase(s, id, Switched) ==> s.adoptions[id].request.project == s.project)
    && (!astray ==> ProjectIsRecorded(s, start) || exists id :: InPhase(s, id, Switched))
    && (astray ==> LeftAstray(s) && forall id :: !InPhase(s, id, Switched))
  }

  ghost predicate Inv(s: State, start: string, astray: bool) {
    LockInv(s) && RecordInv(s) && ProjectInv(s, start, astray)
  }

  /** The holder, or an adoption taking the free lock, moves on. */
  lemma MovingKeepsLock(s: State, id: nat, phase: Phase)
    requires LockInv(s) && id in s.adoptions && (s.holder == Some(id) || s.holder.None?)
    requires Holds(phase) ==> s.adoptions[id].request.generation > s.recorded
    requires Succeeded(phase) ==> s.adoptions[id].request.generation <= s.recorded
    ensures LockInv(Moved(s, id, phase).(holder := if Holds(phase) then Some(id) else None))
  {
  }

  lemma RecordingKeepsLock(s: State, id: nat)
    requires LockInv(s) && InPhase(s, id, Switched)
    ensures LockInv(Next(s, Record(id))) && Next(s, Record(id)).recorded == s.adoptions[id].request.generation > s.recorded
  {
    assert s.holder == Some(id);
  }

  /** Steps that neither take, pass on nor use the lock. */
  predicate Outside(s: State, a: Action) {
    a.Settle? || a.Arrive? || (a.Raise? && InPhase(s, a.id, Waiting))
  }

  lemma OutsideKeepsLock(s: State, a: Action)
    requires LockInv(s) && Outside(s, a)
    ensures LockInv(Next(s, a)) && Next(s, a).recorded == s.recorded
  {
  }

  lemma HolderIs(s: State, id: nat)
    requires LockInv(s) && id in s.adoptions && Holds(s.adoptions[id].phase)
    ensures s.holder == Some(id) && s.adoptions[id].request.generation > s.recorded
  {
  }

  lemma NextKeepsLock(s: State, a: Action)
    requires LockInv(s)
    ensures LockInv(Next(s, a)) && Next(s, a).recorded >= s.recorded
    ensures Next(s, a).recorded != s.recorded ==>
      a.Record? && InPhase(Next(s, a), a.id, Ended(Adopted)) && s.adoptions[a.id].request.generation == Next(s, a).recorded
  {
    hide LockInv;
    var t := Next(s, a);
    if Outside(s, a) {
      OutsideKeepsLock(s, a);
    } else if t != s {
      var id := a.id;
      if Holds(s.adoptions[id].phase) { HolderIs(s, id); }
      if a.Record? {
        RecordingKeepsLock(s, id);
      } else {
        MovingKeepsLock(s, id, t.adoptions[id].phase);
        assert t == Moved(s, id, t.adoptions[id].phase).(holder := t.holder, project := t.project);
        ProjectIsNotLock(Moved(s, id, t.adoptions[id].phase).(holder := t.holder), t.project);
      }
    }
  }

  lemma ProjectIsNotLock(s: State, project: string)
    requires LockInv(s)
    ensures LockInv(s.(project := project))
  {
  }

  /** An adoption that has ended stays as it ended. */
  lemma EndedStays(s: State, a: Action, id: nat)
    requires id in s.adoptions && s.adoptions[id].phase.Ended?
    ensures id in Next(s, a).adoptions && Next(s, a).adoptions[id] == s.adoptions[id]
  {
  }

  lemma NextKeepsRecord(s: State, a: Action)
    requires LockInv(s) && RecordInv(s)
    ensures RecordInv(Next(s, a))
  {
    hide LockInv;
    var t := Next(s, a);
    NextKeepsLock(s, a);
    if s.settled {
      var id :| id in s.adoptions && Succeeded(s.adoptions[id].phase);
      EndedStays(s, a, id);
    }
    if s.recorded > NOTHING_ADOPTED {
      var id :| InPhase(s, id, Ended(Adopted)) && s.adoptions[id].request.generation == s.recorded;
      EndedStays(s, a, id);
      assert InPhase(t, id, Ended(Adopted));
    }
  }

  lemma SwitchedStays(s: State, a: Action)
    requires Next(s, a) == s || !(a.Record? || Strays(s, a) || Succeeds(s, a))
    ensures Next(s, a).project == s.project && Next(s, a).recorded == s.recorded
    ensures forall id :: InPhase(s, id, Switched) <==> InPhase(Next(s, a), id, Switched)
    ensures forall id :: InPhase(s, id, Switched) ==> Next(s, a).adoptions[id].request == s.adoptions[id].request
  {
  }

  lemma StraysFar(s: State, a: Action, start: string, astray: bool)
    requires LockInv(s) && ProjectInv(s, start, astray) && Strays(s, a)
    ensures ProjectInv(Next(s, a), start, true)
  {
    var t := Next(s, a);
    HolderIs(s, a.id);
    assert Failed(t.adoptions[a.id].phase) && t.adoptions[a.id].request.project == t.project;
    forall id ensures !InPhase(t, id, Switched) {
      if id != a.id && InPhase(s, id, Switched) { HolderIs(s, id); }
    }
  }

  lemma NextKeepsProject(s: State, a: Action, start: string, astray: bool)
    requires LockInv(s) && ProjectInv(s, start, astray)
    ensures ProjectInv(Next(s, a), start, Strays(s, a) || (astray && !Succeeds(s, a)))
  {
    var t := Next(s, a);
    if Strays(s, a) {
      StraysFar(s, a, start, astray);
    } else if a.Record? && t != s {
      assert InPhase(s, a.id, Switched) && InPhase(t, a.id, Ended(Adopted));
    } else if Succeeds(s, a) {
      assert InPhase(t, a.id, Switched);
    } else {
      SwitchedStays(s, a);
      if astray {
        var id :| id in s.adoptions && Failed(s.adoptions[id].phase) && s.adoptions[id].request.project == s.project
                  && s.adoptions[id].request.generation > s.recorded;
        EndedStays(s, a, id);
      } else if ProjectIsRecorded(s, start) && !(s.recorded == NOTHING_ADOPTED && s.project == start) {
        var id :| InPhase(s, id, Ended(Adopted)) && s.adoptions[id].request == Request(s.project, s.recorded);
        EndedStays(s, a, id);
        assert InPhase(t, id, Ended(Adopted));
      }
    }
  }

  /** Whatever adoptions arrive and however their steps interleave: the invariants hold, and the recorded generation
      never decreases. */
  lemma {:induction false} EveryRunKeeps(s: State, run: seq<Action>, start: string, astray: bool)
    requires Inv(s, start, astray)
    ensures Inv(After(s, run), start, Astray(s, run, astray)) && After(s, run).recorded >= s.recorded
    ensures forall id :: id in s.adoptions && s.adoptions[id].phase.Ended? ==>
      id in After(s, run).adoptions && After(s, run).adoptions[id] == s.adoptions[id]
    decreases run
  {
    if run != [] {
      hide LockInv, RecordInv, ProjectInv, Strays, Succeeds;
      NextKeepsLock(s, run[0]);
      NextKeepsRecord(s, run[0]);
      NextKeepsProject(s, run[0], start, astray);
      forall id | id in s.adoptions && s.adoptions[id].phase.Ended?
        ensures id in Next(s, run[0]).adoptions && Next(s, run[0]).adoptions[id] == s.adoptions[id]
      {
        EndedStays(s, run[0], id);
      }
      EveryRunKeeps(Next(s, run[0]), run[1..], start, Strays(s, run[0]) || (astray && !Succeeds(s, run[0])));
    }
  }

  lemma StartIsSound(start: string)
    ensures Inv(Start(start), start, false)
  {
  }

  // ----- What the worker settles on

  /** Every request asks for another project, and none for the one the worker started with. */
  ghost predicate OneRequestEach(s: State, start: string) {
    && (forall id :: id in s.adoptions ==> s.adoptions[id].request.project != start)
    && forall i, j :: i in s.adoptions && j in s.adoptions && s.adoptions[i].request.project == s.adoptions[j].request.project ==> i == j
  }

  /** Whenever no adoption holds the lock and the run is not astray, the current project is the one of the recorded
      generation; and astray it is not, unless two requests ask for one project. */
  lemma FreeLockMeansRecordedIff(start: string, run: seq<Action>)
    ensures var s := After(Start(start), run);
      && (s.holder.None? && !Astray(Start(start), run, false) ==> ProjectIsRecorded(s, start))
      && (s.holder.None? && OneRequestEach(s, start) ==>
            (ProjectIsRecorded(s, start) <==> !Astray(Start(start), run, false)))
  {
    StartIsSound(start);
    EveryRunKeeps(Start(start), run, start, false);
    hide After, Astray;
  }

  /** A run can end astray: the switch of the only request is broken off at an await. */
  lemma BrokenOffGoesAstray(start: string, request: Request) returns (run: seq<Action>)
    requires request.project != start && request.generation >= 0
    ensures var s := After(Start(start), run);
      AllEnded(s) && s.holder.None? && s.project == request.project && s.recorded == NOTHING_ADOPTED
    ensures Astray(Start(start), run, false) && !ProjectIsRecorded(After(Start(start), run), start)
  {
    run := [Arrive(0, request), TakeLock(0), Loaded(0, true), Raise(0, true)];
    var s0 := Start(start);
    var s1 := Next(s0, run[0]);
    var s2 := Next(s1, run[1]);
    var s3 := Next(s2, run[2]);
    var s4 := Next(s3, run[3]);
    assert After(s4, run[4..]) == s4 && After(s3, run[3..]) == s4 && After(s2, run[2..]) == s4 && After(s1, run[1..]) == s4;
    assert Astray(s4, run[4..], true) && Astray(s3, run[3..], false) && Astray(s2, run[2..], false) && Astray(s1, run[1..], false);
  }

  /** The worker is told it may load libraries only after some request was adopted or was found stale. */
  lemma SettledMeansSucceeded(start: string, run: seq<Action>)
    ensures var s := After(Start(start), run);
      s.settled ==> exists id :: id in s.adoptions && Succeeded(s.adoptions[id].phase) && s.adoptions[id].request.generation <= s.recorded
  {
    StartIsSound(start);
    EveryRunKeeps(Start(start), run, start, false);
    hide After;
  }

  ghost predicate AllEnded(s: State) {
    forall id :: id in s.adoptions ==> s.adoptions[id].phase.Ended?
  }

  /** The orchestrator numbers each switch once, from zero on. */
  ghost predicate Numbered(s: State) {
    && (forall id :: id in s.adoptions ==> s.adoptions[id].request.generation > NOTHING_ADOPTED)
    && forall i, j :: i in s.adoptions && j in s.adoptions && s.adoptions[i].request.generation == s.adoptions[j].request.generation ==>
         s.adoptions[i].request.project == s.adoptions[j].request.project
  }

  ghost predicate IsNewest(s: State, id: nat) {
    id in s.adoptions && forall j :: j in s.adoptions ==> s.adoptions[j].request.generation <= s.adoptions[id].request.generation
  }

  /** Once every adoption has ended, the worker is on the newest request's project, with its generation recorded, if and
      only if some request with that generation succeeded; no older one can then have led it astray. */
  lemma NewestWinsIff(start: string, run: seq<Action>, newest: nat)
    requires var s := After(Start(start), run); AllEnded(s) && Numbered(s) && IsNewest(s, newest)
    ensures var s := After(Start(start), run); var g := s.adoptions[newest].request.generation;
      s.recorded == g && s.project == s.adoptions[newest].request.project <==>
      exists id :: id in s.adoptions && s.adoptions[id].request.generation == g && Succeeded(s.adoptions[id].phase)
  {
    StartIsSound(start);
    EveryRunKeeps(Start(start), run, start, false);
    var s := After(Start(start), run);
    hide After;
    var g := s.adoptions[newest].request.generation;
    hide Astray;
    assert forall id :: InPhase(s, id, Switched) ==> false;
    if s.recorded == g && s.project == s.adoptions[newest].request.project {
      var id :| InPhase(s, id, Ended(Adopted)) && s.adoptions[id].request.generation == s.recorded;
      assert Succeeded(s.adoptions[id].phase);
    }
    if exists id :: id in s.adoptions && s.adoptions[id].request.generation == g && Succeeded(s.adoptions[id].phase) {
      assert g <= s.recorded;
      assert !LeftAstray(s);
      assert ProjectIsRecorded(s, start);
      var id :| InPhase(s, id, Ended(Adopted)) && s.adoptions[id].request == Request(s.project, s.recorded);
      assert s.adoptions[id].request.generation <= g;
    }
  }

  // ----- Why an adoption ended as it did

  /** The steps so far account for where adoption `id` has got to. */
  ghost predicate Accounted(h: seq<Action>, id: nat, adoption: Adoption) {
    Arrive(id, adoption.request) in h &&
    match adoption.phase
    case Waiting => true
    case Loading => TakeLock(id) in h
    case Switching => Loaded(id, true) in h
    case Switched => Loaded(id, true) in h && exists moved :: Switch(id, true, moved) in h
    case Ended(Adopted) => Loaded(id, true) in h && Record(id) in h && exists moved :: Switch(id, true, moved) in h
    case Ended(Skipped) => TakeLock(id) in h
    case Ended(UnknownProject) => Loaded(id, false) in h
    case Ended(SwitchFailed) => exists moved :: Switch(id, false, moved) in h
    case Ended(Raised) => exists moved :: Raise(id, moved) in h
  }

  ghost predicate AllAccounted(h: seq<Action>, s: State) {
    forall id :: id in s.adoptions ==> Accounted(h, id, s.adoptions[id])
  }

  lemma AccountedStays(h: seq<Action>, a: Action, id: nat, adoption: Adoption)
    requires Accounted(h, id, adoption)
    ensures Accounted(h + [a], id, adoption)
  {
    assert forall x :: x in h ==> x in h + [a];
  }

  lemma MoverAccounted(h: seq<Action>, s: State, a: Action, id: nat)
    requires AllAccounted(h, s) && id in Next(s, a).adoptions
    requires id !in s.adoptions || Next(s, a).adoptions[id] != s.adoptions[id]
    ensures Accounted(h + [a], id, Next(s, a).adoptions[id])
  {
    assert a in h + [a] && forall x :: x in h ==> x in h + [a];
    if id in s.adoptions { assert Accounted(h, id, s.adoptions[id]); }
  }

  lemma StepAccounted(h: seq<Action>, s: State, a: Action)
    requires AllAccounted(h, s)
    ensures AllAccounted(h + [a], Next(s, a))
  {
    var t := Next(s, a);
    hide Accounted, Next;
    forall id | id in t.adoptions ensures Accounted(h + [a], id, t.adoptions[id]) {
      if id in s.adoptions && t.adoptions[id] == s.adoptions[id] {
        AccountedStays(h, a, id, s.adoptions[id]);
      } else {
        MoverAccounted(h, s, a, id);
      }
    }
  }

  lemma {:induction false} RunAccounted(h: seq<Action>, s: State, run: seq<Action>)
    requires AllAccounted(h, s)
    ensures AllAccounted(h + run, After(s, run))
    decreases run
  {
    if run == [] {
      assert h + run == h;
    } else {
      StepAccounted(h, s, run[0]);
      RunAccounted(h + [run[0]], Next(s, run[0]), run[1..]);
      assert h + [run[0]] + run[1..] == h + run;
    }
  }

  /** An adoption succeeds only after its project was found and the switch to it succeeded; it ends as unknown only if it
      was not found, as failed only if the switch failed, and as raised only if it raised. */
  lemma EndsForAReason(start: string, run: seq<Action>)
    ensures AllAccounted(run, After(Start(start), run))
  {
    RunAccounted([], Start(start), run);
    assert [] + run == run;
  }

  /** And a request newer than the recorded one, whose project is found and whose switch succeeds, is adopted, which can settle
      the worker. */
  lemma NewerIsAdopted(s: State, id: nat, request: Request, moved: bool)
    requires s.holder.None? && id !in s.adoptions && request.generation > s.recorded
    ensures var t := After(s, [Arrive(id, request), TakeLock(id), Loaded(id, true), Switch(id, true, moved), Record(id)]);
      && t.adoptions == s.adoptions[id := Adoption(request, Ended(Adopted))] && t.holder.None?
      && t.project == request.project && t.recorded == request.generation && Next(t, Settle(id)).settled
  {
    var run := [Arrive(id, request), TakeLock(id), Loaded(id, true), Switch(id, true, moved), Record(id)];
    var s1 := Next(s, run[0]);
    var s2 := Next(s1, run[1]);
    var s3 := Next(s2, run[2]);
    var s4 := Next(s3, run[3]);
    var s5 := Next(s4, run[4]);
    assert After(s5, run[5..]) == s5 && After(s4, run[4..]) == s5 && After(s3, run[3..]) == s5;
    assert After(s2, run[2..]) == s5 && After(s1, run[1..]) == s5;
    assert s5.adoptions == s.adoptions[id := Adoption(request, Ended(Adopted))];
  }

  // ----- The steps in place

  class Worker {
    var adoptions: map<nat, Adoption>
    var holder: Option<nat>
    var project: string
    var recorded: int
    var settled: bool

    function Value(): State
      reads this
    {
      State(adoptions, holder, project, recorded, settled)
    }

    constructor (startProject: string)
      ensures Value() == Start(startProject)
    {
      adoptions, holder, project, recorded, settled := map[], None, startProject, NOTHING_ADOPTED, false;
    }

    method IsStaleAdoption(generation: int) returns (stale: bool)
      ensures stale == IsStale(Value(), generation)
    {
      stale := generation <= recorded;
    }

    method RecordAdoptedGeneration(generation: int)
      modifies `recorded
      ensures recorded == if generation > old(recorded) then generation else old(recorded)
    {
      if generation > recorded { recorded := generation; }
    }

    method MoveTo(id: nat, phase: Phase)
      requires id in adoptions
      modifies `adoptions
      ensures Value() == Moved(old(Value()), id, phase)
    {
      adoptions := adoptions[id := adoptions[id].(phase := phase)];
    }

    /** From taking the lock to the first await under it, or to the end. */
    method EnterLock(id: nat)
      requires InPhase(Value(), id, Waiting) && holder.None?
      modifies this
      ensures Value() == Next(old(Value()), TakeLock(id))
    {
      var stale := IsStaleAdoption(adoptions[id].request.generation);
      if stale {
        MoveTo(id, Ended(Skipped));
        return;
      }
      holder := Some(id);
      MoveTo(id, Loading);
    }

    method AfterLoading(id: nat, found: bool)
      requires InPhase(Value(), id, Loading) && holder == Some(id)
      modifies this
      ensures Value() == Next(old(Value()), Loaded(id, found))
    {
      if !found {
        MoveTo(id, Ended(UnknownProject));
        holder := None;
        return;
      }
      MoveTo(id, Switching);
    }

    /** `moved` tells what an unsuccessful switch has left. */
    method AfterSwitching(id: nat, succeeded: bool, moved: bool)
      requires InPhase(Value(), id, Switching) && holder == Some(id)
      modifies this
      ensures Value() == if succeeded then Next(Next(old(Value()), Switch(id, true, moved)), Record(id))
                         else Next(old(Value()), Switch(id, false, moved))
    {
      if !succeeded {
        if moved { project := adoptions[id].request.project; }
        MoveTo(id, Ended(SwitchFailed));
        holder := None;
        return;
      }
      project := adoptions[id].request.project;
      RecordAdoptedGeneration(adoptions[id].request.generation);
      MoveTo(id, Ended(Adopted));
      holder := None;
    }
  }
}
